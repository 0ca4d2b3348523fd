/**
 Building a tree from code and its map: `fromStringWithSourceMap`, defaults/JSXTransformer.js:11326-11421, with
 `add`, 11429-11446.  The mappings are those of a parsed map, in its order.
 */
module SourceNodeReader {
  import opened CodeLines
  import opened GeneratedPositions
  import opened Mappings
  import opened Options
  import opened SourceMapConsumers
  import opened SourceNodes

  /** The state between two mappings. */
  datatype Reading = Reading(children: seq<Child>, lines: seq<string>, at: Position, last: Option<Mapping>)

  function Root(children: seq<Child>): SourceNode {
    SourceNode(None, None, None, None, children)
  }

  /** `add`, which leaves out the empty snippet. */
  function Added(children: seq<Child>, child: Child): seq<Child> {
    if child == Snippet("") then children else children + [child]
  }

  /** The child that `addMappingWithCode` adds. */
  function Associated(last: Option<Mapping>, code: string): Child {
    if last.None? || last.value.original.None? then Snippet(code)
    else
      var o := last.value.original.value;
      Nested(SourceNode(Some(o.line), Some(o.column), Some(o.source), o.name, Added([], Snippet(code))))
  }

  /** The snippets for n full lines. */
  function LineSnippets(lines: seq<string>, n: nat): seq<Child> {
    if n == 0 then [] else [Snippet(First(lines) + "\n")] + LineSnippets(Rest(lines), n - 1)
  }

  /** The code up to the first mapping, which no mapping is associated with. */
  function ReadFirst(s: Reading, m: Mapping, n: nat): Option<Reading> {
    var cut := s.at.column < m.column;
    if cut && |s.lines| <= n then None
    else
      var width := if cut then m.column else 0;
      var full := s.children + LineSnippets(s.lines, n);
      Some(Reading(if cut then Added(full, Snippet(Prefix(s.lines[n], width))) else full,
        Remaining(s.lines, n, width), Position(s.at.line + n, if cut then m.column else s.at.column), Some(m)))
  }

  /** The code between the last mapping and one in a later line. */
  function ReadLines(s: Reading, m: Mapping, n: nat): Option<Reading> {
    var cut := 0 < m.column;
    if cut && |s.lines| <= n then None
    else
      var width := if cut then m.column else 0;
      Some(Reading(Added(s.children, Associated(s.last, Taken(s.lines, n, width))),
        Remaining(s.lines, n, width), Position(s.at.line + n, width), Some(m)))
  }

  /** The code between the last mapping and one in the same line. */
  function ReadColumns(s: Reading, m: Mapping): Option<Reading> {
    if s.lines == [] then None
    else
      var width := m.column - s.at.column;
      Some(Reading(Added(s.children, Associated(s.last, Prefix(s.lines[0], width))),
        [Suffix(s.lines[0], width)] + s.lines[1..], Position(s.at.line, m.column), Some(m)))
  }

  /** The code up to a mapping, or nothing where the code throws. */
  function Read(s: Reading, m: Mapping): Option<Reading> {
    var n := LinesBetween(s.at, MappingPosition(m));
    if s.last.None? then ReadFirst(s, m, n) else if n > 0 then ReadLines(s, m, n) else ReadColumns(s, m)
  }

  function AllRead(code: string, ms: seq<Mapping>): Option<Reading> {
    if ms == [] then Some(Reading([], Lines(code), FIRST, None))
    else
      match AllRead(code, ms[..|ms| - 1])
      case Some(s) => Read(s, ms[|ms| - 1])
      case None => None
  }

  /** The tree, with what is left of the code. */
  function Finished(s: Reading): SourceNode {
    Root(Added(s.children, Associated(s.last, Join(s.lines))))
  }

  // ---------- the loops ----------

  /** Takes lines away, keeping each as a snippet. */
  method ShiftSnippets(children: seq<Child>, lines: seq<string>, n: nat)
    returns (children': seq<Child>, lines': seq<string>)
    ensures children' == children + LineSnippets(lines, n) && lines' == DropLines(lines, n)
  {
    children', lines' := children, lines;
    var i := 0;
    while i < n
      invariant 0 <= i <= n && children' + LineSnippets(lines', n - i) == children + LineSnippets(lines, n)
      invariant DropLines(lines', n - i) == DropLines(lines, n)
    {
      children', lines' := children' + [Snippet(First(lines') + "\n")], Rest(lines');
      i := i + 1;
    }
  }

  lemma LinesNext(text: string, lines: seq<string>, n: nat)
    requires n > 0
    ensures text + FullLines(lines, n) == text + (First(lines) + "\n") + FullLines(Rest(lines), n - 1)
    ensures DropLines(lines, n) == DropLines(Rest(lines), n - 1)
  {
  }

  /** Takes lines away, collecting their text. */
  method ShiftLines(lines: seq<string>, n: nat) returns (text: string, lines': seq<string>)
    ensures text == FullLines(lines, n) && lines' == DropLines(lines, n)
  {
    text, lines' := "", lines;
    var i := 0;
    while i < n
      invariant 0 <= i <= n && text + FullLines(lines', n - i) == FullLines(lines, n)
      invariant DropLines(lines', n - i) == DropLines(lines, n)
    {
      LinesNext(text, lines', n - i);
      text := text + (First(lines') + "\n");
      lines' := Rest(lines');
      i := i + 1;
    }
  }

  /** Reads the code up to the first mapping. */
  method ReadFirstMapping(s: Reading, m: Mapping, n: nat) returns (r: Option<Reading>)
    ensures r == ReadFirst(s, m, n)
  {
    var at := s.at;
    var children, lines := ShiftSnippets(s.children, s.lines, n);
    TakenApart(s.lines, n, if at.column < m.column then m.column else 0);
    NothingTaken(lines);
    at := at.(line := at.line + n);
    if at.column < m.column {
      if lines == [] {
        return None;
      }
      children := Added(children, Snippet(Prefix(lines[0], m.column)));
      lines := [Suffix(lines[0], m.column)] + lines[1..];
      at := at.(column := m.column);
    }
    return Some(Reading(children, lines, at, Some(m)));
  }

  /** Reads the code up to a mapping in a later line than the last one. */
  method ReadLaterMapping(s: Reading, m: Mapping, n: nat) returns (r: Option<Reading>)
    ensures r == ReadLines(s, m, n)
  {
    var code, lines := ShiftLines(s.lines, n);
    TakenApart(s.lines, n, if 0 < m.column then m.column else 0);
    NothingTaken(lines);
    var at := Position(s.at.line + n, 0);
    if at.column < m.column {
      if lines == [] {
        return None;
      }
      code := code + Prefix(lines[0], m.column);
      lines := [Suffix(lines[0], m.column)] + lines[1..];
      at := at.(column := m.column);
    } else {
      assert code + "" == code;
    }
    return Some(Reading(Added(s.children, Associated(s.last, code)), lines, at, Some(m)));
  }

  /** Reads the code up to a mapping. */
  method ReadMapping(s: Reading, m: Mapping) returns (r: Option<Reading>)
    ensures r == Read(s, m)
  {
    var n := LinesBetween(s.at, MappingPosition(m));
    if s.last.None? {
      r := ReadFirstMapping(s, m, n);
    } else if s.at.line < m.line {
      r := ReadLaterMapping(s, m, n);
    } else {
      if s.lines == [] {
        return None;
      }
      var width := m.column - s.at.column;
      var code := Prefix(s.lines[0], width);
      var lines := [Suffix(s.lines[0], width)] + s.lines[1..];
      var children := Added(s.children, Associated(s.last, code));
      return Some(Reading(children, lines, Position(s.at.line, m.column), Some(m)));
    }
  }

  /** Builds the tree; nothing where the code throws. */
  method FromStringWithSourceMap(code: string, ms: seq<Mapping>) returns (r: Option<SourceNode>)
    ensures r == if AllRead(code, ms).Some? then Some(Finished(AllRead(code, ms).value)) else None
  {
    var s := Reading([], Lines(code), FIRST, None);
    for i := 0 to |ms|
      invariant AllRead(code, ms[..i]) == Some(s)
    {
      assert ms[..i + 1][..i] == ms[..i];
      var next := ReadMapping(s, ms[i]);
      if next.None? {
        FailureStays(code, ms, i + 1);
        return None;
      }
      s := next.value;
    }
    assert ms[..|ms|] == ms;
    return Some(Finished(s));
  }

  lemma {:induction false} FailureStays(code: string, ms: seq<Mapping>, n: nat)
    requires n <= |ms| && AllRead(code, ms[..n]).None?
    ensures AllRead(code, ms).None?
    decreases |ms| - n
  {
    if n == |ms| {
      assert ms[..n] == ms;
    } else {
      assert ms[..n + 1][..n] == ms[..n];
      FailureStays(code, ms, n + 1);
    }
  }

  // ---------- the text and the origins of a list of children ----------

  /** What `walk` reports for the children of a root. */
  function RootChunks(children: seq<Child>): seq<Chunk> {
    if children == [] then [] else ChildChunks(Root([children[0]]), 0) + RootChunks(children[1..])
  }

  lemma {:induction false} RootChunksAre(children: seq<Child>, i: nat)
    requires i <= |children|
    ensures ChunksFrom(Root(children), i) == RootChunks(children[i..])
    decreases |children| - i
  {
    if i < |children| {
      RootChunksAre(children, i + 1);
      assert children[i..][1..] == children[i + 1..];
    }
  }

  lemma {:induction false} RootChunksConcat(a: seq<Child>, b: seq<Child>)
    ensures RootChunks(a + b) == RootChunks(a) + RootChunks(b)
  {
    if a == [] {
      assert a + b == b;
    } else {
      assert (a + b)[1..] == a[1..] + b;
      RootChunksConcat(a[1..], b);
    }
  }

  function TextOf(children: seq<Child>): string {
    Code(RootChunks(children))
  }

  /** Where each character of the children comes from. */
  function OriginsOf(children: seq<Child>): (r: seq<Option<Original>>)
    ensures |r| == |TextOf(children)|
  {
    Attribution(RootChunks(children))
  }

  /** The children have grown by this text from this original. */
  predicate Grown(before: seq<Child>, after: seq<Child>, text: string, o: Option<Original>) {
    TextOf(after) == TextOf(before) + text && OriginsOf(after) == OriginsOf(before) + Uniform(|text|, o)
  }

  lemma Grows(before: seq<Child>, more: seq<Child>)
    ensures TextOf(before + more) == TextOf(before) + TextOf(more)
    ensures OriginsOf(before + more) == OriginsOf(before) + OriginsOf(more)
  {
    RootChunksConcat(before, more);
    CodeConcat(RootChunks(before), RootChunks(more));
  }

  lemma GrowsTwice(a: seq<Child>, b: seq<Child>, c: seq<Child>, s: string, t: string, o: Option<Original>)
    requires Grown(a, b, s, o) && Grown(b, c, t, o)
    ensures Grown(a, c, s + t, o)
  {
    assert TextOf(a) + (s + t) == TextOf(a) + s + t;
    assert Uniform(|s + t|, o) == Uniform(|s|, o) + Uniform(|t|, o);
    assert OriginsOf(a) + (Uniform(|s|, o) + Uniform(|t|, o)) == OriginsOf(a) + Uniform(|s|, o) + Uniform(|t|, o);
  }

  function OriginalOf(last: Option<Mapping>): Option<Original> {
    if last.Some? then last.value.original else None
  }

  lemma OneSnippet(node: SourceNode, code: string)
    requires node.children == Added([], Snippet(code))
    ensures ChunksFrom(node, 0) == if code == "" then [] else [Chunk(code, OriginOf(node))]
  {
    if code != "" {
      assert ChunksFrom(node, 1) == [];
    }
  }

  lemma OneChild(child: Child)
    ensures RootChunks([child]) == ChildChunks(Root([child]), 0)
  {
    assert RootChunks([]) == [];
  }

  lemma OneChunk(code: string, origin: Origin)
    ensures Code([Chunk(code, origin)]) == code
    ensures Attribution([Chunk(code, origin)]) == Uniform(|code|, origin.Original())
  {
    var chunks := [Chunk(code, origin)];
    assert chunks[..0] == [] && Code([]) == "" && Attribution([]) == [];
    assert "" + code == code;
  }

  lemma AssociatedIs(last: Option<Mapping>, code: string)
    ensures var children := Added([], Associated(last, code));
      TextOf(children) == code && OriginsOf(children) == Uniform(|code|, OriginalOf(last))
  {
    var child := Associated(last, code);
    OneChild(child);
    if child.Nested? {
      OneSnippet(child.node, code);
      assert ChildChunks(Root([child]), 0) == ChunksFrom(child.node, 0);
      assert Added([], child) == [child];
      OneChunk(code, OriginOf(child.node));
    } else if code != "" {
      assert ChildChunks(Root([child]), 0) == [Chunk(code, OriginOf(Root([child])))];
      assert Added([], child) == [child];
      OneChunk(code, OriginOf(Root([child])));
    } else {
      assert RootChunks(Added([], child)) == [];
    }
  }

  lemma AddedGrows(children: seq<Child>, last: Option<Mapping>, code: string)
    ensures Grown(children, Added(children, Associated(last, code)), code, OriginalOf(last))
  {
    var c := Associated(last, code);
    AssociatedIs(last, code);
    Grows(children, Added([], c));
    assert Added(children, c) == children + Added([], c);
  }

  lemma SnippetIs(text: string)
    requires text != ""
    ensures TextOf([Snippet(text)]) == text && OriginsOf([Snippet(text)]) == Uniform(|text|, None)
  {
    AssociatedIs(None, text);
    assert Added([], Associated(None, text)) == [Snippet(text)];
  }

  lemma UniformConcat(m: nat, n: nat, o: Option<Original>)
    ensures Uniform(m, o) + Uniform(n, o) == Uniform(m + n, o)
  {
  }

  lemma LineInFront(line: string, more: seq<Child>)
    requires line != "" && OriginsOf(more) == Uniform(|TextOf(more)|, None)
    ensures TextOf([Snippet(line)] + more) == line + TextOf(more)
    ensures OriginsOf([Snippet(line)] + more) == Uniform(|line| + |TextOf(more)|, None)
  {
    SnippetIs(line);
    Grows([Snippet(line)], more);
    UniformConcat(|line|, |TextOf(more)|, None);
  }

  lemma {:induction false} SnippetsAre(lines: seq<string>, n: nat)
    ensures TextOf(LineSnippets(lines, n)) == FullLines(lines, n)
    ensures OriginsOf(LineSnippets(lines, n)) == Uniform(|FullLines(lines, n)|, None)
    decreases n
  {
    if n > 0 {
      SnippetsAre(Rest(lines), n - 1);
      LineInFront(First(lines) + "\n", LineSnippets(Rest(lines), n - 1));
    }
  }

  lemma SnippetsGrow(children: seq<Child>, lines: seq<string>, n: nat)
    ensures Grown(children, children + LineSnippets(lines, n), FullLines(lines, n), None)
  {
    SnippetsAre(lines, n);
    Grows(children, LineSnippets(lines, n));
  }

  /** A mapping that is not before the position reached. */
  predicate Ahead(s: Reading, m: Mapping) {
    m.column >= 0 && !Before(MappingPosition(m), s.at) && (s.last.None? ==> s.at.column == 0)
  }

  /** Reading fails exactly if the mapping needs a line that there is not. */
  predicate Reads(s: Reading, m: Mapping) {
    var n := LinesBetween(s.at, MappingPosition(m));
    n < |s.lines| || (m.column == 0 && (n > 0 || s.last.None?))
  }

  /** Up to the mapping, the text taken from the lines goes to the original of the last one. */
  lemma ReadGrows(s: Reading, m: Mapping)
    requires Ahead(s, m)
    ensures Read(s, m).Some? <==> Reads(s, m)
    ensures Read(s, m).Some? ==>
      var s', p := Read(s, m).value, MappingPosition(m);
      var n, width := LinesBetween(s.at, p), ColumnsBetween(s.at, p);
      && s'.at == p && s'.last == Some(m) && s'.lines == Remaining(s.lines, n, width)
      && Grown(s.children, s'.children, Taken(s.lines, n, width), OriginalOf(s.last))
  {
    var n := LinesBetween(s.at, MappingPosition(m));
    if !Reads(s, m) {
    } else if s.last.None? {
      ReadFirstGrows(s, m, n);
    } else if n > 0 {
      AddedGrows(s.children, s.last, Taken(s.lines, n, m.column));
    } else {
      AddedGrows(s.children, s.last, Prefix(s.lines[0], m.column - s.at.column));
    }
  }

  lemma ReadFirstGrows(s: Reading, m: Mapping, n: nat)
    requires Ahead(s, m) && s.last.None? && Reads(s, m) && n == LinesBetween(s.at, MappingPosition(m))
    ensures ReadFirst(s, m, n).Some?
    ensures var s', p := ReadFirst(s, m, n).value, MappingPosition(m);
      var width := ColumnsBetween(s.at, p);
      && s'.at == p && s'.last == Some(m) && s'.lines == Remaining(s.lines, n, width)
      && Grown(s.children, s'.children, Taken(s.lines, n, width), None)
  {
    SnippetsGrow(s.children, s.lines, n);
    TakenApart(s.lines, n, m.column);
    NothingTaken(DropLines(s.lines, n));
    var full := s.children + LineSnippets(s.lines, n);
    if s.at.column < m.column {
      var prefix := Prefix(s.lines[n], m.column);
      AddedGrows(full, None, prefix);
      GrowsTwice(s.children, full, Added(full, Snippet(prefix)), FullLines(s.lines, n), prefix, None);
    } else {
      assert FullLines(s.lines, n) + "" == FullLines(s.lines, n);
    }
  }

  // ---------- no text is lost ----------

  /** Mappings with columns from 0, in the order of their positions. */
  predicate InOrder(ms: seq<Mapping>) {
    && (forall i | 0 <= i < |ms| :: ms[i].line >= 1 && ms[i].column >= 0)
    && forall i | 0 < i < |ms| :: !Before(MappingPosition(ms[i]), MappingPosition(ms[i - 1]))
  }

  /** The state after some mappings. */
  predicate Follows(s: Reading, ms: seq<Mapping>) {
    if ms == [] then s.last.None? && s.at == FIRST
    else s.last == Some(ms[|ms| - 1]) && s.at == MappingPosition(ms[|ms| - 1])
  }

  lemma NextIsAhead(s: Reading, ms: seq<Mapping>, n: nat)
    requires n < |ms| && InOrder(ms) && Follows(s, ms[..n])
    ensures Ahead(s, ms[n])
  {
    if n > 0 {
      assert s.at == MappingPosition(ms[n - 1]);
    }
  }

  /** Up to the last line of the code no text is lost; behind it there is too much of it. */
  predicate Keeps(s: Reading, code: string) {
    if s.at.line <= |Lines(code)|
    then |s.lines| == |Lines(code)| - s.at.line + 1 && TextOf(s.children) + Join(s.lines) == code
    else s.lines == [] && |TextOf(s.children)| > |code|
  }

  lemma TakingKeeps(text: string, lines: seq<string>, n: nat, width: int)
    requires n < |lines| && width >= 0
    ensures text + Taken(lines, n, width) + Join(Remaining(lines, n, width)) == text + Join(lines)
  {
    TakingKeepsText(lines, n, width);
    assert text + (Taken(lines, n, width) + Join(Remaining(lines, n, width)))
        == text + Taken(lines, n, width) + Join(Remaining(lines, n, width));
  }

  lemma GrownKeeps(s: Reading, s': Reading, p: Position, code: string)
    requires Keeps(s, code) && 1 <= s.at.line <= p.line && s'.at == p
    requires var n, width := LinesBetween(s.at, p), ColumnsBetween(s.at, p);
      && width >= 0 && (n > 0 || s.lines != [])
      && s'.lines == Remaining(s.lines, n, width)
      && TextOf(s'.children) == TextOf(s.children) + Taken(s.lines, n, width)
    ensures Keeps(s', code)
  {
    var n, width := LinesBetween(s.at, p), ColumnsBetween(s.at, p);
    if n < |s.lines| {
      TakingKeeps(TextOf(s.children), s.lines, n, width);
      TakingKeepsText(s.lines, n, width);
    } else {
      TakingTooMuch(s.lines, n, width);
    }
  }

  lemma ReadKeeps(s: Reading, m: Mapping, code: string)
    requires Ahead(s, m) && Keeps(s, code) && s.at.line >= 1 && (s.last.None? ==> s.lines != [])
    ensures m.line <= |Lines(code)| ==> Read(s, m).Some?
    ensures Read(s, m).Some? ==> Keeps(Read(s, m).value, code)
  {
    ReadGrows(s, m);
    if Reads(s, m) {
      GrownKeeps(s, Read(s, m).value, MappingPosition(m), code);
    }
  }

  lemma NothingKept(code: string)
    ensures Keeps(Reading([], Lines(code), FIRST, None), code)
  {
    JoinLines(code);
    assert TextOf([]) == "";
  }

  lemma MappingKeeps(s: Reading, ms: seq<Mapping>, code: string)
    requires ms != [] && InOrder(ms) && Follows(s, ms[..|ms| - 1]) && Keeps(s, code)
    ensures var r := Read(s, ms[|ms| - 1]);
      && (ms[|ms| - 1].line <= |Lines(code)| ==> r.Some?)
      && (r.Some? ==> Follows(r.value, ms) && Keeps(r.value, code))
  {
    NextIsAhead(s, ms, |ms| - 1);
    ReadKeeps(s, ms[|ms| - 1], code);
    ReadGrows(s, ms[|ms| - 1]);
  }

  lemma {:induction false} AllReadKeeps(code: string, ms: seq<Mapping>)
    requires InOrder(ms)
    ensures (forall m <- ms :: m.line <= |Lines(code)|) ==> AllRead(code, ms).Some?
    ensures AllRead(code, ms).Some? ==> Follows(AllRead(code, ms).value, ms) && Keeps(AllRead(code, ms).value, code)
  {
    if ms == [] {
      NothingKept(code);
    } else {
      var front, m := ms[..|ms| - 1], ms[|ms| - 1];
      AllReadKeeps(code, front);
      assert forall x <- front :: x in ms;
      if AllRead(code, front).Some? {
        MappingKeeps(AllRead(code, front).value, ms, code);
      }
    }
  }

  lemma {:induction false} LinesIncrease(ms: seq<Mapping>, i: nat, j: nat)
    requires InOrder(ms) && i <= j < |ms|
    ensures ms[i].line <= ms[j].line
    decreases j
  {
    if i < j {
      LinesIncrease(ms, i, j - 1);
    }
  }

  lemma FinishedIs(s: Reading)
    ensures Code(ChunksOf(Finished(s))) == TextOf(s.children) + Join(s.lines)
    ensures Attribution(ChunksOf(Finished(s))) == OriginsOf(s.children) + Uniform(|Join(s.lines)|, OriginalOf(s.last))
  {
    var children := Added(s.children, Associated(s.last, Join(s.lines)));
    AddedGrows(s.children, s.last, Join(s.lines));
    RootChunksAre(children, 0);
    assert children[0..] == children;
  }

  /** The tree has exactly the text of the code if and only if all mappings are in lines of the code. */
  lemma TextIsKept(code: string, ms: seq<Mapping>)
    requires InOrder(ms)
    ensures AllRead(code, ms).Some? && Code(ChunksOf(Finished(AllRead(code, ms).value))) == code <==>
      forall m <- ms :: m.line <= |Lines(code)|
  {
    AllReadKeeps(code, ms);
    if AllRead(code, ms).Some? {
      var s := AllRead(code, ms).value;
      FinishedIs(s);
      if ms != [] && s.at.line <= |Lines(code)| {
        forall i | 0 <= i < |ms|
          ensures ms[i].line <= |Lines(code)|
        {
          LinesIncrease(ms, i, |ms| - 1);
        }
      }
    }
  }

  // ---------- each character keeps its original ----------

  /** A position of a character of the code, or the one behind it. */
  predicate InCode(code: string, m: Mapping) {
    1 <= m.line <= |Lines(code)| && 0 <= m.column <= |Lines(code)[m.line - 1]|
  }

  lemma {:induction false} InCodeIsPosition(code: string, line: nat, column: nat, p: Position) returns (k: nat)
    requires line < |Lines(code)| && column <= |Lines(code)[line]|
    ensures k <= |code|
    ensures After(code[..k], p) == Position(p.line + line, if line == 0 then p.column + column else column)
  {
    if line == 0 && column == 0 {
      k := 0;
    } else if code[0] == '\n' {
      k := InCodeIsPosition(code[1..], line - 1, column, Next(p, '\n'));
      k := k + 1;
      assert code[..k][1..] == code[1..][..k - 1];
    } else {
      k := InCodeIsPosition(code[1..], line, if line == 0 then column - 1 else column, Next(p, code[0]));
      k := k + 1;
      assert code[..k][1..] == code[1..][..k - 1];
    }
  }

  /** The first k characters have been read, each with its original. */
  predicate ReadUpTo(s: Reading, code: string, ms: seq<Mapping>, k: nat) {
    && k <= |code| && s.at == PositionOf(code, k) && s.lines == Lines(code[k..]) && Follows(s, ms)
    && TextOf(s.children) == code[..k]
    && forall j | 0 <= j < k ::
        var p := PositionOf(code, j);
        OriginsOf(s.children)[j] == LastOriginal(ms, p.line, p.column)
  }

  lemma BetweenMappings(s: Reading, code: string, ms: seq<Mapping>, k: nat, j: nat)
    requires ReadUpTo(s, code, ms, k) && k <= j < |code|
    ensures var p := PositionOf(code, j);
      LastOriginal(ms, p.line, p.column) == OriginalOf(s.last)
  {
    PositionsIncrease(code, k, j);
    LastMapping(ms, PositionOf(code, j));
  }

  lemma ReadOneMore(s: Reading, code: string, ms: seq<Mapping>, k: nat, m: Mapping, k': nat)
    requires ReadUpTo(s, code, ms, k) && Ahead(s, m) && k <= k' <= |code| && MappingPosition(m) == PositionOf(code, k')
    ensures Read(s, m).Some? && ReadUpTo(Read(s, m).value, code, ms + [m], k')
  {
    var rest, d := code[k..], k' - k;
    assert code[..k'] == code[..k] + rest[..d];
    assert rest[d..] == code[k'..];
    AfterConcat(code[..k], rest[..d], FIRST);
    TakingBetween(rest, d, s.at);
    ReadGrows(s, m);
    var s' := Read(s, m).value;
    forall j | 0 <= j < k'
      ensures var p := PositionOf(code, j);
        OriginsOf(s'.children)[j] == LastOriginal(ms + [m], p.line, p.column)
    {
      PositionsIncrease(code, j, k');
      LaterMapping(ms, m, PositionOf(code, j));
      if j >= k {
        BetweenMappings(s, code, ms, k, j);
      }
    }
  }

  lemma NextReadUpTo(s: Reading, code: string, ms: seq<Mapping>, k: nat, m: Mapping) returns (k': nat)
    requires ReadUpTo(s, code, ms, k) && Ahead(s, m) && InCode(code, m)
    ensures Read(s, m).Some? && ReadUpTo(Read(s, m).value, code, ms + [m], k')
  {
    k' := InCodeIsPosition(code, m.line - 1, m.column, FIRST);
    assert PositionOf(code, k') == MappingPosition(m);
    if k' < k {
      PositionsIncrease(code, k', k);
    }
    ReadOneMore(s, code, ms, k, m, k');
  }

  lemma NothingRead(code: string)
    ensures ReadUpTo(Reading([], Lines(code), FIRST, None), code, [], 0)
  {
    assert code[0..] == code && TextOf([]) == "" && OriginsOf([]) == [];
  }

  lemma AllReadNext(code: string, ms: seq<Mapping>, n: nat, s: Reading)
    requires n < |ms| && AllRead(code, ms[..n]) == Some(s)
    ensures AllRead(code, ms[..n + 1]) == Read(s, ms[n])
  {
    assert ms[..n + 1][..n] == ms[..n];
  }

  /** The first n mappings have been read, and the first k characters with them. */
  ghost predicate PrefixRead(s: Reading, code: string, ms: seq<Mapping>, n: nat, k: nat) {
    n <= |ms| && AllRead(code, ms[..n]) == Some(s) && ReadUpTo(s, code, ms[..n], k)
  }

  lemma PrefixReadNext(s: Reading, code: string, ms: seq<Mapping>, n: nat, k: nat) returns (s': Reading, k': nat)
    requires InOrder(ms) && n < |ms| && InCode(code, ms[n]) && PrefixRead(s, code, ms, n, k)
    ensures PrefixRead(s', code, ms, n + 1, k')
  {
    NextIsAhead(s, ms, n);
    k' := NextReadUpTo(s, code, ms[..n], k, ms[n]);
    assert ms[..n] + [ms[n]] == ms[..n + 1];
    AllReadNext(code, ms, n, s);
    s' := Read(s, ms[n]).value;
  }

  lemma {:induction false} AllReadUpTo(code: string, ms: seq<Mapping>, n: nat) returns (s: Reading, k: nat)
    requires InOrder(ms) && n <= |ms| && forall i | 0 <= i < |ms| :: InCode(code, ms[i])
    ensures PrefixRead(s, code, ms, n, k)
  {
    if n == 0 {
      s, k := Reading([], Lines(code), FIRST, None), 0;
      assert ms[..0] == [];
      NothingRead(code);
    } else {
      s, k := AllReadUpTo(code, ms, n - 1);
      s, k := PrefixReadNext(s, code, ms, n - 1, k);
    }
  }

  lemma FinishedAttributes(s: Reading, code: string, ms: seq<Mapping>, k: nat)
    requires ReadUpTo(s, code, ms, k)
    ensures Code(ChunksOf(Finished(s))) == code && Attributes(ms, code, Attribution(ChunksOf(Finished(s))))
  {
    var chunks := ChunksOf(Finished(s));
    var attribution := Attribution(chunks);
    var early := OriginsOf(s.children);
    assert Code(chunks) == code && |early| == k && attribution == early + Uniform(|code| - k, OriginalOf(s.last)) by {
      FinishedIs(s);
      JoinLines(code[k..]);
      assert code[..k] + code[k..] == code;
    }
    forall j | 0 <= j < |code|
      ensures var p := PositionOf(code, j);
        LastOriginal(ms, p.line, p.column) == attribution[j]
    {
      if j >= k {
        BetweenMappings(s, code, ms, k, j);
      }
    }
  }

  /**
   For mappings at positions of the code, every character of the tree comes from where the map says.  Module
   SourceNodeOrigins says when that is so for all mappings.
   */
  lemma OriginsInCode(code: string, ms: seq<Mapping>)
    requires InOrder(ms) && forall i | 0 <= i < |ms| :: InCode(code, ms[i])
    ensures AllRead(code, ms).Some?
    ensures var chunks := ChunksOf(Finished(AllRead(code, ms).value));
      Code(chunks) == code && Attributes(ms, code, Attribution(chunks))
  {
    var s, k := AllReadUpTo(code, ms, |ms|);
    assert ms[..|ms|] == ms;
    FinishedAttributes(s, code, ms, k);
  }
}

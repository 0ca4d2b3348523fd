/**
 Trees of code snippets with their origins, and the map that printing them makes:
 defaults/JSXTransformer.js:11302-11310, 11478-11494 and 11587-11650.
 */
module SourceNodes {
  import opened ArraySets
  import opened GeneratedPositions
  import opened Mappings
  import opened MappingText
  import opened Options
  import opened SourceMapConsumers
  import opened SourceMapGenerators

  datatype SourceNode = SourceNode(line: Option<int>, column: Option<int>, source: Option<string>, name: Option<string>,
                                   children: seq<Child>)

  datatype Child = Snippet(text: string) | Nested(node: SourceNode)

  /** A snippet with what `walk` reports of the node it belongs to. */
  datatype Chunk = Chunk(text: string, origin: Origin)

  datatype Origin = Origin(source: Option<string>, line: Option<int>, column: Option<int>, name: Option<string>) {
    /** Where the code comes from, if source, line and column are all known. */
    function Original(): Option<Original> {
      if source.Some? && line.Some? && column.Some?
      then Some(Mappings.Original.Original(source.value, line.value, column.value, name)) else None
    }

    predicate Valid() {
      Original().Some? ==> source.value != "" && line.value > 0 && column.value >= 0
    }
  }

  function OriginOf(node: SourceNode): Origin {
    Origin(node.source, node.line, node.column, node.name)
  }

  /** The snippets that `walk` reports for the i-th child: those that are not empty. */
  function ChildChunks(node: SourceNode, i: nat): seq<Chunk>
    requires i < |node.children|
    decreases node, 0
  {
    match node.children[i]
    case Nested(child) => ChunksFrom(child, 0)
    case Snippet(text) => if text != "" then [Chunk(text, OriginOf(node))] else []
  }

  /** The snippets that `walk` reports, from the i-th child on, from left to right. */
  function ChunksFrom(node: SourceNode, i: nat): seq<Chunk>
    requires i <= |node.children|
    decreases node, 1, |node.children| - i
  {
    if i == |node.children| then [] else ChildChunks(node, i) + ChunksFrom(node, i + 1)
  }

  function ChunksOf(node: SourceNode): seq<Chunk> {
    ChunksFrom(node, 0)
  }

  lemma {:induction false} ChunksAreNotEmpty(node: SourceNode, i: nat)
    requires i <= |node.children|
    ensures forall c <- ChunksFrom(node, i) :: c.text != ""
    decreases node, |node.children| - i
  {
    if i < |node.children| {
      ChunksAreNotEmpty(node, i + 1);
      if node.children[i].Nested? {
        ChunksAreNotEmpty(node.children[i].node, 0);
      }
    }
  }

  // ---------- what printing should give ----------

  function Code(chunks: seq<Chunk>): string {
    if chunks == [] then "" else Code(chunks[..|chunks| - 1]) + chunks[|chunks| - 1].text
  }

  /** For each character of the code, where its chunk comes from. */
  function Attribution(chunks: seq<Chunk>): (r: seq<Option<Original>>)
    ensures |r| == |Code(chunks)|
  {
    if chunks == [] then []
    else
      var last := chunks[|chunks| - 1];
      Attribution(chunks[..|chunks| - 1]) + seq(|last.text|, _ => last.origin.Original())
  }

  /** The same original for n characters. */
  function Uniform(n: nat, o: Option<Original>): (r: seq<Option<Original>>)
    ensures |r| == n && forall i | 0 <= i < n :: r[i] == o
  {
    seq(n, _ => o)
  }

  lemma LastChunk(chunks: seq<Chunk>, c: Chunk)
    ensures Code(chunks + [c]) == Code(chunks) + c.text
    ensures Attribution(chunks + [c]) == Attribution(chunks) + Uniform(|c.text|, c.origin.Original())
  {
    assert (chunks + [c])[..|chunks|] == chunks;
  }

  lemma Joined<T>(a: seq<T>, b: seq<T>, c: seq<T>)
    ensures a + (b + c) == a + b + c
  {
  }

  lemma {:induction false} CodeConcat(a: seq<Chunk>, b: seq<Chunk>)
    ensures Code(a + b) == Code(a) + Code(b) && Attribution(a + b) == Attribution(a) + Attribution(b)
    decreases |b|
  {
    if b == [] {
      assert a + b == a;
    } else {
      var front, last := b[..|b| - 1], b[|b| - 1];
      var all := a + front;
      CodeConcat(a, front);
      assert front + [last] == b;
      Joined(a, front, [last]);
      LastChunk(all, last);
      LastChunk(front, last);
      Joined(Code(a), Code(front), last.text);
      Joined(Attribution(a), Attribution(front), Uniform(|last.text|, last.origin.Original()));
    }
  }

  // ---------- what the tree prints, law by law ----------

  /** A node without children prints nothing. */
  lemma NoChildren(node: SourceNode)
    requires node.children == []
    ensures Code(ChunksOf(node)) == "" && Attribution(ChunksOf(node)) == []
  {
  }

  lemma OnlyChild(node: SourceNode)
    requires |node.children| == 1
    ensures ChunksOf(node) == ChildChunks(node, 0)
  {
    assert ChunksFrom(node, 1) == [];
    assert ChildChunks(node, 0) + [] == ChildChunks(node, 0);
  }

  /** A snippet prints itself, and comes from where its node says. */
  lemma SnippetAlone(node: SourceNode, text: string)
    requires node.children == [Snippet(text)]
    ensures Code(ChunksOf(node)) == text
    ensures |Attribution(ChunksOf(node))| == |text|
    ensures forall k | 0 <= k < |text| ::
      Attribution(ChunksOf(node))[k] ==
      if node.source.Some? && node.line.Some? && node.column.Some?
      then Some(Original(node.source.value, node.line.value, node.column.value, node.name)) else None
  {
    OnlyChild(node);
    if text != "" {
      LastChunk([], Chunk(text, OriginOf(node)));
      assert [] + [Chunk(text, OriginOf(node))] == [Chunk(text, OriginOf(node))] && "" + text == text;
    }
  }

  /** A nested node prints what it prints by itself, whatever node it is nested in. */
  lemma NodeAlone(node: SourceNode, child: SourceNode)
    requires node.children == [Nested(child)]
    ensures Code(ChunksOf(node)) == Code(ChunksOf(child))
    ensures Attribution(ChunksOf(node)) == Attribution(ChunksOf(child))
  {
    OnlyChild(node);
  }

  lemma {:induction false} ChunksFromFront(node: SourceNode, a: seq<Child>, b: seq<Child>, i: nat)
    requires node.children == a + b && i <= |a|
    ensures ChunksFrom(node, i) == ChunksFrom(node.(children := a), i) + ChunksFrom(node, |a|)
    decreases |a| - i
  {
    if i < |a| {
      ChunksFromFront(node, a, b, i + 1);
      assert ChildChunks(node, i) == ChildChunks(node.(children := a), i);
      Joined(ChildChunks(node, i), ChunksFrom(node.(children := a), i + 1), ChunksFrom(node, |a|));
    }
  }

  lemma {:induction false} ChunksFromBack(node: SourceNode, a: seq<Child>, b: seq<Child>, i: nat)
    requires node.children == a + b && i <= |b|
    ensures ChunksFrom(node, |a| + i) == ChunksFrom(node.(children := b), i)
    decreases |b| - i
  {
    if i < |b| {
      ChunksFromBack(node, a, b, i + 1);
      assert ChildChunks(node, |a| + i) == ChildChunks(node.(children := b), i);
    }
  }

  /** Children print one after the other: a node prints what its front children print and then what the others do. */
  lemma ChildrenInTurn(node: SourceNode, a: seq<Child>, b: seq<Child>)
    requires node.children == a + b
    ensures var front, back := ChunksOf(node.(children := a)), ChunksOf(node.(children := b));
      && Code(ChunksOf(node)) == Code(front) + Code(back)
      && Attribution(ChunksOf(node)) == Attribution(front) + Attribution(back)
  {
    ChunksFromFront(node, a, b, 0);
    ChunksFromBack(node, a, b, 0);
    CodeConcat(ChunksOf(node.(children := a)), ChunksOf(node.(children := b)));
  }

  // ---------- printing ----------

  /** The state of printing. */
  datatype Printing = Printing(code: string, at: Position, mappings: seq<Mapping>,
                               sources: seq<string>, names: seq<string>, active: bool, last: Origin)

  const BLANK := Printing("", FIRST, [], [], [], false, Origin(None, None, None, None))

  function WithMapping(s: Printing, m: Mapping): Printing {
    s.(mappings := s.mappings + [m], sources := WithSource(s.sources, m), names := WithName(s.names, m))
  }

  /** The mapping that has to be added before the chunk is printed, if any. */
  function NeededMapping(s: Printing, origin: Origin): Option<Mapping> {
    if origin.Original().Some? then
      if s.last != origin then Some(Mapping(s.at.line, s.at.column, origin.Original())) else None
    else if s.active then Some(Mapping(s.at.line, s.at.column, None))
    else None
  }

  /** Prints one chunk, or nothing where the code throws. */
  function Printed(s: Printing, chunk: Chunk): Option<Printing> {
    var m := NeededMapping(s, chunk.origin);
    if m.Some? && !m.value.Valid() then None
    else
      var s' := if m.Some? then WithMapping(s, m.value) else s;
      var mapped := chunk.origin.Original().Some?;
      Some(s'.(code := s.code + chunk.text, at := After(chunk.text, s.at), active := mapped,
        last := if mapped then chunk.origin else if s.active then s.last.(source := None) else s.last))
  }

  function AllPrinted(chunks: seq<Chunk>): Option<Printing> {
    if chunks == [] then Some(BLANK)
    else
      match AllPrinted(chunks[..|chunks| - 1])
      case Some(s) => Printed(s, chunks[|chunks| - 1])
      case None => None
  }

  // ---------- what printing keeps ----------

  /** What the mappings say about the code to come. */
  function Current(ms: seq<Mapping>): Option<Original> {
    if ms == [] then None else ms[|ms| - 1].original
  }

  function MappingPosition(m: Mapping): Position {
    Position(m.line, m.column)
  }

  /** The mappings are those of code before the position, in order. */
  predicate Placed(ms: seq<Mapping>, at: Position) {
    StrictlySorted(ms) && forall i | 0 <= i < |ms| :: Before(MappingPosition(ms[i]), at)
  }

  /** The state after some chunks. */
  predicate Consistent(s: Printing) {
    && s.at == After(s.code, FIRST) && s.last.Valid()
    && Placed(s.mappings, s.at)
    && Current(s.mappings) == (if s.active then s.last.Original() else None)
    && (s.active <==> s.last.Original().Some?)
    && (s.active <==> s.last.source.Some?)
  }

  /** Each character of the code is found where its chunk comes from. */
  predicate Attributes(ms: seq<Mapping>, code: string, attribution: seq<Option<Original>>) {
    |attribution| == |code| &&
    forall k | 0 <= k < |code| ::
      var p := PositionOf(code, k);
      LastOriginal(ms, p.line, p.column) == attribution[k]
  }

  /** A mapping behind a position does not matter to it. */
  lemma LaterMapping(ms: seq<Mapping>, m: Mapping, p: Position)
    requires Before(p, MappingPosition(m))
    ensures LastOriginal(ms + [m], p.line, p.column) == LastOriginal(ms, p.line, p.column)
  {
    assert (ms + [m])[..|ms|] == ms;
  }

  /** The last mapping holds from its position on. */
  lemma LastMapping(ms: seq<Mapping>, p: Position)
    requires ms != [] ==> !Before(p, MappingPosition(ms[|ms| - 1]))
    ensures LastOriginal(ms, p.line, p.column) == Current(ms)
  {
  }

  lemma MappingPlaced(ms: seq<Mapping>, at: Position, original: Option<Original>)
    requires Placed(ms, at)
    ensures StrictlySorted(ms + [Mapping(at.line, at.column, original)])
  {
  }

  lemma PlacedBefore(ms: seq<Mapping>, at: Position, m: Mapping, p: Position)
    requires Placed(ms, at) && MappingPosition(m) == at && Before(at, p)
    ensures Placed(ms + [m], p) && Placed(ms, p)
  {
    MappingPlaced(ms, at, m.original);
    assert ms + [m] == ms + [Mapping(at.line, at.column, m.original)];
  }

  lemma PrintedConsistent(s: Printing, chunk: Chunk)
    requires Consistent(s) && chunk.text != ""
    ensures Printed(s, chunk).Some? <==> chunk.origin.Valid()
    ensures Printed(s, chunk).Some? ==>
      Consistent(Printed(s, chunk).value) && Current(Printed(s, chunk).value.mappings) == chunk.origin.Original()
  {
    AfterConcat(s.code, chunk.text, FIRST);
    PlacedBefore(s.mappings, s.at, Mapping(s.at.line, s.at.column, chunk.origin.Original()), After(chunk.text, s.at));
  }

  lemma PrintedAttributes(s: Printing, chunk: Chunk, attribution: seq<Option<Original>>)
    requires Consistent(s) && chunk.text != "" && Printed(s, chunk).Some?
    requires Attributes(s.mappings, s.code, attribution)
    ensures var s' := Printed(s, chunk).value;
      Attributes(s'.mappings, s'.code, attribution + seq(|chunk.text|, _ => chunk.origin.Original()))
  {
    PrintedConsistent(s, chunk);
    var s' := Printed(s, chunk).value;
    var m := NeededMapping(s, chunk.origin);
    assert s.code[..|s.code|] == s.code;
    assert PositionOf(s.code, |s.code|) == s.at;
    PositionStays(s.code, chunk.text, |s.code|);
    forall k | 0 <= k < |s'.code|
      ensures var p := PositionOf(s'.code, k);
        LastOriginal(s'.mappings, p.line, p.column) == if k < |s.code| then attribution[k] else chunk.origin.Original()
    {
      var p := PositionOf(s'.code, k);
      if k < |s.code| {
        PositionStays(s.code, chunk.text, k);
        PositionsIncrease(s.code, k, |s.code|);
        if m.Some? {
          LaterMapping(s.mappings, m.value, p);
        }
      } else {
        PositionsIncrease(s'.code, |s.code|, k);
        LastMapping(s'.mappings, p);
      }
    }
  }

  /** Printing succeeds exactly if the snippets' origins are valid, and then the map is right at every character. */
  lemma {:induction false} AllPrintedAttributes(chunks: seq<Chunk>)
    requires forall c <- chunks :: c.text != ""
    ensures AllPrinted(chunks).Some? <==> forall c <- chunks :: c.origin.Valid()
    ensures AllPrinted(chunks).Some? ==>
      var s := AllPrinted(chunks).value;
      s.code == Code(chunks) && Consistent(s) && Attributes(s.mappings, s.code, Attribution(chunks))
  {
    if chunks != [] {
      var front, last := chunks[..|chunks| - 1], chunks[|chunks| - 1];
      assert chunks == front + [last];
      AllPrintedAttributes(front);
      if AllPrinted(front).Some? {
        PrintedConsistent(AllPrinted(front).value, last);
        if last.origin.Valid() {
          PrintedAttributes(AllPrinted(front).value, last, Attribution(front));
        }
      }
    }
  }

  // ---------- the printer ----------

  lemma {:induction false} FailureStays(done: seq<Chunk>, more: seq<Chunk>)
    requires AllPrinted(done).None?
    ensures AllPrinted(done + more).None?
    decreases |more|
  {
    if more == [] {
      assert done + more == done;
    } else {
      FailureStays(done, more[..|more| - 1]);
      assert (done + more)[..|done + more| - 1] == done + more[..|more| - 1];
    }
  }

  lemma OneMore(done: seq<Chunk>, chunk: Chunk)
    ensures AllPrinted(done + [chunk]) ==
      if AllPrinted(done).Some? then Printed(AllPrinted(done).value, chunk) else None
  {
    assert (done + [chunk])[..|done|] == done;
  }

  /** The state of `toStringWithSourceMap`. */
  class Printer {
    var code: string
    var at: Position
    const generator: SourceMapGenerator
    var active: bool
    var last: Origin
    ghost var done: seq<Chunk>

    ghost function Now(): Printing
      reads this, generator, generator.sources, generator.names
    {
      Printing(code, at, generator.mappings, generator.sources.list, generator.names.list, active, last)
    }

    ghost predicate Valid()
      reads this, generator, generator.sources, generator.names
    {
      generator.Valid() && AllPrinted(done) == Some(Now())
    }

    constructor ()
      ensures Valid() && done == []
      ensures fresh(generator) && fresh(generator.sources) && fresh(generator.names)
    {
      code, at, active, last := "", FIRST, false, Origin(None, None, None, None);
      generator := new SourceMapGenerator();
      done := [];
    }

    method AddNeededMapping(origin: Origin) returns (ok: bool)
      requires generator.Valid()
      modifies generator, generator.sources, generator.names
      ensures var m := NeededMapping(old(Now()), origin);
        && ok == (m.Some? ==> m.value.Valid())
        && (ok ==> generator.Valid())
        && (ok && m.None? ==> unchanged(generator) && unchanged(generator.sources) && unchanged(generator.names))
        && (ok && m.Some? ==>
          && generator.mappings == old(generator.mappings) + [m.value]
          && generator.sources.list == WithSource(old(generator.sources.list), m.value)
          && generator.names.list == WithName(old(generator.names.list), m.value))
    {
      ok := true;
      if origin.source.Some? && origin.line.Some? && origin.column.Some? {
        if last != origin {
          ok := generator.AddMapping(at, Some(Position(origin.line.value, origin.column.value)),
                                      origin.source, origin.name);
        }
      } else if active {
        ok := generator.AddMapping(at, None, None, None);
      }
    }

    method Append(chunk: Chunk) returns (ok: bool)
      requires generator.Valid()
      modifies `code, `at, `active, `last, generator, generator.sources, generator.names
      ensures ok == Printed(old(Now()), chunk).Some?
      ensures ok ==> generator.Valid() && Now() == Printed(old(Now()), chunk).value
    {
      code := code + chunk.text;
      ok := AddNeededMapping(chunk.origin);
      if !ok {
        return;
      }
      if chunk.origin.Original().Some? {
        last, active := chunk.origin, true;
      } else if active {
        last, active := last.(source := None), false;
      }
      at := AdvancedBy(at, chunk.text);
    }

    /** Prints one snippet. */
    method Print(chunk: Chunk) returns (ok: bool)
      requires Valid()
      modifies this, generator, generator.sources, generator.names
      ensures ok == AllPrinted(old(done) + [chunk]).Some?
      ensures ok ==> Valid() && done == old(done) + [chunk]
    {
      ghost var more := done + [chunk];
      ghost var printed := AllPrinted(more);
      assert printed == Printed(Now(), chunk) by {
        OneMore(done, chunk);
      }
      ok := Append(chunk);
      if ok {
        done := more;
      }
    }

    /** Prints the snippets of one child. */
    method PrintChild(node: SourceNode, i: nat) returns (ok: bool)
      requires Valid() && i < |node.children|
      modifies this, generator, generator.sources, generator.names
      ensures ok == AllPrinted(old(done) + ChildChunks(node, i)).Some?
      ensures ok ==> Valid() && done == old(done) + ChildChunks(node, i)
      decreases node, 0
    {
      match node.children[i]
      case Nested(child) =>
        ok := Walk(child);
      case Snippet(text) =>
        if text != "" {
          ok := Print(Chunk(text, OriginOf(node)));
        } else {
          assert done + [] == done;
          ok := true;
        }
    }

    /** Prints the snippets of a tree. */
    method Walk(node: SourceNode) returns (ok: bool)
      requires Valid()
      modifies this, generator, generator.sources, generator.names
      ensures ok == AllPrinted(old(done) + ChunksOf(node)).Some?
      ensures ok ==> Valid() && done == old(done) + ChunksOf(node)
      decreases node, 1
    {
      ok := true;
      for i := 0 to |node.children|
        invariant Valid() && done + ChunksFrom(node, i) == old(done) + ChunksOf(node) && ok
      {
        ghost var before := done;
        ghost var now := before + ChildChunks(node, i);
        assert before + ChunksFrom(node, i) == now + ChunksFrom(node, i + 1);
        ok := PrintChild(node, i);
        if !ok {
          FailureStays(now, ChunksFrom(node, i + 1));
          return;
        }
      }
      assert done + [] == done;
    }
  }

  /** Counts the lines and columns of a text. */
  method AdvancedBy(p: Position, text: string) returns (q: Position)
    ensures q == After(text, p)
  {
    q := p;
    for i := 0 to |text|
      invariant After(text[i..], q) == After(text, p)
    {
      assert text[i..][1..] == text[i + 1..];
      if text[i] == '\n' {
        q := Position(q.line + 1, 0);
      } else {
        q := q.(column := q.column + 1);
      }
    }
  }

  /** The mappings with their sources and names. */
  datatype SourceMap = SourceMap(mappings: seq<Mapping>, sources: seq<string>, names: seq<string>)

  function MapOf(s: Printing): SourceMap {
    SourceMap(s.mappings, s.sources, s.names)
  }

  function MapIn(generator: SourceMapGenerator): SourceMap
    reads generator, generator.sources, generator.names
  {
    SourceMap(generator.mappings, generator.sources.list, generator.names.list)
  }

  /**
   Prints a tree.  This fails, as the code throws, exactly if the origin of some snippet is not valid; otherwise
   the mappings made lead from every character of the code to where its snippet comes from.
   */
  method ToStringWithSourceMap(node: SourceNode) returns (ok: bool, code: string, generator: SourceMapGenerator)
    ensures ok == forall c <- ChunksOf(node) :: c.origin.Valid()
    ensures ok ==>
      && generator.Valid() && fresh(generator) && StrictlySorted(generator.mappings)
      && AllPrinted(ChunksOf(node)).Some? && MapIn(generator) == MapOf(AllPrinted(ChunksOf(node)).value)
      && code == Code(ChunksOf(node))
      && Attributes(generator.mappings, code, Attribution(ChunksOf(node)))
  {
    var printer := new Printer();
    ok := printer.Walk(node);
    code, generator := printer.code, printer.generator;
    ChunksAreNotEmpty(node, 0);
    AllPrintedAttributes(ChunksOf(node));
    assert [] + ChunksOf(node) == ChunksOf(node);
  }

  // ---------- through the serialised map ----------

  lemma {:induction false} AllPrintedListed(chunks: seq<Chunk>)
    requires AllPrinted(chunks).Some?
    ensures var s := AllPrinted(chunks).value;
      AllListed(s.mappings, s.sources, s.names) && NoDuplicates(s.sources) && NoDuplicates(s.names)
  {
    if chunks != [] {
      var front, last := chunks[..|chunks| - 1], chunks[|chunks| - 1];
      AllPrintedListed(front);
      var s := AllPrinted(front).value;
      var m := NeededMapping(s, last.origin);
      if m.Some? {
        AddedOnce(s.sources, m.value.Source());
        AddedOnce(s.names, m.value.Name());
        var s' := WithMapping(s, m.value);
        AllListedGrows(s.mappings, s.sources, s.names, s'.sources, s'.names, m.value);
      }
    }
  }

  lemma LastIsSame(ms: seq<Mapping>, sorted: seq<Mapping>, i: nat, j: nat)
    requires |ms| == |sorted| > 0 && StrictlySorted(ms) && Sorted(sorted)
    requires i < |ms| && ms[i] == sorted[|ms| - 1] && j < |ms| && sorted[j] == ms[|ms| - 1]
    ensures sorted[|ms| - 1] == ms[|ms| - 1]
  {
    CompareAntisymmetric(ms[i], sorted[j]);
  }

  lemma FrontSorted(ms: seq<Mapping>, n: nat)
    requires n <= |ms|
    ensures Sorted(ms) ==> Sorted(ms[..n])
    ensures StrictlySorted(ms) ==> StrictlySorted(ms[..n])
  {
  }

  lemma LastsAreSame(ms: seq<Mapping>, sorted: seq<Mapping>)
    requires ms != [] && StrictlySorted(ms) && Sorted(sorted) && multiset(sorted) == multiset(ms)
    ensures |sorted| == |ms| && sorted[|ms| - 1] == ms[|ms| - 1]
  {
    assert |multiset(ms)| == |ms| && |multiset(sorted)| == |sorted|;
    var n := |ms| - 1;
    assert ms[n] in multiset(sorted) && sorted[n] in multiset(ms);
    var i :| 0 <= i < |ms| && ms[i] == sorted[n];
    var j :| 0 <= j < |ms| && sorted[j] == ms[n];
    LastIsSame(ms, sorted, i, j);
  }

  lemma SameFrontAndLast(a: seq<Mapping>, b: seq<Mapping>, n: nat)
    requires |a| == |b| == n + 1 && a[..n] == b[..n] && a[n] == b[n]
    ensures a == b
  {
    assert a == a[..n] + [a[n]] && b == b[..n] + [b[n]];
  }

  lemma SameSize(a: seq<Mapping>, b: seq<Mapping>)
    requires multiset(a) == multiset(b)
    ensures |a| == |b|
  {
    assert |multiset(a)| == |a| && |multiset(b)| == |b|;
  }

  /** Mappings at different positions can be sorted in one way only. */
  lemma {:induction false} SortIsUnique(ms: seq<Mapping>, sorted: seq<Mapping>)
    requires StrictlySorted(ms) && Sorted(sorted) && multiset(sorted) == multiset(ms)
    ensures sorted == ms
    decreases |ms|
  {
    SameSize(ms, sorted);
    if ms != [] {
      var n := |ms| - 1;
      LastsAreSame(ms, sorted);
      FrontsAreSame(ms, sorted, n);
      FrontSorted(ms, n);
      FrontSorted(sorted, n);
      SortIsUnique(ms[..n], sorted[..n]);
      SameFrontAndLast(ms, sorted, n);
    }
  }

  lemma FrontsAreSame(a: seq<Mapping>, b: seq<Mapping>, n: nat)
    requires |a| == |b| == n + 1 && multiset(a) == multiset(b) && a[n] == b[n]
    ensures multiset(a[..n]) == multiset(b[..n])
  {
    assert a == a[..n] + [a[n]] && b == b[..n] + [b[n]];
    assert multiset(a[..n]) == multiset(a) - multiset{a[n]};
    assert multiset(b[..n]) == multiset(b) - multiset{b[n]};
  }

  /** An original as a serialised map can express it. */
  function CanonicalOriginal(o: Option<Original>): Option<Original> {
    Mapping(0, 0, o).Canonical().original
  }

  lemma {:induction false} LastOriginalCanonical(ms: seq<Mapping>, parsed: seq<Mapping>, p: Position)
    requires |parsed| == |ms| && forall i | 0 <= i < |ms| :: parsed[i] == ms[i].Canonical()
    ensures LastOriginal(parsed, p.line, p.column) == CanonicalOriginal(LastOriginal(ms, p.line, p.column))
  {
    if ms != [] {
      LastOriginalCanonical(ms[..|ms| - 1], parsed[..|ms| - 1], p);
    }
  }

  /** Each character of the code is found where its chunk comes from. */
  predicate AnswersRight(ms: seq<Mapping>, code: string, attribution: seq<Option<Original>>) {
    |attribution| == |code| &&
    forall k | 0 <= k < |code| ::
      var p := PositionOf(code, k);
      Lookup(ms, p.line, p.column) == CanonicalOriginal(attribution[k])
  }

  lemma AttributesAnswer(ms: seq<Mapping>, parsed: seq<Mapping>, code: string, attribution: seq<Option<Original>>)
    requires Attributes(ms, code, attribution) && StrictlySorted(parsed)
    requires |parsed| == |ms| && forall i | 0 <= i < |ms| :: parsed[i] == ms[i].Canonical()
    ensures AnswersRight(parsed, code, attribution)
  {
    forall k | 0 <= k < |code|
      ensures var p := PositionOf(code, k);
        Lookup(parsed, p.line, p.column) == CanonicalOriginal(attribution[k])
    {
      var p := PositionOf(code, k);
      LookupFindsRegion(parsed, p.line, p.column);
      LastOriginalCanonical(ms, parsed, p);
    }
  }

  /**
   From a tree to the answers of a consumer: printing, sorting, serialising, parsing and searching lead from
   every character of the code to where its snippet comes from, if the differences written fit.
   */
  lemma EveryCharacterIsFound(node: SourceNode, s: Printing, sorted: seq<Mapping>)
    requires AllPrinted(ChunksOf(node)) == Some(s)
    requires Sorted(sorted) && multiset(sorted) == multiset(s.mappings)
    ensures AllListed(sorted, s.sources, s.names)
    ensures AllFit(sorted, 0, START, s.sources, s.names) ==>
      var parsed := ParsedFrom(Text(sorted, s.sources, s.names), START, s.sources, s.names);
      parsed.Parsed? && AnswersRight(parsed.mappings, Code(ChunksOf(node)), Attribution(ChunksOf(node)))
  {
    var chunks := ChunksOf(node);
    ChunksAreNotEmpty(node, 0);
    AllPrintedAttributes(chunks);
    AllPrintedListed(chunks);
    SortIsUnique(s.mappings, sorted);
    if AllFit(sorted, 0, START, s.sources, s.names) {
      SerialisedMapIsFound(sorted, s.sources, s.names);
      var parsed := ParsedFrom(Text(sorted, s.sources, s.names), START, s.sources, s.names);
      AttributesAnswer(sorted, parsed.mappings, s.code, Attribution(chunks));
    }
  }

  /** Do all differences between the mappings printed of a tree fit? */
  ghost predicate DifferencesFit(node: SourceNode) {
    var printed := AllPrinted(ChunksOf(node));
    printed.Some? &&
    var s := printed.value;
    AllListed(s.mappings, s.sources, s.names) && Resumes(s.mappings, 0, START) &&
    AllFit(s.mappings, 0, START, s.sources, s.names)
  }

  lemma AnswerIsRight(node: SourceNode, k: nat)
    requires DifferencesFit(node) && k < |Code(ChunksOf(node))|
    ensures var s, p := AllPrinted(ChunksOf(node)).value, PositionOf(Code(ChunksOf(node)), k);
      var parsed := ParsedFrom(Text(s.mappings, s.sources, s.names), START, s.sources, s.names);
      && parsed.Parsed? && p.line > 0 && p.column >= 0
      && Lookup(parsed.mappings, p.line, p.column) == CanonicalOriginal(Attribution(ChunksOf(node))[k])
  {
    var s := AllPrinted(ChunksOf(node)).value;
    ChunksAreNotEmpty(node, 0);
    AllPrintedAttributes(ChunksOf(node));
    StrictIsSorted(s.mappings);
    EveryCharacterIsFound(node, s, s.mappings);
  }

  lemma StrictIsSorted(ms: seq<Mapping>)
    requires StrictlySorted(ms)
    ensures Sorted(ms)
  {
  }

  /**
   Prints a tree, serialises its map with the array sort of the engine, makes a consumer of the text, and asks it
   for the original of the k-th character: the answer is where the snippet of that character comes from.
   */
  method PrintAndLookUp(node: SourceNode, sort: seq<Mapping> -> seq<Mapping>, k: nat)
    returns (ok: bool, code: string, answer: Answer)
    requires k < |Code(ChunksOf(node))|
    requires forall ms :: Sorted(sort(ms)) && multiset(sort(ms)) == multiset(ms)
    ensures ok == forall c <- ChunksOf(node) :: c.origin.Valid()
    ensures ok ==> code == Code(ChunksOf(node))
    ensures ok && DifferencesFit(node) ==> answer == Found(CanonicalOriginal(Attribution(ChunksOf(node))[k]))
  {
    var generator;
    ok, code, generator := ToStringWithSourceMap(node);
    if !ok {
      return false, code, Found(None);
    }
    SortIsUnique(generator.mappings, sort(generator.mappings));
    var text := generator.SerializeMappings(sort(generator.mappings));
    var consumer := new SourceMapConsumer(generator.sources.list, generator.names.list, text);
    var p := PositionOf(code, k);
    answer := consumer.OriginalPositionFor(p.line, p.column);
    if DifferencesFit(node) {
      AnswerIsRight(node, k);
    }
  }
}

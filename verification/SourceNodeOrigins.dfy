/**
 Where the characters of a tree built from code and its map come from: exactly when the tree agrees with the map.
 `substr` cuts a line at its end at the latest (defaults/JSXTransformer.js:11349-11388), so a mapping with a column
 behind the end of its line begins at the line break.
 */
module SourceNodeOrigins {
  import opened CodeLines
  import opened GeneratedPositions
  import opened Mappings
  import opened Options
  import opened SourceMapConsumers
  import opened SourceNodeReader
  import opened SourceNodes

  predicate InLines(all: seq<string>, ms: seq<Mapping>) {
    forall i | 0 <= i < |ms| :: 1 <= ms[i].line <= |all|
  }

  /** A position in a line of the code, or behind the end of one. */
  predicate LineExists(all: seq<string>, p: Position) {
    1 <= p.line <= |all| && p.column >= 0
  }

  /** The position, or the end of its line if that is not so far. */
  function ClampedPosition(all: seq<string>, p: Position): (q: Position)
    requires LineExists(all, p)
    ensures LineExists(all, q)
  {
    var length := |all[p.line - 1]|;
    if p.column <= length then p else p.(column := length)
  }

  function Clamped(all: seq<string>, m: Mapping): Mapping
    requires LineExists(all, MappingPosition(m))
  {
    m.(column := ClampedPosition(all, MappingPosition(m)).column)
  }

  function AllClamped(all: seq<string>, ms: seq<Mapping>): (cs: seq<Mapping>)
    requires InOrder(ms) && InLines(all, ms)
    ensures |cs| == |ms|
  {
    seq(|ms|, i requires 0 <= i < |ms| => Clamped(all, ms[i]))
  }

  // ---------- the tree of the clamped mappings ----------

  /** The lines that are left at a position. */
  function LeftAt(all: seq<string>, p: Position): (lines: seq<string>)
    requires LineExists(all, p)
  {
    [Suffix(all[p.line - 1], p.column)] + all[p.line..]
  }

  lemma CutTwice(line: string, a: int, b: int)
    requires 0 <= a <= b
    ensures Suffix(Suffix(line, a), b - a) == Suffix(line, b)
  {
  }

  lemma {:induction false} DropLinesIs(lines: seq<string>, n: nat)
    requires n < |lines|
    ensures DropLines(lines, n) == lines[n..]
  {
    if n > 0 {
      DropLinesIs(lines[1..], n - 1);
    }
  }

  lemma LeftDropped(all: seq<string>, p: Position, line: int)
    requires LineExists(all, p) && p.line < line <= |all|
    ensures DropLines(LeftAt(all, p), line - p.line) == all[line - 1..]
  {
    DropLinesIs(LeftAt(all, p), line - p.line);
  }

  lemma FirstCut(lines: seq<string>, width: int)
    requires lines != []
    ensures Taken(lines, 0, width) == Prefix(lines[0], width)
    ensures Remaining(lines, 0, width) == [Suffix(lines[0], width)] + lines[1..]
  {
  }

  lemma CutBehind(lines: seq<string>, n: nat, width: int, rest: seq<string>)
    requires DropLines(lines, n) == rest != []
    ensures Taken(lines, n, width) == FullLines(lines, n) + Prefix(rest[0], width)
    ensures Remaining(lines, n, width) == [Suffix(rest[0], width)] + rest[1..]
  {
    TakenApart(lines, n, width);
    FirstCut(rest, width);
  }

  /** Cutting in a later line. */
  lemma LaterText(all: seq<string>, p: Position, q: Position, n: nat)
    requires LineExists(all, p) && LineExists(all, q) && p.line < q.line == p.line + n
    ensures Taken(LeftAt(all, p), n, q.column) == FullLines(LeftAt(all, p), n) + Prefix(all[q.line - 1], q.column)
  {
    LeftDropped(all, p, q.line);
    CutBehind(LeftAt(all, p), n, q.column, all[q.line - 1..]);
  }

  lemma LaterLines(all: seq<string>, p: Position, q: Position, n: nat)
    requires LineExists(all, p) && LineExists(all, q) && p.line < q.line == p.line + n
    ensures Remaining(LeftAt(all, p), n, q.column) == LeftAt(all, q)
  {
    LeftDropped(all, p, q.line);
    CutBehind(LeftAt(all, p), n, q.column, all[q.line - 1..]);
    assert all[q.line - 1..][1..] == all[q.line..];
  }

  /** Cutting at a later position leaves what is left there. */
  lemma LeftLater(all: seq<string>, p: Position, q: Position, n: nat, width: int)
    requires LineExists(all, p) && LineExists(all, q) && !Before(q, p)
    requires n == LinesBetween(p, q) && width == ColumnsBetween(p, q)
    ensures Remaining(LeftAt(all, p), n, width) == LeftAt(all, q)
  {
    if p.line < q.line {
      LaterLines(all, p, q, n);
    } else {
      LeftInLine(all, p, q, width);
    }
  }

  lemma LeftInLine(all: seq<string>, p: Position, q: Position, width: int)
    requires LineExists(all, p) && p.line == q.line && width == q.column - p.column >= 0
    ensures Remaining(LeftAt(all, p), 0, width) == LeftAt(all, q)
  {
    FirstCut(LeftAt(all, p), width);
    CutTwice(all[p.line - 1], p.column, q.column);
  }

  lemma LeftClamped(all: seq<string>, p: Position)
    requires LineExists(all, p)
    ensures LeftAt(all, ClampedPosition(all, p)) == LeftAt(all, p)
  {
  }

  lemma SameLaterText(all: seq<string>, p: Position, q: Position, q': Position)
    requires LineExists(all, p) && LineExists(all, q) && LineExists(all, q') && p.line < q.line == q'.line
    requires Prefix(all[q.line - 1], q.column) == Prefix(all[q.line - 1], q'.column)
    ensures Taken(LeftAt(all, p), q.line - p.line, q.column) == Taken(LeftAt(all, p), q.line - p.line, q'.column)
  {
    LaterText(all, p, q, q.line - p.line);
    LaterText(all, p, q', q.line - p.line);
  }

  lemma SameFirstCut(lines: seq<string>, width: int, width': int)
    requires lines != [] && Prefix(lines[0], width) == Prefix(lines[0], width')
    ensures Taken(lines, 0, width) == Taken(lines, 0, width')
  {
    FirstCut(lines, width);
    FirstCut(lines, width');
  }

  /** The text between two positions is that between the clamped ones. */
  lemma TakenClamped(all: seq<string>, p: Position, q: Position)
    requires LineExists(all, p) && LineExists(all, q) && !Before(q, p)
    ensures var p', q' := ClampedPosition(all, p), ClampedPosition(all, q);
      Taken(LeftAt(all, p), LinesBetween(p, q), ColumnsBetween(p, q)) ==
      Taken(LeftAt(all, p), LinesBetween(p', q'), ColumnsBetween(p', q'))
  {
    var p', q' := ClampedPosition(all, p), ClampedPosition(all, q);
    if p.line < q.line {
      SameLaterText(all, p, q, q');
    } else {
      CutClamped(all[p.line - 1], p.column, q.column);
      SameFirstCut(LeftAt(all, p), q.column - p.column, q'.column - p'.column);
    }
  }

  lemma CutClamped(line: string, a: int, b: int)
    requires 0 <= a <= b
    ensures var a', b' := if a <= |line| then a else |line|, if b <= |line| then b else |line|;
      Prefix(Suffix(line, a), b - a) == Prefix(Suffix(line, a), b' - a')
  {
  }

  /** Two states that differ in columns behind the end of a line only. */
  predicate Alike(all: seq<string>, s: Reading, t: Reading) {
    && LineExists(all, s.at) && t.at == ClampedPosition(all, s.at)
    && s.lines == t.lines == LeftAt(all, s.at) && s.children == t.children
    && (s.last.None? <==> t.last.None?) && OriginalOf(s.last) == OriginalOf(t.last)
  }

  lemma ClampedInOrder(all: seq<string>, p: Position, q: Position)
    requires LineExists(all, p) && LineExists(all, q) && !Before(q, p)
    ensures !Before(ClampedPosition(all, q), ClampedPosition(all, p))
  {
  }

  lemma AssociatedAlike(last: Option<Mapping>, last': Option<Mapping>, text: string)
    requires OriginalOf(last) == OriginalOf(last')
    ensures Associated(last, text) == Associated(last', text)
  {
  }

  lemma ReadFirstAlike(all: seq<string>, s: Reading, t: Reading, m: Mapping)
    requires Alike(all, s, t) && Ahead(s, m) && LineExists(all, MappingPosition(m)) && s.last.None?
    ensures Read(s, m).Some? && Read(t, Clamped(all, m)).Some?
    ensures Read(s, m).value.children == Read(t, Clamped(all, m)).value.children
  {
    var n := LinesBetween(s.at, MappingPosition(m));
    assert s.lines[n] == all[m.line - 1];
    assert Prefix(s.lines[n], m.column) == Prefix(s.lines[n], Clamped(all, m).column);
  }

  lemma ReadLaterAlike(all: seq<string>, s: Reading, t: Reading, m: Mapping)
    requires Alike(all, s, t) && Ahead(s, m) && LineExists(all, MappingPosition(m)) && s.last.Some?
    ensures Read(s, m).Some? && Read(t, Clamped(all, m)).Some?
    ensures Read(s, m).value.children == Read(t, Clamped(all, m)).value.children
  {
    var p, q := s.at, MappingPosition(m);
    TakenClamped(all, p, q);
    var text := Taken(s.lines, LinesBetween(p, q), ColumnsBetween(p, q));
    AssociatedAlike(s.last, t.last, text);
    assert Read(s, m).value.children == Added(s.children, Associated(s.last, text));
    assert Read(t, Clamped(all, m)).value.children == Added(s.children, Associated(t.last, text));
  }

  /** Reading a mapping and its clamped one. */
  lemma ReadAlike(all: seq<string>, s: Reading, t: Reading, m: Mapping)
    requires Alike(all, s, t) && Ahead(s, m) && LineExists(all, MappingPosition(m))
    ensures Read(s, m).Some? && Read(t, Clamped(all, m)).Some?
    ensures Alike(all, Read(s, m).value, Read(t, Clamped(all, m)).value)
  {
    var q, c := MappingPosition(m), Clamped(all, m);
    var q' := MappingPosition(c);
    if s.last.None? {
      ReadFirstAlike(all, s, t, m);
    } else {
      ReadLaterAlike(all, s, t, m);
    }
    ClampedInOrder(all, s.at, q);
    ReadGrows(s, m);
    ReadGrows(t, c);
    LeftLater(all, s.at, q, LinesBetween(s.at, q), ColumnsBetween(s.at, q));
    LeftClamped(all, s.at);
    LeftLater(all, t.at, q', LinesBetween(t.at, q'), ColumnsBetween(t.at, q'));
    LeftClamped(all, q);
  }

  lemma NothingAlike(code: string)
    ensures var s := Reading([], Lines(code), FIRST, None);
      AllRead(code, []) == Some(s) && Alike(Lines(code), s, s)
  {
    assert Suffix(Lines(code)[0], 0) == Lines(code)[0];
    assert Lines(code) == [Lines(code)[0]] + Lines(code)[1..];
  }

  lemma ClampedFront(all: seq<string>, ms: seq<Mapping>)
    requires InOrder(ms) && InLines(all, ms) && ms != []
    ensures var front, last := ms[..|ms| - 1], |ms| - 1;
      && InOrder(front) && InLines(all, front)
      && AllClamped(all, ms)[..last] == AllClamped(all, front)
      && AllClamped(all, ms)[last] == Clamped(all, ms[last])
  {
  }

  lemma {:induction false} AllReadAlike(code: string, ms: seq<Mapping>)
    requires InOrder(ms) && InLines(Lines(code), ms)
    ensures var r, r' := AllRead(code, ms), AllRead(code, AllClamped(Lines(code), ms));
      r.Some? && r'.Some? && Alike(Lines(code), r.value, r'.value) && Follows(r.value, ms)
  {
    if ms == [] {
      NothingAlike(code);
      assert AllClamped(Lines(code), ms) == [];
    } else {
      var front, last := ms[..|ms| - 1], |ms| - 1;
      ClampedFront(Lines(code), ms);
      AllReadAlike(code, front);
      var s, t := AllRead(code, front).value, AllRead(code, AllClamped(Lines(code), front)).value;
      NextIsAhead(s, ms, last);
      ReadAlike(Lines(code), s, t, ms[last]);
      ReadGrows(s, ms[last]);
      AllReadLast(code, ms);
      AllReadLast(code, AllClamped(Lines(code), ms));
    }
  }

  lemma AllReadLast(code: string, ms: seq<Mapping>)
    requires ms != []
    ensures var front := AllRead(code, ms[..|ms| - 1]);
      AllRead(code, ms) == if front.Some? then Read(front.value, ms[|ms| - 1]) else None
  {
  }

  /** Columns behind the end of their line make the same tree as the end of the line. */
  lemma SameTree(code: string, ms: seq<Mapping>)
    requires InOrder(ms) && InLines(Lines(code), ms)
    ensures var r, r' := AllRead(code, ms), AllRead(code, AllClamped(Lines(code), ms));
      r.Some? && r'.Some? && Finished(r.value) == Finished(r'.value)
  {
    AllReadAlike(code, ms);
    var s, t := AllRead(code, ms).value, AllRead(code, AllClamped(Lines(code), ms)).value;
    AssociatedAlike(s.last, t.last, Join(s.lines));
  }

  // ---------- where each character comes from ----------

  /** The position up to which mappings matter to a character: a line break has the rest of its line before it. */
  function Reach(code: string, j: nat): Position
    requires j < |code|
  {
    var p := PositionOf(code, j);
    if code[j] == '\n' then Position(p.line + 1, -1) else p
  }

  /** No mapping with a column behind the end of a line changes the original of its line break. */
  predicate BreaksAgree(code: string, ms: seq<Mapping>) {
    forall j | 0 <= j < |code| && code[j] == '\n' ::
      var p := PositionOf(code, j);
      LastOriginal(ms, p.line, p.column) == LastOriginal(ms, p.line + 1, -1)
  }

  /** A character stands in its line, a line break at the end of it. */
  lemma {:induction false} CharacterInLine(code: string, j: nat, p: Position)
    requires j < |code|
    ensures var q := After(code[..j], p);
      && p.line <= q.line < p.line + |Lines(code)|
      && var width := |Lines(code)[q.line - p.line]| + if q.line == p.line then p.column else 0;
         if code[j] == '\n' then q.column == width else q.column < width
  {
    if j > 0 {
      var c, later := code[0], code[1..];
      CharacterInLine(later, j - 1, Next(p, c));
      assert code[..j][1..] == later[..j - 1];
    }
  }

  lemma CharacterAt(code: string, j: nat)
    requires j < |code|
    ensures var p := PositionOf(code, j);
      && 1 <= p.line <= |Lines(code)|
      && var line := Lines(code)[p.line - 1];
         if code[j] == '\n' then p.column == |line| else p.column < |line|
  {
    CharacterInLine(code, j, FIRST);
  }

  lemma ReachesClamped(code: string, j: nat, m: Mapping)
    requires j < |code| && LineExists(Lines(code), MappingPosition(m))
    ensures Before(PositionOf(code, j), MappingPosition(Clamped(Lines(code), m))) <==>
      Before(Reach(code, j), MappingPosition(m))
  {
    var p := PositionOf(code, j);
    if p.line == m.line {
      CharacterAt(code, j);
    }
  }

  lemma LastOriginalStep(ms: seq<Mapping>, p: Position)
    requires ms != []
    ensures var last := |ms| - 1;
      LastOriginal(ms, p.line, p.column) ==
        if Before(p, MappingPosition(ms[last])) then LastOriginal(ms[..last], p.line, p.column) else ms[last].original
  {
  }

  lemma {:induction false} LastOriginalClamped(code: string, ms: seq<Mapping>, j: nat)
    requires InOrder(ms) && InLines(Lines(code), ms) && j < |code|
    ensures var p, r := PositionOf(code, j), Reach(code, j);
      LastOriginal(AllClamped(Lines(code), ms), p.line, p.column) == LastOriginal(ms, r.line, r.column)
  {
    if ms != [] {
      var front, last := ms[..|ms| - 1], |ms| - 1;
      ClampedFront(Lines(code), ms);
      ReachesClamped(code, j, ms[last]);
      LastOriginalStep(ms, Reach(code, j));
      LastOriginalStep(AllClamped(Lines(code), ms), PositionOf(code, j));
      LastOriginalClamped(code, front, j);
    }
  }

  lemma ClampedAreInCode(code: string, ms: seq<Mapping>)
    requires InOrder(ms) && InLines(Lines(code), ms)
    ensures var cs := AllClamped(Lines(code), ms);
      InOrder(cs) && forall i | 0 <= i < |cs| :: InCode(code, cs[i])
  {
    var cs := AllClamped(Lines(code), ms);
    forall i | 0 < i < |cs|
      ensures !Before(MappingPosition(cs[i]), MappingPosition(cs[i - 1]))
    {
      ClampedInOrder(Lines(code), MappingPosition(ms[i - 1]), MappingPosition(ms[i]));
    }
  }

  /** Each character of the tree comes from the last mapping in its reach. */
  lemma OriginsAre(code: string, ms: seq<Mapping>)
    requires InOrder(ms) && InLines(Lines(code), ms)
    ensures AllRead(code, ms).Some?
    ensures var chunks := ChunksOf(Finished(AllRead(code, ms).value));
      && Code(chunks) == code && |Attribution(chunks)| == |code|
      && forall j | 0 <= j < |code| ::
          var r := Reach(code, j);
          Attribution(chunks)[j] == LastOriginal(ms, r.line, r.column)
  {
    var cs := AllClamped(Lines(code), ms);
    SameTree(code, ms);
    ClampedAreInCode(code, ms);
    OriginsInCode(code, cs);
    var chunks := ChunksOf(Finished(AllRead(code, ms).value));
    forall j | 0 <= j < |code|
      ensures var r := Reach(code, j);
        Attribution(chunks)[j] == LastOriginal(ms, r.line, r.column)
    {
      LastOriginalClamped(code, ms, j);
      assert Attribution(chunks)[j] == Attribution(chunks)[j];
    }
  }

  /**
   The tree has exactly the text of the code, and each character of it comes from where the map says, if and only if
   all mappings are in lines of the code and no mapping behind the end of a line would change the origin of its
   line break.
   */
  lemma OriginsAreKeptExactlyIf(code: string, ms: seq<Mapping>)
    requires InOrder(ms)
    ensures var r := AllRead(code, ms);
      (r.Some? && var chunks := ChunksOf(Finished(r.value));
        Code(chunks) == code && Attributes(ms, code, Attribution(chunks))) <==>
      InLines(Lines(code), ms) && BreaksAgree(code, ms)
  {
    TextIsKept(code, ms);
    if forall m <- ms :: m.line <= |Lines(code)| {
      assert forall i | 0 <= i < |ms| :: ms[i] in ms;
      OriginsAre(code, ms);
    }
  }

  // ---------- reading and printing again ----------

  lemma {:induction false} ChunkIsAttributed(chunks: seq<Chunk>, i: nat)
    requires i < |chunks| && chunks[i].text != ""
    ensures chunks[i].origin.Original() in Attribution(chunks)
  {
    var last := |chunks| - 1;
    if i == last {
      assert Attribution(chunks)[|Attribution(chunks)| - 1] == chunks[last].origin.Original();
    } else {
      ChunkIsAttributed(chunks[..last], i);
      var j :| 0 <= j < |Attribution(chunks[..last])| && Attribution(chunks[..last])[j] == chunks[i].origin.Original();
      assert Attribution(chunks)[j] == chunks[i].origin.Original();
    }
  }

  lemma {:induction false} LastOriginalIsOne(ms: seq<Mapping>, p: Position)
    requires forall m <- ms :: m.Valid()
    ensures LastOriginal(ms, p.line, p.column).Some? ==>
      Mapping(1, 0, LastOriginal(ms, p.line, p.column)).Valid()
  {
    if ms != [] {
      assert ms[|ms| - 1] in ms;
      LastOriginalIsOne(ms[..|ms| - 1], p);
    }
  }

  /** What is printed of the tree leads from every character to the last mapping in its reach. */
  lemma PrintedAgain(code: string, ms: seq<Mapping>, chunks: seq<Chunk>)
    requires InOrder(ms) && InLines(Lines(code), ms) && forall i | 0 <= i < |ms| :: ms[i].Valid()
    requires AllRead(code, ms).Some? && chunks == ChunksOf(Finished(AllRead(code, ms).value))
    ensures var printed := AllPrinted(chunks);
      && printed.Some? && printed.value.code == code
      && Attributes(printed.value.mappings, code, Attribution(chunks))
  {
    OriginsAre(code, ms);
    ChunksAreNotEmpty(Finished(AllRead(code, ms).value), 0);
    forall i | 0 <= i < |chunks|
      ensures chunks[i].origin.Valid()
    {
      assert chunks[i] in chunks;
      ChunkIsAttributed(chunks, i);
      var j :| 0 <= j < |code| && Attribution(chunks)[j] == chunks[i].origin.Original();
      LastOriginalIsOne(ms, Reach(code, j));
    }
    AllPrintedAttributes(chunks);
  }

  /**
   Printing the tree again gives the same code, and a map with the same original for each character exactly if the
   line breaks agree.
   */
  lemma ReadAndPrinted(code: string, ms: seq<Mapping>)
    requires InOrder(ms) && InLines(Lines(code), ms) && forall i | 0 <= i < |ms| :: ms[i].Valid()
    ensures AllRead(code, ms).Some?
    ensures var printed := AllPrinted(ChunksOf(Finished(AllRead(code, ms).value)));
      && printed.Some? && printed.value.code == code
      && (BreaksAgree(code, ms) <==> forall k | 0 <= k < |code| ::
            var p := PositionOf(code, k);
            LastOriginal(printed.value.mappings, p.line, p.column) == LastOriginal(ms, p.line, p.column))
  {
    OriginsAre(code, ms);
    var chunks := ChunksOf(Finished(AllRead(code, ms).value));
    PrintedAgain(code, ms, chunks);
    var printed := AllPrinted(chunks).value.mappings;
    forall k | 0 <= k < |code|
      ensures var p, r := PositionOf(code, k), Reach(code, k);
        LastOriginal(printed, p.line, p.column) == LastOriginal(ms, r.line, r.column)
    {
      assert Attribution(chunks)[k] == Attribution(chunks)[k];
    }
  }

  lemma LinesOfExample()
    ensures Lines("a\nb") == ["a", "b"]
  {
    var code: string := "a\nb";
    var rest: string := code[1..];
    var b: string := rest[1..];
    assert b == "b" && b[1..] == "" && Lines("") == [""];
    assert Lines(b) == [[b[0]] + Lines("")[0]] + Lines("")[1..];
    assert [b[0]] + "" == "b" && [""][1..] == [];
    assert rest[0] == '\n' && Lines(rest) == [""] + Lines(b);
    assert Lines(rest) == ["", "b"];
    assert Lines(code) == [[code[0]] + Lines(rest)[0]] + Lines(rest)[1..];
    assert Lines(rest)[1..] == ["b"] && [code[0]] + Lines(rest)[0] == "a";
  }

  lemma BreakBehindMapping(m: Mapping)
    requires m.line == 1 && m.column == 5 && m.original.Some?
    ensures !BreaksAgree("a\nb", [m])
  {
    var code := "a\nb";
    assert code[..1] == "a" && PositionOf(code, 1) == Position(1, 1);
    assert [m][..0] == [];
    LastOriginalStep([m], Position(1, 1));
    LastOriginalStep([m], Position(2, -1));
    assert code[1] == '\n';
  }

  /** A column behind the end of its line takes the line break with it, so the map and the tree differ there. */
  lemma ColumnBehindLine()
    ensures var code, m := "a\nb", Mapping(1, 5, Some(Original("s", 1, 0, None)));
      && !BreaksAgree(code, [m]) && AllRead(code, [m]).Some?
      && !Attributes([m], code, Attribution(ChunksOf(Finished(AllRead(code, [m]).value))))
  {
    var code, m := "a\nb", Mapping(1, 5, Some(Original("s", 1, 0, None)));
    LinesOfExample();
    BreakBehindMapping(m);
    OriginsAre(code, [m]);
    OriginsAreKeptExactlyIf(code, [m]);
  }
}

/**
 The text of a source map: what `_serializeMappings` writes and `_parseMappings` reads,
 defaults/JSXTransformer.js:11166-11230 and 10607-10683.
 */
module MappingText {
  import opened ArraySets
  import opened Base64Vlq
  import opened Mappings
  import opened Options

  /** The running values that both sides write and read differences to. */
  datatype Previous = Previous(line: int, column: int, source: int, originalLine: int, originalColumn: int, name: int)

  const START := Previous(1, 0, 0, 0, 0, 0)

  // ---------- writing ----------

  /** The lists of sources and names have what the mapping refers to. */
  predicate Listed(m: Mapping, sources: seq<string>, names: seq<string>) {
    m.Valid() && (m.original.Some? ==> m.Source() in sources) && (m.Name() != "" ==> m.Name() in names)
  }

  predicate AllListed(ms: seq<Mapping>, sources: seq<string>, names: seq<string>) {
    forall i | 0 <= i < |ms| :: Listed(ms[i], sources, names)
  }

  /** The values after the mapping. */
  function Then(p: Previous, m: Mapping, sources: seq<string>, names: seq<string>): Previous
    requires Listed(m, sources, names)
  {
    match m.original
    case None => p.(column := m.column)
    case Some(o) =>
      Previous(p.line, m.column, FirstIndex(sources, o.source), o.line - 1, o.column,
        if m.Name() == "" then p.name else FirstIndex(names, m.Name()))
  }

  /** The differences for the original of a mapping. */
  function OriginalFields(p: Previous, m: Mapping, sources: seq<string>, names: seq<string>): (fields: seq<int>)
    requires Listed(m, sources, names)
    ensures |fields| in {0, 3, 4}
  {
    var q := Then(p, m, sources, names);
    if m.original.None? then []
    else
      [q.source - p.source, q.originalLine - p.originalLine, q.originalColumn - p.originalColumn] +
      if m.Name() == "" then [] else [q.name - p.name]
  }

  /** The differences that make up the segment of a mapping. */
  function Fields(p: Previous, m: Mapping, sources: seq<string>, names: seq<string>): (fields: seq<int>)
    requires Listed(m, sources, names)
    ensures |fields| in {1, 4, 5}
  {
    [m.column - p.column] + OriginalFields(p, m, sources, names)
  }

  /** The text of a segment. */
  function Written(fields: seq<int>): string {
    if fields == [] then "" else Encoded(fields[0]) + Written(fields[1..])
  }

  function LineBreaks(n: nat): (text: string)
    ensures |text| == n && forall c <- text :: c == ';'
  {
    if n == 0 then "" else ";" + LineBreaks(n - 1)
  }

  /** The first n mappings have been written, and the line written last is that of the last one of these. */
  predicate Resumes(ms: seq<Mapping>, n: nat, p: Previous) {
    n <= |ms| && Sorted(ms) && p.line == if n == 0 then 1 else ms[n - 1].line
  }

  /** Is the n-th mapping left out, as being the same as the one before? */
  predicate Repeated(ms: seq<Mapping>, n: nat)
    requires n < |ms|
  {
    n > 0 && Compare(ms[n], ms[n - 1]) == 0
  }

  /** What stands before the segment of a mapping. */
  function Separator(m: Mapping, n: nat, p: Previous): string
    requires p.line <= m.line
  {
    if m.line != p.line then LineBreaks(m.line - p.line) else if n > 0 then "," else ""
  }

  /** The values when the segment of a mapping in the line starts. */
  function InLine(p: Previous, line: int): Previous {
    if line != p.line then p.(line := line, column := 0) else p
  }

  /** The text for the mappings from the n-th on. */
  function TextFrom(ms: seq<Mapping>, n: nat, p: Previous, sources: seq<string>, names: seq<string>): string
    requires Resumes(ms, n, p) && AllListed(ms, sources, names)
    decreases |ms| - n
  {
    if n == |ms| then ""
    else if Repeated(ms, n) then TextFrom(ms, n + 1, p, sources, names)
    else
      var m, q := ms[n], InLine(p, ms[n].line);
      Separator(m, n, p) + Written(Fields(q, m, sources, names)) +
      TextFrom(ms, n + 1, Then(q, m, sources, names), sources, names)
  }

  // ---------- the text, mapping by mapping ----------

  lemma {:induction false} LineBreaksAre(n: nat)
    ensures LineBreaks(n) == seq(n, _ => ';')
  {
    if n > 0 {
      LineBreaksAre(n - 1);
    }
  }

  lemma SeparatorIs(m: Mapping, n: nat, p: Previous)
    requires p.line <= m.line
    ensures Separator(m, n, p) ==
      if m.line > p.line then seq(m.line - p.line, _ => ';') else if n > 0 then "," else ""
  {
    if m.line > p.line {
      LineBreaksAre(m.line - p.line);
    }
  }

  /** The segment of a mapping without original is the difference of the column alone. */
  lemma SegmentOfUnmapped(p: Previous, m: Mapping, sources: seq<string>, names: seq<string>)
    requires Listed(m, sources, names) && m.original.None?
    ensures Written(Fields(p, m, sources, names)) == Encoded(m.column - p.column)
    ensures Then(p, m, sources, names) == p.(column := m.column)
  {
    OneNumber(m.column - p.column);
    assert Fields(p, m, sources, names) == [m.column - p.column];
  }

  lemma OneNumber(a: int)
    ensures Written([a]) == Encoded(a)
  {
    assert [a][1..] == [] && Encoded(a) + "" == Encoded(a);
  }

  lemma FirstNumber(a: int, more: seq<int>)
    ensures Written([a] + more) == Encoded(a) + Written(more)
  {
    assert ([a] + more)[1..] == more;
  }

  lemma FourNumbers(a: int, b: int, c: int, d: int)
    ensures Written([a, b, c, d]) == Encoded(a) + (Encoded(b) + (Encoded(c) + Encoded(d)))
  {
    OneNumber(d);
    FirstNumber(c, [d]);
    FirstNumber(b, [c, d]);
    FirstNumber(a, [b, c, d]);
    assert [c] + [d] == [c, d] && [b] + [c, d] == [b, c, d] && [a] + [b, c, d] == [a, b, c, d];
  }

  lemma FiveNumbers(a: int, b: int, c: int, d: int, e: int)
    ensures Written([a, b, c, d, e]) == Encoded(a) + (Encoded(b) + (Encoded(c) + (Encoded(d) + Encoded(e))))
  {
    FourNumbers(b, c, d, e);
    FirstNumber(a, [b, c, d, e]);
    assert [a] + [b, c, d, e] == [a, b, c, d, e];
  }

  /** The source and the name stand at these places in their lists, and not before. */
  predicate StandAt(o: Original, sources: seq<string>, names: seq<string>, source: nat, name: nat) {
    && source < |sources| && sources[source] == o.source && o.source !in sources[..source]
    && (o.name.Some? && o.name.value != "" ==>
          name < |names| && names[name] == o.name.value && o.name.value !in names[..name])
  }

  /**
   The segment of a mapping with an original is four or five differences: of the column, the place of the source, the
   line from zero, the column in the original, and the place of the name, if it has one.
   */
  lemma SegmentOfMapped(p: Previous, m: Mapping, sources: seq<string>, names: seq<string>, source: nat, name: nat)
    requires Listed(m, sources, names) && m.original.Some?
    requires StandAt(m.original.value, sources, names, source, name)
    ensures var o := m.original.value;
      Written(Fields(p, m, sources, names)) ==
        Encoded(m.column - p.column) +
        (Encoded(source - p.source) +
         (Encoded(o.line - 1 - p.originalLine) +
          if o.name.Some? && o.name.value != "" then Encoded(o.column - p.originalColumn) + Encoded(name - p.name)
          else Encoded(o.column - p.originalColumn)))
    ensures var o := m.original.value;
      Then(p, m, sources, names) ==
        Previous(p.line, m.column, source, o.line - 1, o.column,
          if o.name.Some? && o.name.value != "" then name else p.name)
  {
    var o := m.original.value;
    FirstIndexIs(sources, o.source, source);
    var a, b, c, d := m.column - p.column, source - p.source, o.line - 1 - p.originalLine, o.column - p.originalColumn;
    if m.Name() == "" {
      FourNumbers(a, b, c, d);
      assert Fields(p, m, sources, names) == [a, b, c, d];
    } else {
      FirstIndexIs(names, m.Name(), name);
      FiveNumbers(a, b, c, d, name - p.name);
      assert Fields(p, m, sources, names) == [a, b, c, d, name - p.name];
    }
  }

  /**
   The text of a map is its segments in turn, with a semicolon for each line or else a comma in between; the column
   starts over in each line.
   */
  lemma TextGoesOn(ms: seq<Mapping>, n: nat, p: Previous, sources: seq<string>, names: seq<string>)
    requires Resumes(ms, n, p) && AllListed(ms, sources, names) && n < |ms|
    requires n > 0 ==> Compare(ms[n], ms[n - 1]) != 0
    ensures var m, q := ms[n], if ms[n].line == p.line then p else p.(line := ms[n].line, column := 0);
      && p.line <= m.line && Resumes(ms, n + 1, Then(q, m, sources, names))
      && TextFrom(ms, n, p, sources, names) ==
         (if m.line > p.line then seq(m.line - p.line, _ => ';') else if n > 0 then "," else "") +
         Written(Fields(q, m, sources, names)) +
         TextFrom(ms, n + 1, Then(q, m, sources, names), sources, names)
  {
    SeparatorIs(ms[n], n, p);
  }

  // ---------- reading ----------

  datatype Fault = BadNumber(failure: Failure) | NoLineAndColumn | NoColumn | NoElement(index: int)

  datatype Segment = Segment(mapping: Mapping, rest: string, previous: Previous) | BadSegment(fault: Fault)

  /** All mappings, or those read before the fault. */
  datatype Parsed = Parsed(mappings: seq<Mapping>) | Broken(mappings: seq<Mapping>, fault: Fault)

  predicate AtEnd(text: string) {
    text == "" || text[0] == ',' || text[0] == ';'
  }

  /** Reads the optional name at the end of a segment. */
  function NameOf(text: string, m: Mapping, o: Original, p: Previous, names: seq<string>): (s: Segment)
    ensures s.Segment? ==> |s.rest| <= |text|
  {
    if AtEnd(text) then Segment(m.(original := Some(o)), text, p)
    else
      match DecodedOf(text)
      case Failed(failure) => BadSegment(BadNumber(failure))
      case Decoded(value, rest) =>
        if 0 <= p.name + value < |names|
        then Segment(m.(original := Some(o.(name := Some(names[p.name + value])))), rest, p.(name := p.name + value))
        else BadSegment(NoElement(p.name + value))
  }

  /** Reads the column in the original, and what follows. */
  function ColumnOf(text: string, m: Mapping, source: string, line: int, p: Previous, names: seq<string>): (s: Segment)
    ensures s.Segment? ==> |s.rest| <= |text|
  {
    if AtEnd(text) then BadSegment(NoColumn)
    else
      match DecodedOf(text)
      case Failed(failure) => BadSegment(BadNumber(failure))
      case Decoded(value, rest) =>
        var column := p.originalColumn + value;
        NameOf(rest, m, Original(source, line, column, None), p.(originalColumn := column), names)
  }

  /** Reads the line in the original, and what follows. */
  function LineOf(text: string, m: Mapping, source: string, p: Previous, names: seq<string>): (s: Segment)
    ensures s.Segment? ==> |s.rest| <= |text|
  {
    if AtEnd(text) then BadSegment(NoLineAndColumn)
    else
      match DecodedOf(text)
      case Failed(failure) => BadSegment(BadNumber(failure))
      case Decoded(value, rest) =>
        var line := p.originalLine + value;
        ColumnOf(rest, m, source, line + 1, p.(originalLine := line), names)
  }

  /** Reads the source, and what follows. */
  function SourceOf(text: string, m: Mapping, p: Previous, sources: seq<string>, names: seq<string>): (s: Segment)
    ensures s.Segment? ==> |s.rest| <= |text|
  {
    if AtEnd(text) then Segment(m, text, p)
    else
      match DecodedOf(text)
      case Failed(failure) => BadSegment(BadNumber(failure))
      case Decoded(value, rest) =>
        var source := p.source + value;
        if 0 <= source < |sources| then LineOf(rest, m, sources[source], p.(source := source), names)
        else BadSegment(NoElement(source))
  }

  /** Reads one segment. */
  function SegmentOf(text: string, p: Previous, sources: seq<string>, names: seq<string>): (s: Segment)
    ensures s.Segment? ==> |s.rest| < |text|
  {
    match DecodedOf(text)
    case Failed(failure) => BadSegment(BadNumber(failure))
    case Decoded(value, rest) =>
      var column := p.column + value;
      SourceOf(rest, Mapping(p.line, column, None), p.(column := column), sources, names)
  }

  function Behind(mappings: seq<Mapping>, rest: Parsed): Parsed {
    match rest
    case Parsed(more) => Parsed(mappings + more)
    case Broken(more, fault) => Broken(mappings + more, fault)
  }

  /** Reads a text to the end. */
  function ParsedFrom(text: string, p: Previous, sources: seq<string>, names: seq<string>): Parsed
    decreases |text|
  {
    if text == "" then Parsed([])
    else if text[0] == ';' then ParsedFrom(text[1..], p.(line := p.line + 1, column := 0), sources, names)
    else if text[0] == ',' then ParsedFrom(text[1..], p, sources, names)
    else
      match SegmentOf(text, p, sources, names)
      case BadSegment(fault) => Broken([], fault)
      case Segment(m, rest, q) => Behind([m], ParsedFrom(rest, q, sources, names))
  }

  // ---------- reading what was written ----------

  predicate Fits(value: int) {
    -0x4000_0000 < value < 0x4000_0000
  }

  /** What the numbers behind the source are read as. */
  function LineFrom(values: seq<int>, rest: string, m: Mapping, source: string, p: Previous,
                    names: seq<string>): Segment
    requires |values| in {4, 5}
  {
    var q := p.(originalLine := p.originalLine + values[2], originalColumn := p.originalColumn + values[3]);
    var o := Original(source, q.originalLine + 1, q.originalColumn, None);
    if |values| == 4 then Segment(m.(original := Some(o)), rest, q)
    else
      var q' := q.(name := p.name + values[4]);
      if !(0 <= q'.name < |names|) then BadSegment(NoElement(q'.name))
      else Segment(m.(original := Some(o.(name := Some(names[q'.name])))), rest, q')
  }

  /** The segment that the given numbers, followed by the text, are read as. */
  function SegmentFrom(values: seq<int>, rest: string, p: Previous, sources: seq<string>, names: seq<string>): Segment
    requires |values| in {1, 4, 5}
  {
    var m := Mapping(p.line, p.column + values[0], None);
    if |values| == 1 then Segment(m, rest, p.(column := m.column))
    else
      var q := p.(column := m.column, source := p.source + values[1]);
      if !(0 <= q.source < |sources|) then BadSegment(NoElement(q.source))
      else LineFrom(values, rest, m, sources[q.source], q, names)
  }

  function AllWrapped(values: seq<int>): (r: seq<int>)
    ensures |r| == |values| && forall i | 0 <= i < |r| :: r[i] == Wrapped(values[i])
  {
    seq(|values|, i requires 0 <= i < |values| => Wrapped(values[i]))
  }

  /** Decoding goes from each of the texts to the next one, and so reads the numbers. */
  predicate Read(texts: seq<string>, values: seq<int>) {
    && |texts| == |values| + 1
    && AtEnd(texts[|values|])
    && forall i | 0 <= i < |values| :: !AtEnd(texts[i]) && DecodedOf(texts[i]) == Decoded(values[i], texts[i + 1])
  }

  /** The numbers behind the source. */
  lemma LineIsRead(texts: seq<string>, values: seq<int>, m: Mapping, source: string, p: Previous, names: seq<string>)
    requires |values| in {4, 5} && Read(texts, values)
    ensures LineOf(texts[2], m, source, p, names) == LineFrom(values, texts[|values|], m, source, p, names)
  {
    assert DecodedOf(texts[2]) == Decoded(values[2], texts[3]) && DecodedOf(texts[3]) == Decoded(values[3], texts[4]);
    assert |values| == 5 ==> DecodedOf(texts[4]) == Decoded(values[4], texts[5]);
  }

  /** The numbers behind the column. */
  lemma SourceIsRead(texts: seq<string>, values: seq<int>, p: Previous, sources: seq<string>, names: seq<string>)
    requires |values| in {4, 5} && Read(texts, values)
    ensures var column := p.column + values[0];
      SourceOf(texts[1], Mapping(p.line, column, None), p.(column := column), sources, names) ==
      SegmentFrom(values, texts[|values|], p, sources, names)
  {
    assert DecodedOf(texts[1]) == Decoded(values[1], texts[2]);
    var column, source := p.column + values[0], p.source + values[1];
    if 0 <= source < |sources| {
      LineIsRead(texts, values, Mapping(p.line, column, None), sources[source],
        p.(column := column, source := source), names);
    }
  }

  lemma SegmentIsRead(texts: seq<string>, values: seq<int>, p: Previous, sources: seq<string>, names: seq<string>)
    requires |values| in {1, 4, 5} && Read(texts, values)
    ensures SegmentOf(texts[0], p, sources, names) == SegmentFrom(values, texts[|values|], p, sources, names)
  {
    assert DecodedOf(texts[0]) == Decoded(values[0], texts[1]);
    if |values| > 1 {
      SourceIsRead(texts, values, p, sources, names);
    }
  }

  /** What is left to read of a written segment after each number. */
  function Tails(values: seq<int>, rest: string): (texts: seq<string>)
    ensures |texts| == |values| + 1
  {
    if values == [] then [rest] else [Written(values) + rest] + Tails(values[1..], rest)
  }

  lemma WrittenIsReadBack(value: int, rest: string)
    ensures var text := Encoded(value) + rest;
      !AtEnd(text) && DecodedOf(text) == Decoded(Wrapped(value), rest)
  {
    DecodeEncoded(value, rest);
    assert (Encoded(value) + rest)[0] == Encoded(value)[0];
  }

  lemma {:induction false} TailsAreRead(values: seq<int>, rest: string)
    requires AtEnd(rest)
    ensures Tails(values, rest)[0] == Written(values) + rest
    ensures Tails(values, rest)[|values|] == rest
    ensures Read(Tails(values, rest), AllWrapped(values))
  {
    if values != [] {
      TailsAreRead(values[1..], rest);
      assert Written(values) + rest == Encoded(values[0]) + (Written(values[1..]) + rest);
      WrittenIsReadBack(values[0], Written(values[1..]) + rest);
      assert AllWrapped(values) == [Wrapped(values[0])] + AllWrapped(values[1..]);
      ReadOneMore(Written(values) + rest, Wrapped(values[0]), Tails(values[1..], rest), AllWrapped(values[1..]));
    }
  }

  lemma ReadOneMore(text: string, value: int, texts: seq<string>, values: seq<int>)
    requires Read(texts, values) && !AtEnd(text) && DecodedOf(text) == Decoded(value, texts[0])
    ensures Read([text] + texts, [value] + values)
  {
  }

  /** A written segment is read as the numbers it consists of, each modulo 2^31. */
  lemma SegmentIsReadBack(values: seq<int>, rest: string, p: Previous, sources: seq<string>, names: seq<string>)
    requires |values| in {1, 4, 5} && AtEnd(rest)
    ensures SegmentOf(Written(values) + rest, p, sources, names) ==
      SegmentFrom(AllWrapped(values), rest, p, sources, names)
  {
    TailsAreRead(values, rest);
    SegmentIsRead(Tails(values, rest), AllWrapped(values), p, sources, names);
  }

  lemma FittingMappingComesBack(p: Previous, m: Mapping, rest: string, sources: seq<string>, names: seq<string>)
    requires Listed(m, sources, names) && p.line == m.line
    ensures SegmentFrom(Fields(p, m, sources, names), rest, p, sources, names) ==
      Segment(m.Canonical(), rest, Then(p, m, sources, names))
  {
  }

  /** Reading a segment gives back the mapping and the running values exactly if all differences fit. */
  lemma MappingComesBack(p: Previous, m: Mapping, rest: string, sources: seq<string>, names: seq<string>)
    requires Listed(m, sources, names) && p.line == m.line && NoDuplicates(sources) && NoDuplicates(names)
    ensures var fields := Fields(p, m, sources, names);
      var s := SegmentFrom(AllWrapped(fields), rest, p, sources, names);
      if forall f <- fields :: Fits(f) then s == Segment(m.Canonical(), rest, Then(p, m, sources, names))
      else s.Segment? ==> s.mapping != m.Canonical()
  {
    var fields := Fields(p, m, sources, names);
    forall i | 0 <= i < |fields|
      ensures Wrapped(fields[i]) == fields[i] <==> Fits(fields[i])
    {
      WrappedWithin(fields[i]);
    }
    if forall f <- fields :: Fits(f) {
      assert AllWrapped(fields) == fields;
      FittingMappingComesBack(p, m, rest, sources, names);
    }
  }

  /** A source without a line, or a line without a column, is a fault. */
  lemma TooFewNumbers(values: seq<int>, rest: string, p: Previous, sources: seq<string>, names: seq<string>)
    requires |values| in {2, 3} && AtEnd(rest) && 0 <= p.source + Wrapped(values[1]) < |sources|
    ensures SegmentOf(Written(values) + rest, p, sources, names) ==
      BadSegment(if |values| == 2 then NoLineAndColumn else NoColumn)
  {
    var texts, read := Tails(values, rest), AllWrapped(values);
    TailsAreRead(values, rest);
    assert DecodedOf(texts[0]) == Decoded(read[0], texts[1]) && DecodedOf(texts[1]) == Decoded(read[1], texts[2]);
    assert |values| == 3 ==> DecodedOf(texts[2]) == Decoded(read[2], texts[3]);
  }

  // ---------- the round trip ----------

  /** The mappings from the n-th on without repetitions, as a serialised map can express them. */
  function Kept(ms: seq<Mapping>, n: nat): seq<Mapping>
    requires n <= |ms|
    decreases |ms| - n
  {
    if n == |ms| then [] else if Repeated(ms, n) then Kept(ms, n + 1) else [ms[n].Canonical()] + Kept(ms, n + 1)
  }

  /** Do all differences written for the mappings from the n-th on fit the number format? */
  predicate AllFit(ms: seq<Mapping>, n: nat, p: Previous, sources: seq<string>, names: seq<string>)
    requires Resumes(ms, n, p) && AllListed(ms, sources, names)
    decreases |ms| - n
  {
    n == |ms| ||
    if Repeated(ms, n) then AllFit(ms, n + 1, p, sources, names)
    else
      var q := InLine(p, ms[n].line);
      (forall f <- Fields(q, ms[n], sources, names) :: Fits(f)) &&
      AllFit(ms, n + 1, Then(q, ms[n], sources, names), sources, names)
  }

  lemma {:induction false} LineBreaksAreReadBack(n: nat, rest: string, p: Previous, sources: seq<string>,
                                                 names: seq<string>)
    requires n > 0
    ensures ParsedFrom(LineBreaks(n) + rest, p, sources, names)
         == ParsedFrom(rest, p.(line := p.line + n, column := 0), sources, names)
  {
    var text := LineBreaks(n) + rest;
    assert text[1..] == LineBreaks(n - 1) + rest;
    if n == 1 {
      assert text[1..] == rest;
    } else {
      LineBreaksAreReadBack(n - 1, rest, p.(line := p.line + 1, column := 0), sources, names);
    }
  }

  lemma SeparatorIsReadBack(m: Mapping, n: nat, p: Previous, rest: string, sources: seq<string>, names: seq<string>)
    requires p.line <= m.line
    ensures ParsedFrom(Separator(m, n, p) + rest, p, sources, names)
         == ParsedFrom(rest, InLine(p, m.line), sources, names)
  {
    if m.line != p.line {
      LineBreaksAreReadBack(m.line - p.line, rest, p, sources, names);
    } else if n > 0 {
      assert (Separator(m, n, p) + rest)[1..] == rest;
    } else {
      assert Separator(m, n, p) + rest == rest;
    }
  }

  lemma {:induction false} TextStartsAtEnd(ms: seq<Mapping>, n: nat, p: Previous, sources: seq<string>,
                                           names: seq<string>)
    requires Resumes(ms, n, p) && AllListed(ms, sources, names) && n > 0
    ensures AtEnd(TextFrom(ms, n, p, sources, names))
    decreases |ms| - n
  {
    if n < |ms| && Repeated(ms, n) {
      TextStartsAtEnd(ms, n + 1, p, sources, names);
    }
  }

  lemma SegmentNotAtEnd(fields: seq<int>, rest: string)
    requires fields != []
    ensures !AtEnd(Written(fields) + rest)
  {
    assert (Written(fields) + rest)[0] == Encoded(fields[0])[0];
  }

  lemma SameFront(m: Mapping, rest: Parsed, m': Mapping, ms: seq<Mapping>)
    ensures Behind([m], rest) == Parsed([m'] + ms) <==> m == m' && rest == Parsed(ms)
  {
    if rest.Parsed? && [m] + rest.mappings == [m'] + ms {
      assert ([m] + rest.mappings)[0] == m && ([m'] + ms)[0] == m';
      assert rest.mappings == ([m] + rest.mappings)[1..] == ([m'] + ms)[1..] == ms;
    }
  }

  /** The text of one mapping, and what follows, come back exactly if the differences fit and what follows does. */
  lemma OneMappingComesBack(m: Mapping, n: nat, p: Previous, rest: string, ms: seq<Mapping>,
                            sources: seq<string>, names: seq<string>)
    requires Listed(m, sources, names) && NoDuplicates(sources) && NoDuplicates(names)
    requires p.line <= m.line && AtEnd(rest)
    ensures var q := InLine(p, m.line);
      var fields := Fields(q, m, sources, names);
      ParsedFrom(Separator(m, n, p) + Written(fields) + rest, p, sources, names) == Parsed([m.Canonical()] + ms) <==>
      (forall f <- fields :: Fits(f)) && ParsedFrom(rest, Then(q, m, sources, names), sources, names) == Parsed(ms)
  {
    var q := InLine(p, m.line);
    var fields := Fields(q, m, sources, names);
    assert Separator(m, n, p) + Written(fields) + rest == Separator(m, n, p) + (Written(fields) + rest);
    SeparatorIsReadBack(m, n, p, Written(fields) + rest, sources, names);
    SegmentNotAtEnd(fields, rest);
    SegmentIsReadBack(fields, rest, q, sources, names);
    MappingComesBack(q, m, rest, sources, names);
    var s := SegmentOf(Written(fields) + rest, q, sources, names);
    if s.Segment? {
      SameFront(s.mapping, ParsedFrom(s.rest, s.previous, sources, names), m.Canonical(), ms);
    }
  }

  /** Parsing the rest of a text gives the rest of the mappings back exactly if all differences in it fit. */
  predicate ComesBack(ms: seq<Mapping>, n: nat, p: Previous, sources: seq<string>, names: seq<string>)
    requires Resumes(ms, n, p) && AllListed(ms, sources, names)
  {
    ParsedFrom(TextFrom(ms, n, p, sources, names), p, sources, names) == Parsed(Kept(ms, n)) <==>
    AllFit(ms, n, p, sources, names)
  }

  lemma RepetitionComesBack(ms: seq<Mapping>, n: nat, p: Previous, sources: seq<string>, names: seq<string>)
    requires Resumes(ms, n, p) && AllListed(ms, sources, names) && n < |ms| && Repeated(ms, n)
    requires Resumes(ms, n + 1, p) && ComesBack(ms, n + 1, p, sources, names)
    ensures ComesBack(ms, n, p, sources, names)
  {
  }

  lemma NextComesBack(ms: seq<Mapping>, n: nat, p: Previous, sources: seq<string>, names: seq<string>, after: Previous)
    requires Resumes(ms, n, p) && AllListed(ms, sources, names) && NoDuplicates(sources) && NoDuplicates(names)
    requires n < |ms| && !Repeated(ms, n) && after == Then(InLine(p, ms[n].line), ms[n], sources, names)
    requires Resumes(ms, n + 1, after) && ComesBack(ms, n + 1, after, sources, names)
    ensures ComesBack(ms, n, p, sources, names)
  {
    TextStartsAtEnd(ms, n + 1, after, sources, names);
    OneMappingComesBack(ms[n], n, p, TextFrom(ms, n + 1, after, sources, names), Kept(ms, n + 1), sources, names);
  }

  lemma {:induction false} TextComesBack(ms: seq<Mapping>, n: nat, p: Previous, sources: seq<string>,
                                         names: seq<string>)
    requires Resumes(ms, n, p) && AllListed(ms, sources, names) && NoDuplicates(sources) && NoDuplicates(names)
    ensures ComesBack(ms, n, p, sources, names)
    decreases |ms| - n
  {
    if n < |ms| {
      if Repeated(ms, n) {
        TextComesBack(ms, n + 1, p, sources, names);
        RepetitionComesBack(ms, n, p, sources, names);
      } else {
        var after := Then(InLine(p, ms[n].line), ms[n], sources, names);
        TextComesBack(ms, n + 1, after, sources, names);
        NextComesBack(ms, n, p, sources, names, after);
      }
    }
  }

  /** The text of a whole map. */
  function Text(ms: seq<Mapping>, sources: seq<string>, names: seq<string>): string
    requires Sorted(ms) && AllListed(ms, sources, names)
  {
    TextFrom(ms, 0, START, sources, names)
  }

  lemma TextStarts(ms: seq<Mapping>, sources: seq<string>, names: seq<string>)
    requires Sorted(ms) && AllListed(ms, sources, names)
    ensures Text(ms, sources, names) == TextFrom(ms, 0, Previous(1, 0, 0, 0, 0, 0), sources, names)
  {
  }

  /**
   Parsing a serialised map gives back its mappings, in order and without repetitions, exactly if all the
   differences between them are below 2^30 in magnitude.
   */
  lemma MapComesBack(ms: seq<Mapping>, sources: seq<string>, names: seq<string>)
    requires Sorted(ms) && AllListed(ms, sources, names) && NoDuplicates(sources) && NoDuplicates(names)
    ensures ParsedFrom(Text(ms, sources, names), START, sources, names) == Parsed(Kept(ms, 0)) <==>
      AllFit(ms, 0, START, sources, names)
  {
    TextComesBack(ms, 0, START, sources, names);
  }

  /** A mapping with short lines and columns. */
  predicate Short(m: Mapping) {
    m.column < 0x4000_0000 && m.OriginalLine() <= 0x4000_0000 && m.OriginalColumn() < 0x4000_0000
  }

  /** Lines, columns and lists that are short enough for all differences to fit. */
  predicate Small(ms: seq<Mapping>, sources: seq<string>, names: seq<string>) {
    |sources| <= 0x4000_0000 && |names| <= 0x4000_0000 && forall i | 0 <= i < |ms| :: Short(ms[i])
  }

  predicate Within30Bits(p: Previous) {
    0 <= p.column < 0x4000_0000 && 0 <= p.source < 0x4000_0000 && 0 <= p.originalLine < 0x4000_0000 &&
    0 <= p.originalColumn < 0x4000_0000 && 0 <= p.name < 0x4000_0000
  }

  lemma ShortFits(p: Previous, m: Mapping, sources: seq<string>, names: seq<string>)
    requires Listed(m, sources, names) && Within30Bits(p) && Short(m)
    requires |sources| <= 0x4000_0000 && |names| <= 0x4000_0000
    ensures Within30Bits(Then(p, m, sources, names)) && forall f <- Fields(p, m, sources, names) :: Fits(f)
  {
  }

  lemma {:induction false} SmallFits(ms: seq<Mapping>, n: nat, p: Previous, sources: seq<string>, names: seq<string>)
    requires Resumes(ms, n, p) && AllListed(ms, sources, names) && Small(ms, sources, names) && Within30Bits(p)
    ensures AllFit(ms, n, p, sources, names)
    decreases |ms| - n
  {
    if n < |ms| {
      if Repeated(ms, n) {
        SmallFits(ms, n + 1, p, sources, names);
      } else {
        var q := InLine(p, ms[n].line);
        ShortFits(q, ms[n], sources, names);
        SmallFits(ms, n + 1, Then(q, ms[n], sources, names), sources, names);
      }
    }
  }

  lemma StrictNotRepeated(ms: seq<Mapping>, n: nat)
    requires n < |ms| && StrictlySorted(ms)
    ensures !Repeated(ms, n)
  {
    if n > 0 {
      CompareAntisymmetric(ms[n - 1], ms[n]);
    }
  }

  lemma {:induction false} StrictKeptAt(ms: seq<Mapping>, n: nat, i: nat)
    requires n <= |ms| && StrictlySorted(ms)
    ensures |Kept(ms, n)| == |ms| - n
    ensures i < |ms| - n ==> Kept(ms, n)[i] == ms[n + i].Canonical()
    decreases |ms| - n
  {
    if n < |ms| {
      StrictNotRepeated(ms, n);
      StrictKeptAt(ms, n + 1, if i > 0 then i - 1 else 0);
    }
  }

  /** A mapping list without two mappings at one position comes back whole. */
  lemma StrictKept(ms: seq<Mapping>)
    requires StrictlySorted(ms)
    ensures |Kept(ms, 0)| == |ms|
    ensures forall i | 0 <= i < |ms| :: Kept(ms, 0)[i] == ms[i].Canonical()
  {
    StrictKeptAt(ms, 0, 0);
    forall i | 0 <= i < |ms|
      ensures Kept(ms, 0)[i] == ms[i].Canonical()
    {
      StrictKeptAt(ms, 0, i);
    }
  }
}

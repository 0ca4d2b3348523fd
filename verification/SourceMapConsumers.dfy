/**
 `SourceMapConsumer`, defaults/JSXTransformer.js:10469-10508, 10607-10683 and 10689-10756.
 */
module SourceMapConsumers {
  import opened ArraySets
  import opened Base64Vlq
  import opened Mappings
  import opened MappingText
  import opened Options
  import opened PositionSearch

  /** What a lookup gives: the original of a position, if it has one, or what was thrown. */
  datatype Answer = Found(original: Option<Original>) | BadText(fault: Fault) | BadLine | BadColumn

  /** The mapping that the binary search takes for the position, and its original. */
  function Lookup(ms: seq<Mapping>, line: int, column: int): Option<Original> {
    match Search(ms, m => CompareGenerated(Mapping(line, column, None), m))
    case Some(m) => m.original
    case None => None
  }

  /** The original of the last mapping that is not behind the position. */
  function LastOriginal(ms: seq<Mapping>, line: int, column: int): Option<Original> {
    if ms == [] then None
    else if CompareGenerated(ms[|ms| - 1], Mapping(line, column, None)) <= 0 then ms[|ms| - 1].original
    else LastOriginal(ms[..|ms| - 1], line, column)
  }

  /** That is the last mapping in an earlier line, or in the same line at no later column. */
  lemma {:induction false} LastOriginalIs(ms: seq<Mapping>, line: int, column: int, n: nat)
    requires n <= |ms|
    requires forall i | n <= i < |ms| :: ms[i].line > line || (ms[i].line == line && ms[i].column > column)
    requires n > 0 ==> ms[n - 1].line < line || (ms[n - 1].line == line && ms[n - 1].column <= column)
    ensures LastOriginal(ms, line, column) == if n == 0 then None else ms[n - 1].original
    decreases |ms|
  {
    if n < |ms| {
      LastOriginalIs(ms[..|ms| - 1], line, column, n);
    }
  }

  /** Looking a position up finds the mapping whose region it is in, if no two mappings share a position. */
  lemma LookupFindsRegion(ms: seq<Mapping>, line: int, column: int)
    requires StrictlySorted(ms)
    ensures Lookup(ms, line, column) == LastOriginal(ms, line, column)
  {
    var c := m => CompareGenerated(Mapping(line, column, None), m);
    SearchIsLinearScan(ms, c);
    RegionIsLinearScan(ms, line, column, c);
  }

  lemma {:induction false} RegionIsLinearScan(ms: seq<Mapping>, line: int, column: int, c: Mapping -> int)
    requires forall m :: c(m) == CompareGenerated(Mapping(line, column, None), m)
    ensures LastOriginal(ms, line, column) ==
      var found := LastNotAbove(ms, c);
      if found.Some? then found.value.original else None
  {
    if ms != [] && c(ms[|ms| - 1]) < 0 {
      RegionIsLinearScan(ms[..|ms| - 1], line, column, c);
    }
  }

  class SourceMapConsumer {
    const sources: ArraySet
    const names: ArraySet
    const text: string
    /** Nothing before the first lookup. */
    var generatedMappings: Option<seq<Mapping>>

    ghost predicate Valid()
      reads sources, names
    {
      sources.Valid() && names.Valid()
    }

    /** A consumer of a serialised map. */
    constructor (sources: seq<string>, names: seq<string>, text: string)
      ensures Valid() && fresh(this.sources) && fresh(this.names)
      ensures this.sources.list == sources && this.names.list == names && this.text == text && generatedMappings == None
    {
      this.sources := new ArraySet();
      this.names := new ArraySet();
      this.text := text;
      generatedMappings := None;
      new;
      this.names.FromList(names);
      this.sources.FromList(sources);
    }

    /** Reads one segment. */
    method ParseSegment(str: string, p: Previous) returns (s: Segment)
      ensures s == SegmentOf(str, p, sources.list, names.list)
    {
      var temp := Decode(str);
      if temp.Failed? { return BadSegment(BadNumber(temp.failure)); }
      var p', rest := p.(column := p.column + temp.value), temp.rest;
      var m := Mapping(p'.line, p'.column, None);
      if !AtEnd(rest) {
        temp := Decode(rest);
        if temp.Failed? { return BadSegment(BadNumber(temp.failure)); }
        var source := sources.At(p'.source + temp.value);
        if source.None? { return BadSegment(NoElement(p'.source + temp.value)); }
        p', rest := p'.(source := p'.source + temp.value), temp.rest;
        if AtEnd(rest) { return BadSegment(NoLineAndColumn); }

        temp := Decode(rest);
        if temp.Failed? { return BadSegment(BadNumber(temp.failure)); }
        p', rest := p'.(originalLine := p'.originalLine + temp.value), temp.rest;
        if AtEnd(rest) { return BadSegment(NoColumn); }

        temp := Decode(rest);
        if temp.Failed? { return BadSegment(BadNumber(temp.failure)); }
        p', rest := p'.(originalColumn := p'.originalColumn + temp.value), temp.rest;
        m := m.(original := Some(Original(source.value, p'.originalLine + 1, p'.originalColumn, None)));

        if !AtEnd(rest) {
          temp := Decode(rest);
          if temp.Failed? { return BadSegment(BadNumber(temp.failure)); }
          var name := names.At(p'.name + temp.value);
          if name.None? { return BadSegment(NoElement(p'.name + temp.value)); }
          p', rest := p'.(name := p'.name + temp.value), temp.rest;
          m := m.(original := Some(m.original.value.(name := name)));
        }
      }
      return Segment(m, rest, p');
    }

    /** Reads the text of the map; after a fault, the mappings read before it stay. */
    method ParseMappings() returns (fault: Option<Fault>)
      modifies this
      ensures var parsed := ParsedFrom(text, START, sources.list, names.list);
        && generatedMappings == Some(parsed.mappings)
        && fault == if parsed.Broken? then Some(parsed.fault) else None
    {
      var mappings, str, p := [], text, START;
      while |str| > 0
        invariant Behind(mappings, ParsedFrom(str, p, sources.list, names.list)) ==
          ParsedFrom(text, START, sources.list, names.list)
        decreases |str|
      {
        if str[0] == ';' {
          p := p.(line := p.line + 1, column := 0);
          str := str[1..];
        } else if str[0] == ',' {
          str := str[1..];
        } else {
          var s := ParseSegment(str, p);
          if s.BadSegment? {
            assert mappings + [] == mappings;
            generatedMappings := Some(mappings);
            return Some(s.fault);
          }
          BehindBehind(mappings, s.mapping, ParsedFrom(s.rest, s.previous, sources.list, names.list));
          mappings, str, p := mappings + [s.mapping], s.rest, s.previous;
        }
      }
      assert mappings + [] == mappings;
      generatedMappings := Some(mappings);
      return None;
    }

    /** The original of a position in the generated code. */
    method OriginalPositionFor(line: int, column: int) returns (r: Answer)
      modifies this
      ensures var parsed := ParsedFrom(text, START, sources.list, names.list);
        var ms := if old(generatedMappings).Some? then old(generatedMappings).value else parsed.mappings;
        && generatedMappings == Some(ms)
        && r == if old(generatedMappings).None? && parsed.Broken? then BadText(parsed.fault)
                else if line <= 0 then BadLine
                else if column < 0 then BadColumn
                else Found(Lookup(ms, line, column))
    {
      if generatedMappings.None? {
        var fault := ParseMappings();
        if fault.Some? {
          return BadText(fault.value);
        }
      }
      if line <= 0 {
        return BadLine;
      }
      if column < 0 {
        return BadColumn;
      }
      return Found(Lookup(generatedMappings.value, line, column));
    }
  }

  lemma BehindBehind(ms: seq<Mapping>, m: Mapping, rest: Parsed)
    ensures Behind(ms + [m], rest) == Behind(ms, Behind([m], rest))
  {
    assert (ms + [m]) + rest.mappings == ms + ([m] + rest.mappings);
  }

  /**
   What a consumer of a serialised map finds: for mappings at different positions, and differences that fit,
   the region each position is in.
   */
  lemma SerialisedMapIsFound(ms: seq<Mapping>, sources: seq<string>, names: seq<string>)
    requires StrictlySorted(ms) && Sorted(ms) && AllListed(ms, sources, names)
    requires NoDuplicates(sources) && NoDuplicates(names)
    requires AllFit(ms, 0, START, sources, names)
    ensures var parsed := ParsedFrom(Text(ms, sources, names), START, sources, names);
      && parsed.Parsed? && |parsed.mappings| == |ms|
      && (forall i | 0 <= i < |ms| :: parsed.mappings[i] == ms[i].Canonical())
      && StrictlySorted(parsed.mappings)
  {
    MapComesBack(ms, sources, names);
    StrictKept(ms);
    assert StrictlySorted(Kept(ms, 0)) by {
      forall i, j | 0 <= i < j < |ms|
        ensures CompareGenerated(Kept(ms, 0)[i], Kept(ms, 0)[j]) < 0
      {
        assert Kept(ms, 0)[i] == ms[i].Canonical() && Kept(ms, 0)[j] == ms[j].Canonical();
      }
    }
  }
}

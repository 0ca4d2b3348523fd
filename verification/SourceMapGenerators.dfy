/**
 `SourceMapGenerator`, defaults/JSXTransformer.js:10925-10932, 10993-11018 and 11135-11230.
 */
module SourceMapGenerators {
  import opened ArraySets
  import opened Base64Vlq
  import opened GeneratedPositions
  import opened Mappings
  import opened MappingText
  import opened Options

  function Truthy(s: Option<string>): bool {
    s.Some? && s.value != ""
  }

  /** The mapping that `addMapping` adds, or nothing where `_validateMapping` throws. */
  function Accepted(generated: Position, original: Option<Position>, source: Option<string>,
                    name: Option<string>): (r: Option<Mapping>)
    ensures r.Some? ==> r.value.Valid()
  {
    if generated.line > 0 && generated.column >= 0 && original.None? && !Truthy(source) && !Truthy(name) then
      Some(Mapping(generated.line, generated.column, None))
    else if original.Some? && generated.line > 0 && generated.column >= 0 && original.value.line > 0 &&
      original.value.column >= 0 && Truthy(source) then
      Some(Mapping(generated.line, generated.column,
        Some(Original(source.value, original.value.line, original.value.column, name))))
    else None
  }

  /** The sources after the mapping has been added. */
  function WithSource(sources: seq<string>, m: Mapping): (r: seq<string>)
    ensures sources <= r
  {
    if m.original.Some? then Added(sources, m.Source()) else sources
  }

  /** The names after the mapping has been added. */
  function WithName(names: seq<string>, m: Mapping): (r: seq<string>)
    ensures names <= r
  {
    if m.Name() != "" then Added(names, m.Name()) else names
  }

  lemma AllListedGrows(ms: seq<Mapping>, sources: seq<string>, names: seq<string>,
                       sources': seq<string>, names': seq<string>, m: Mapping)
    requires AllListed(ms, sources, names) && sources <= sources' && names <= names' && Listed(m, sources', names')
    ensures AllListed(ms + [m], sources', names')
  {
    forall i | 0 <= i < |ms|
      ensures Listed(ms[i], sources', names')
    {
      assert Listed(ms[i], sources, names);
    }
  }

  lemma {:induction false} WrittenLast(fields: seq<int>, value: int)
    ensures Written(fields + [value]) == Written(fields) + Encoded(value)
  {
    if fields == [] {
      assert fields + [value] == [value];
      assert Written([value]) == Encoded(value) + Written([]);
    } else {
      assert (fields + [value])[1..] == fields[1..] + [value];
      WrittenLast(fields[1..], value);
    }
  }

  /** Adds a string, if there is one, to the set. */
  method AddIfMissing(strings: ArraySet, s: Option<string>)
    requires strings.Valid()
    modifies strings
    ensures strings.Valid() && (old(NoDuplicates(strings.list)) ==> NoDuplicates(strings.list))
    ensures strings.list == if Truthy(s) then Added(old(strings.list), s.value) else old(strings.list)
  {
    if Truthy(s) && !strings.Has(s.value) {
      if NoDuplicates(strings.list) {
        AddedOnce(strings.list, s.value);
      }
      strings.Add(s.value, false);
    }
  }

  lemma PermutationListed(ms: seq<Mapping>, sorted: seq<Mapping>, sources: seq<string>, names: seq<string>)
    requires AllListed(ms, sources, names) && multiset(sorted) == multiset(ms)
    ensures AllListed(sorted, sources, names)
  {
    forall i | 0 <= i < |sorted|
      ensures Listed(sorted[i], sources, names)
    {
      assert sorted[i] in multiset(ms);
    }
  }

  class SourceMapGenerator {
    const sources: ArraySet
    const names: ArraySet
    var mappings: seq<Mapping>

    /** The mappings are valid, and their sources and names are listed, each once. */
    ghost predicate Valid()
      reads this, sources, names
    {
      && sources != names && sources.Valid() && names.Valid()
      && NoDuplicates(sources.list) && NoDuplicates(names.list)
      && AllListed(mappings, sources.list, names.list)
    }

    constructor ()
      ensures Valid() && mappings == [] && sources.list == [] && names.list == []
      ensures fresh(sources) && fresh(names)
    {
      sources := new ArraySet();
      names := new ArraySet();
      mappings := [];
    }

    /** Adds a mapping, unless it is invalid; then the code throws and nothing changes. */
    method AddMapping(generated: Position, original: Option<Position>, source: Option<string>, name: Option<string>)
      returns (ok: bool)
      requires Valid()
      modifies this, sources, names
      ensures Valid()
      ensures ok == Accepted(generated, original, source, name).Some?
      ensures ok ==>
        var m := Accepted(generated, original, source, name).value;
        mappings == old(mappings) + [m] &&
        sources.list == WithSource(old(sources.list), m) && names.list == WithName(old(names.list), m)
      ensures !ok ==> unchanged(this) && unchanged(sources) && unchanged(names)
    {
      var accepted := Accepted(generated, original, source, name);
      if accepted.None? {
        return false;
      }
      var m := accepted.value;
      AddIfMissing(sources, source);
      AddIfMissing(names, name);
      AllListedGrows(mappings, old(sources.list), old(names.list), sources.list, names.list, m);
      mappings := mappings + [m];
      return true;
    }

    /** Writes a number and notes it in the list of those written. */
    method Append(text: string, value: int, ghost fields: seq<int>) returns (text': string, ghost fields': seq<int>)
      requires text == Written(fields)
      ensures text' == text + Encoded(value)
      ensures text' == Written(fields') && fields' == fields + [value]
    {
      var encoded := Encode(value);
      WrittenLast(fields, value);
      text', fields' := text + encoded, fields + [value];
    }

    /** Writes the segment of one mapping. */
    method WriteSegment(m: Mapping, p: Previous) returns (text: string, p': Previous)
      requires sources.Valid() && names.Valid() && Listed(m, sources.list, names.list)
      ensures text == Written(Fields(p, m, sources.list, names.list)) && p' == Then(p, m, sources.list, names.list)
    {
      ghost var fields := [];
      p', text := p, "";
      text, fields := Append(text, m.column - p'.column, fields);
      p' := p'.(column := m.column);
      if m.original.Some? {
        text, p', fields := WriteOriginal(m, p', text, fields);
      }
      FirstField(m.column - p.column, OriginalFields(p, m, sources.list, names.list));
    }

    /** Writes the numbers for the original of a mapping. */
    method WriteOriginal(m: Mapping, p: Previous, before: string, ghost written: seq<int>)
      returns (text: string, p': Previous, ghost fields: seq<int>)
      requires sources.Valid() && names.Valid() && Listed(m, sources.list, names.list)
      requires m.original.Some? && p.column == m.column
      requires before == Written(written)
      ensures text == Written(fields) && p' == Then(p, m, sources.list, names.list)
      ensures fields == written + OriginalFields(p, m, sources.list, names.list)
    {
      p', text, fields := p, before, written;
      var o := m.original.value;
      var source := sources.IndexOf(o.source).value;
      text, fields := Append(text, source - p'.source, fields);
      p' := p'.(source := source);
      text, fields := Append(text, o.line - 1 - p'.originalLine, fields);
      p' := p'.(originalLine := o.line - 1);
      text, fields := Append(text, o.column - p'.originalColumn, fields);
      p' := p'.(originalColumn := o.column);
      text, p', fields := WriteName(m, p', text, fields);
      OriginalFieldsAre(p, m, sources.list, names.list, p');
      OneByOne(written, source - p.source, o.line - 1 - p.originalLine, o.column - p.originalColumn,
        if m.Name() == "" then [] else [p'.name - p.name]);
    }

    /** Writes the number for the name, if there is one. */
    method WriteName(m: Mapping, p: Previous, before: string, ghost written: seq<int>)
      returns (text: string, p': Previous, ghost fields: seq<int>)
      requires sources.Valid() && names.Valid() && Listed(m, sources.list, names.list) && m.original.Some?
      requires before == Written(written)
      ensures text == Written(fields)
      ensures p' == if m.Name() == "" then p else p.(name := FirstIndex(names.list, m.Name()))
      ensures fields == written + if m.Name() == "" then [] else [p'.name - p.name]
    {
      p', text, fields := p, before, written;
      var o := m.original.value;
      if Truthy(o.name) {
        var name := names.IndexOf(o.name.value).value;
        text, fields := Append(text, name - p'.name, fields);
        p' := p'.(name := name);
      }
    }

    /** Writes what stands for the i-th mapping, if it is not a repetition. */
    method WriteMapping(ms: seq<Mapping>, i: nat, p: Previous, result: string) returns (result': string, p': Previous)
      requires Valid() && AllListed(ms, sources.list, names.list) && Resumes(ms, i, p) && i < |ms|
      ensures Resumes(ms, i + 1, p')
      ensures result' + TextFrom(ms, i + 1, p', sources.list, names.list)
           == result + TextFrom(ms, i, p, sources.list, names.list)
    {
      var m := ms[i];
      var separator, q := "", p;
      if m.line != p.line {
        separator, q := BreakLines(p, m.line);
      } else if i > 0 {
        if Compare(m, ms[i - 1]) == 0 {
          return result, p;
        }
        separator := ",";
      }
      var segment;
      segment, p' := WriteSegment(m, q);
      TextNext(ms, i, p, sources.list, names.list, result);
      result' := result + separator + segment;
    }

    /** Writes the text of the map; `sorted` is what the sort of the mappings gives. */
    method SerializeMappings(sorted: seq<Mapping>) returns (result: string)
      requires Valid() && Sorted(sorted) && multiset(sorted) == multiset(mappings)
      modifies this
      ensures Valid() && mappings == sorted && result == Text(sorted, sources.list, names.list)
    {
      PermutationListed(mappings, sorted, sources.list, names.list);
      mappings := sorted;
      var p := START;
      result := "";
      for i := 0 to |sorted|
        invariant Valid() && mappings == sorted && Resumes(sorted, i, p)
        invariant result + TextFrom(sorted, i, p, sources.list, names.list) == Text(sorted, sources.list, names.list)
      {
        result, p := WriteMapping(sorted, i, p, result);
      }
    }
  }

  lemma TextNext(ms: seq<Mapping>, i: nat, p: Previous, sources: seq<string>, names: seq<string>, result: string)
    requires Resumes(ms, i, p) && AllListed(ms, sources, names) && i < |ms| && !Repeated(ms, i)
    ensures var m, q := ms[i], InLine(p, ms[i].line);
      result + TextFrom(ms, i, p, sources, names) ==
      result + Separator(m, i, p) + Written(Fields(q, m, sources, names)) +
      TextFrom(ms, i + 1, Then(q, m, sources, names), sources, names)
  {
    var m, q := ms[i], InLine(p, ms[i].line);
    Joined(result, Separator(m, i, p), Written(Fields(q, m, sources, names)),
      TextFrom(ms, i + 1, Then(q, m, sources, names), sources, names));
  }

  lemma OriginalFieldsAre(p: Previous, m: Mapping, sources: seq<string>, names: seq<string>, q: Previous)
    requires Listed(m, sources, names) && m.original.Some? && q == Then(p, m, sources, names)
    ensures OriginalFields(p, m, sources, names) ==
      [q.source - p.source, q.originalLine - p.originalLine, q.originalColumn - p.originalColumn] +
      if m.Name() == "" then [] else [q.name - p.name]
  {
  }

  lemma FirstField(first: int, more: seq<int>)
    ensures [] + [first] == [first] && [first] + [] == [first] && [] + [first] + more == [first] + more
  {
  }

  lemma OneByOne(fields: seq<int>, a: int, b: int, c: int, more: seq<int>)
    ensures fields + [a] + [b] + [c] + more == fields + ([a, b, c] + more)
  {
  }

  lemma Joined(a: string, b: string, c: string, d: string)
    ensures a + (b + c + d) == a + b + c + d
  {
  }

  lemma {:induction false} OneMoreBreak(n: nat)
    ensures LineBreaks(n) + ";" == LineBreaks(n + 1)
  {
    if n > 0 {
      OneMoreBreak(n - 1);
    }
  }

  /** Writes as many line breaks as lead to the line. */
  method BreakLines(p: Previous, line: int) returns (text: string, p': Previous)
    requires p.line < line
    ensures text == LineBreaks(line - p.line) && p' == InLine(p, line)
  {
    p', text := p.(column := 0), "";
    while line != p'.line
      invariant p.line <= p'.line <= line && p' == p.(line := p'.line, column := 0)
      invariant text == LineBreaks(p'.line - p.line)
      decreases line - p'.line
    {
      OneMoreBreak(p'.line - p.line);
      text := text + ";";
      p' := p'.(line := p'.line + 1);
    }
  }
}

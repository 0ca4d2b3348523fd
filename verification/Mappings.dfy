/**
 Source map mappings and their order, defaults/JSXTransformer.js:11774-11857.
 */
module Mappings {
  import opened Options

  /** Where a piece of generated code comes from. */
  datatype Original = Original(source: string, line: int, column: int, name: Option<string>)

  /** From a generated position on, up to the next mapping, the code comes from the original, if there is one. */
  datatype Mapping = Mapping(line: int, column: int, original: Option<Original>) {
    /** What the comparator sees: a missing name or source counts as "", a missing position as 0. */
    function Source(): string {
      if original.Some? then original.value.source else ""
    }

    function Name(): string {
      if original.Some? && original.value.name.Some? then original.value.name.value else ""
    }

    function OriginalLine(): int {
      if original.Some? then original.value.line else 0
    }

    function OriginalColumn(): int {
      if original.Some? then original.value.column else 0
    }

    /** What `_validateMapping` accepts, defaults/JSXTransformer.js:11135-11160. */
    predicate Valid() {
      line > 0 && column >= 0 &&
      (original.Some? ==> original.value.line > 0 && original.value.column >= 0 && original.value.source != "")
    }

    /** The mapping as a serialised map can express it: without empty names. */
    function Canonical(): Mapping {
      if Name() == "" && original.Some? then this.(original := Some(original.value.(name := None))) else this
    }
  }

  function CompareStrings(a: string, b: string): (cmp: int)
    ensures cmp == 0 <==> a == b
  {
    if a == "" || b == "" then |a| - |b|
    else if a[0] != b[0] then a[0] as int - b[0] as int
    else CompareStrings(a[1..], b[1..])
  }

  /** Strings are ordered by the first place where they differ; a string comes before the longer ones it starts. */
  lemma {:induction false} StringsInOrder(a: string, b: string, k: nat)
    requires k <= |a| && k <= |b| && a[..k] == b[..k]
    requires k == |a| || k == |b| || a[k] != b[k]
    ensures CompareStrings(a, b) < 0 <==> k < |b| && (k == |a| || a[k] < b[k])
  {
    if k > 0 {
      assert a[..k][0] == b[..k][0] && a[1..][..k - 1] == a[..k][1..] && b[1..][..k - 1] == b[..k][1..];
      StringsInOrder(a[1..], b[1..], k - 1);
    }
  }

  function CompareGenerated(a: Mapping, b: Mapping): int {
    if a.line != b.line then a.line - b.line else a.column - b.column
  }

  function CompareOriginals(a: Mapping, b: Mapping): int {
    var source := CompareStrings(a.Source(), b.Source());
    if source != 0 then source
    else if a.OriginalLine() != b.OriginalLine() then a.OriginalLine() - b.OriginalLine()
    else if a.OriginalColumn() != b.OriginalColumn() then a.OriginalColumn() - b.OriginalColumn()
    else CompareStrings(a.Name(), b.Name())
  }

  function Compare(a: Mapping, b: Mapping): int {
    if CompareGenerated(a, b) != 0 then CompareGenerated(a, b) else CompareOriginals(a, b)
  }

  /** The order of mappings: by line, column, source, original line, original column, and name. */
  lemma InOrderExactly(a: Mapping, b: Mapping)
    requires a.original.Some? && b.original.Some? && a.original.value.name.Some? && b.original.value.name.Some?
    ensures var o, q := a.original.value, b.original.value;
      var source, name := CompareStrings(o.source, q.source), CompareStrings(o.name.value, q.name.value);
      Compare(a, b) < 0 <==>
        || a.line < b.line
        || (a.line == b.line && a.column < b.column)
        || (a.line == b.line && a.column == b.column && source < 0)
        || (a.line == b.line && a.column == b.column && source == 0 && o.line < q.line)
        || (a.line == b.line && a.column == b.column && source == 0 && o.line == q.line && o.column < q.column)
        || (a.line == b.line && a.column == b.column && source == 0 && o.line == q.line && o.column == q.column &&
            name < 0)
  {
  }

  /** A missing original is ordered as if it had no source, line and column 0 and no name; a missing name is empty. */
  lemma MissingIsEmpty(a: Mapping, b: Mapping)
    ensures a.original.None? ==>
      Compare(a, b) == Compare(a.(original := Some(Original("", 0, 0, Some("")))), b)
    ensures a.original.Some? && a.original.value.name.None? ==>
      Compare(a, b) == Compare(a.(original := Some(a.original.value.(name := Some("")))), b)
  {
  }

  /** Serialised, an empty name is none; nothing else changes. */
  lemma CanonicalIs(m: Mapping)
    ensures m.Canonical().line == m.line && m.Canonical().column == m.column
    ensures m.Canonical().original ==
      if m.original.Some? && m.original.value.name == Some("")
      then Some(m.original.value.(name := None)) else m.original
  {
  }

  // ---------- a consistent order ----------

  lemma {:induction false} StringsAntisymmetric(a: string, b: string)
    ensures CompareStrings(a, b) < 0 <==> CompareStrings(b, a) > 0
  {
    if a != "" && b != "" {
      StringsAntisymmetric(a[1..], b[1..]);
    }
  }

  lemma {:induction false} StringsTransitive(a: string, b: string, c: string)
    ensures CompareStrings(a, b) <= 0 && CompareStrings(b, c) <= 0 ==> CompareStrings(a, c) <= 0
  {
    if a != "" && b != "" && c != "" {
      StringsTransitive(a[1..], b[1..], c[1..]);
    }
  }

  /** Mappings the comparator takes for the same become the same once serialised. */
  lemma CompareSame(a: Mapping, b: Mapping)
    requires a.Valid() && b.Valid()
    ensures Compare(a, b) == 0 <==> a.Canonical() == b.Canonical()
  {
  }

  lemma CompareAntisymmetric(a: Mapping, b: Mapping)
    ensures Compare(a, b) < 0 <==> Compare(b, a) > 0
  {
    StringsAntisymmetric(a.Source(), b.Source());
    StringsAntisymmetric(a.Name(), b.Name());
  }

  lemma OriginalsTransitive(a: Mapping, b: Mapping, c: Mapping)
    requires CompareOriginals(a, b) <= 0 && CompareOriginals(b, c) <= 0
    ensures CompareOriginals(a, c) <= 0
  {
    StringsTransitive(a.Source(), b.Source(), c.Source());
    StringsTransitive(a.Name(), b.Name(), c.Name());
    StringsTransitive(b.Source(), c.Source(), a.Source());
    StringsTransitive(c.Source(), a.Source(), b.Source());
    StringsAntisymmetric(a.Source(), c.Source());
    StringsAntisymmetric(b.Source(), a.Source());
    StringsAntisymmetric(c.Source(), b.Source());
  }

  lemma CompareTransitive(a: Mapping, b: Mapping, c: Mapping)
    requires Compare(a, b) <= 0 && Compare(b, c) <= 0
    ensures Compare(a, c) <= 0
  {
    if CompareGenerated(a, b) == 0 && CompareGenerated(b, c) == 0 {
      OriginalsTransitive(a, b, c);
    }
  }

  predicate Sorted(ms: seq<Mapping>) {
    forall i, j | 0 <= i < j < |ms| :: Compare(ms[i], ms[j]) <= 0
  }

  predicate StrictlySorted(ms: seq<Mapping>) {
    forall i, j | 0 <= i < j < |ms| :: CompareGenerated(ms[i], ms[j]) < 0
  }
}

/**
 A list of strings with an index, defaults/JSXTransformer.js:10070-10145.
 */
module ArraySets {
  import opened Options

  /** The first place of the string in the list. */
  function FirstIndex(list: seq<string>, s: string): (i: nat)
    requires s in list
    ensures i < |list| && list[i] == s
  {
    if list[0] == s then 0 else 1 + FirstIndex(list[1..], s)
  }

  lemma {:induction false} FirstIndexIs(list: seq<string>, s: string, i: nat)
    requires i < |list| && list[i] == s && s !in list[..i]
    ensures FirstIndex(list, s) == i
  {
    if i > 0 {
      assert list[..i][0] == list[0];
      assert list[1..][..i - 1] == list[..i][1..];
      FirstIndexIs(list[1..], s, i - 1);
    }
  }

  lemma {:induction false} FirstIndexFirst(list: seq<string>, s: string)
    requires s in list
    ensures s !in list[..FirstIndex(list, s)]
  {
    if list[0] != s {
      FirstIndexFirst(list[1..], s);
      assert list[..FirstIndex(list, s)] == [list[0]] + list[1..][..FirstIndex(list[1..], s)];
    }
  }

  /** Every string of the list stands in its first place. */
  predicate NoDuplicates(list: seq<string>) {
    forall i | 0 <= i < |list| :: FirstIndex(list, list[i]) == i
  }

  function Added(list: seq<string>, s: string): (r: seq<string>)
    ensures list <= r && s in r
  {
    if s in list then list else list + [s]
  }

  /** A string keeps its index when others are added. */
  lemma IndexStays(list: seq<string>, longer: seq<string>, s: string)
    requires list <= longer && s in list
    ensures FirstIndex(longer, s) == FirstIndex(list, s)
  {
    var i := FirstIndex(list, s);
    assert longer[..i] == list[..i];
    FirstIndexFirst(list, s);
    FirstIndexIs(longer, s, i);
  }

  /** Adding a string makes no duplicate. */
  lemma AddedOnce(list: seq<string>, s: string)
    requires NoDuplicates(list)
    ensures NoDuplicates(Added(list, s))
  {
    var r := Added(list, s);
    forall i | 0 <= i < |r|
      ensures FirstIndex(r, r[i]) == i
    {
      if i < |list| {
        IndexStays(list, r, list[i]);
      } else {
        assert r[..i] == list;
        FirstIndexIs(r, s, i);
      }
    }
  }

  class ArraySet {
    var list: seq<string>
    var index: map<string, nat>

    ghost predicate Valid()
      reads this
    {
      && (forall s :: s in index <==> s in list)
      && forall s | s in index :: index[s] == FirstIndex(list, s)
    }

    constructor ()
      ensures Valid() && list == []
    {
      list, index := [], map[];
    }

    method Add(s: string, allowDuplicates: bool)
      requires Valid()
      modifies this
      ensures Valid()
      ensures list == if allowDuplicates then old(list) + [s] else Added(old(list), s)
    {
      var isDuplicate := s in index;
      var i := |list|;
      forall t | t in list
        ensures FirstIndex(list + [s], t) == FirstIndex(list, t)
      {
        IndexStays(list, list + [s], t);
      }
      if !isDuplicate {
        assert (list + [s])[..i] == list;
        FirstIndexIs(list + [s], s, i);
      }
      if !isDuplicate || allowDuplicates {
        list := list + [s];
      }
      if !isDuplicate {
        index := index[s := i];
      }
    }

    method FromList(strings: seq<string>)
      requires Valid() && list == []
      modifies this
      ensures Valid() && list == strings
    {
      for i := 0 to |strings|
        invariant Valid() && list == strings[..i]
      {
        Add(strings[i], true);
      }
      assert strings[..|strings|] == strings;
    }

    predicate Has(s: string)
      requires Valid()
      reads this
      ensures Has(s) <==> s in list
    {
      s in index
    }

    /** The index of the string, or nothing where the code throws. */
    function IndexOf(s: string): (r: Option<nat>)
      requires Valid()
      reads this
      ensures r == if s in list then Some(FirstIndex(list, s)) else None
    {
      if s in index then Some(index[s]) else None
    }

    /** The string at the index, or nothing where the code throws. */
    function At(i: int): (r: Option<string>)
      reads this
      ensures r.Some? <==> 0 <= i < |list|
    {
      if 0 <= i < |list| then Some(list[i]) else None
    }

    /** The index finds each string again, and without duplicates each place. */
    lemma IndexOfInverts(s: string, i: nat)
      requires Valid()
      ensures s in list ==> IndexOf(s).Some? && At(IndexOf(s).value) == Some(s)
      ensures NoDuplicates(list) && i < |list| ==> IndexOf(list[i]) == Some(i)
    {
    }
  }
}

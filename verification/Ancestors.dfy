/**
 Common ancestors in a forest of instances, and the paths that events take through it: module 59 of
 defaults/react-with-addons.js.
 */
module Ancestors {
  import opened Options

  /** An instance below its parent; the identifier tells siblings apart. */
  datatype Instance = Instance(id: nat, nativeParent: Option<Instance>)

  /** The instance, its parent, and so on up to the root. */
  function Path(e: Option<Instance>): seq<Instance>
    decreases e
  {
    match e
    case None => []
    case Some(i) => [i] + Path(i.nativeParent)
  }

  /** A path begins with the instance, goes on from each instance to its parent, and ends where there is none. */
  lemma {:induction false} PathIsChain(i: Instance)
    ensures var path := Path(Some(i));
      && path != [] && path[0] == i
      && (forall k | 0 < k < |path| :: path[k - 1].nativeParent == Some(path[k]))
      && path[|path| - 1].nativeParent == None
    decreases i
  {
    if i.nativeParent.Some? {
      PathIsChain(i.nativeParent.value);
      var above := Path(i.nativeParent);
      forall k | 0 < k <= |above|
        ensures ([i] + above)[k - 1].nativeParent == Some(([i] + above)[k])
      {
        assert ([i] + above)[k] == above[k - 1];
      }
    }
  }

  predicate AncestorOrSelf(x: Instance, e: Option<Instance>) {
    x in Path(e)
  }

  /** Above an instance on a path stands its own path. */
  lemma {:induction false} PathFrom(e: Option<Instance>, k: nat)
    requires k < |Path(e)|
    ensures Path(Some(Path(e)[k])) == Path(e)[k..]
    decreases e
  {
    if k > 0 {
      PathFrom(e.value.nativeParent, k - 1);
    }
  }

  /** An ancestor stands as far from the top of the path as of its own. */
  lemma PlaceOnPath(x: Instance, e: Option<Instance>)
    requires AncestorOrSelf(x, e)
    ensures 0 < |Path(Some(x))| <= |Path(e)| && Path(e)[|Path(e)| - |Path(Some(x))|] == x
  {
    var k :| 0 <= k < |Path(e)| && Path(e)[k] == x;
    PathFrom(e, k);
  }

  /** An ancestor of both that is below all other ancestors of both. */
  ghost predicate LowestCommon(x: Instance, e: Option<Instance>, t: Option<Instance>) {
    AncestorOrSelf(x, e) && AncestorOrSelf(x, t) &&
    forall y | AncestorOrSelf(y, e) && AncestorOrSelf(y, t) :: AncestorOrSelf(y, Some(x))
  }

  ghost predicate NoneCommon(e: Option<Instance>, t: Option<Instance>) {
    forall x :: !(AncestorOrSelf(x, e) && AncestorOrSelf(x, t))
  }

  /** Both have the same ancestors in common as at the start. */
  ghost predicate SameCommon(e: Option<Instance>, t: Option<Instance>, e': Option<Instance>, t': Option<Instance>) {
    forall x :: AncestorOrSelf(x, e) && AncestorOrSelf(x, t) <==> AncestorOrSelf(x, e') && AncestorOrSelf(x, t')
  }

  /** Where one path is longer, its lowest instance is not common. */
  lemma LowerIsNotCommon(e: Option<Instance>, t: Option<Instance>)
    requires |Path(e)| > |Path(t)|
    ensures e.Some? && SameCommon(e, t, e.value.nativeParent, t) && SameCommon(t, e, t, e.value.nativeParent)
  {
    forall x | AncestorOrSelf(x, e) && AncestorOrSelf(x, t)
      ensures AncestorOrSelf(x, e.value.nativeParent)
    {
      PlaceOnPath(x, e);
      PlaceOnPath(x, t);
    }
  }

  /** Where paths are equally long and start differently, neither start is common. */
  lemma DifferentAreNotCommon(e: Option<Instance>, t: Option<Instance>)
    requires |Path(e)| == |Path(t)| > 0 && e != t
    ensures SameCommon(e, t, e.value.nativeParent, t.value.nativeParent)
  {
    forall x | AncestorOrSelf(x, e) && AncestorOrSelf(x, t)
      ensures AncestorOrSelf(x, e.value.nativeParent) && AncestorOrSelf(x, t.value.nativeParent)
    {
      PlaceOnPath(x, e);
      PlaceOnPath(x, t);
    }
  }

  method Depth(e: Option<Instance>) returns (n: nat)
    ensures n == |Path(e)|
  {
    n := 0;
    var r := e;
    while r.Some?
      invariant n + |Path(r)| == |Path(e)|
      decreases r
    {
      r := r.value.nativeParent;
      n := n + 1;
    }
  }

  /** The lowest instance that is an ancestor of both, or nothing if there is none. */
  method GetLowestCommonAncestor(instA: Instance, instB: Instance) returns (r: Option<Instance>)
    ensures r.Some? ==> LowestCommon(r.value, Some(instA), Some(instB))
    ensures r.None? ==> NoneCommon(Some(instA), Some(instB))
  {
    var e, t := Some(instA), Some(instB);
    var depthA := Depth(e);
    var depthB := Depth(t);
    while depthA > depthB
      invariant depthA == |Path(e)| && depthB == |Path(t)| && SameCommon(Some(instA), Some(instB), e, t)
      invariant t == Some(instB)
      decreases depthA
    {
      LowerIsNotCommon(e, t);
      e, depthA := e.value.nativeParent, depthA - 1;
    }
    while depthB > depthA
      invariant depthA == |Path(e)| && depthB == |Path(t)|
      invariant depthB >= depthA && SameCommon(Some(instA), Some(instB), e, t)
      decreases depthB
    {
      LowerIsNotCommon(t, e);
      t, depthB := t.value.nativeParent, depthB - 1;
    }
    var depth := depthA;
    while depth > 0
      invariant depth == |Path(e)| == |Path(t)| && SameCommon(Some(instA), Some(instB), e, t)
    {
      depth := depth - 1;
      if e == t {
        assert AncestorOrSelf(e.value, e);
        return e;
      }
      DifferentAreNotCommon(e, t);
      e, t := e.value.nativeParent, t.value.nativeParent;
    }
    return None;
  }

  method IsAncestor(instA: Instance, instB: Instance) returns (r: bool)
    ensures r == AncestorOrSelf(instA, Some(instB))
  {
    var t := Some(instB);
    while t.Some?
      invariant AncestorOrSelf(instA, Some(instB)) == AncestorOrSelf(instA, t)
      decreases t
    {
      if t.value == instA {
        return true;
      }
      t := t.value.nativeParent;
    }
    return false;
  }

  // ---------- the paths of events ----------

  /** A call of the visitor: on the way up or on the way down. */
  datatype Visit = Visit(instance: Instance, up: bool)

  function Up(path: seq<Instance>): (visits: seq<Visit>)
    ensures |visits| == |path|
    ensures forall k | 0 <= k < |path| :: visits[k] == Visit(path[k], true)
  {
    seq(|path|, k requires 0 <= k < |path| => Visit(path[k], true))
  }

  function Down(path: seq<Instance>): (visits: seq<Visit>)
    ensures |visits| == |path|
    ensures forall k | 0 <= k < |path| :: visits[k] == Visit(path[|path| - 1 - k], false)
  {
    seq(|path|, k requires 0 <= k < |path| => Visit(path[|path| - 1 - k], false))
  }

  /** The part of a path that is not common. */
  function Private(e: Option<Instance>, t: Option<Instance>): (path: seq<Instance>)
    ensures path <= Path(e) && forall x <- path :: x !in Path(t)
    decreases e
  {
    if e.None? || e.value in Path(t) then [] else [e.value] + Private(e.value.nativeParent, t)
  }

  /** Everything above a common ancestor is common. */
  lemma {:induction false} AboveIsCommon(x: Instance, y: Instance, t: Option<Instance>)
    requires AncestorOrSelf(x, t) && AncestorOrSelf(y, Some(x))
    ensures AncestorOrSelf(y, t)
  {
    var k :| 0 <= k < |Path(t)| && Path(t)[k] == x;
    PathFrom(t, k);
  }

  /** The private part of a path is just what is not common. */
  lemma {:induction false} PrivateIs(e: Option<Instance>, t: Option<Instance>, x: Instance)
    ensures x in Private(e, t) <==> AncestorOrSelf(x, e) && !AncestorOrSelf(x, t)
    decreases e
  {
    if e.Some? {
      if e.value in Path(t) {
        if x in Path(e) {
          AboveIsCommon(e.value, x, t);
        }
      } else {
        PrivateIs(e.value.nativeParent, t, x);
      }
    }
  }

  method VisitUp(path: seq<Instance>) returns (visits: seq<Visit>)
    ensures visits == Up(path)
  {
    visits := [];
    for i := 0 to |path|
      invariant visits == Up(path)[..i]
    {
      visits := visits + [Visit(path[i], true)];
    }
  }

  method VisitDown(path: seq<Instance>) returns (visits: seq<Visit>)
    ensures visits == Down(path)
  {
    visits := [];
    var i := |path|;
    while i > 0
      invariant 0 <= i <= |path| && visits == Down(path)[..|path| - i]
    {
      i := i - 1;
      visits := visits + [Visit(path[i], false)];
    }
  }

  /** Visits the path from the root down and then up again. */
  method TraverseTwoPhase(inst: Option<Instance>) returns (visits: seq<Visit>)
    ensures visits == Down(Path(inst)) + Up(Path(inst))
  {
    var path := PathUpTo(inst, None);
    assert path + [] == path;
    var down := VisitDown(path);
    var up := VisitUp(path);
    visits := down + up;
  }

  /** The path up to, but not including, the end. */
  method PathUpTo(inst: Option<Instance>, end: Option<Instance>) returns (path: seq<Instance>)
    requires end.Some? ==> AncestorOrSelf(end.value, inst)
    ensures path + Path(end) == Path(inst)
  {
    path := [];
    var e := inst;
    while e.Some? && e != end
      invariant path + Path(e) == Path(inst) && (end.Some? ==> AncestorOrSelf(end.value, e))
      decreases e
    {
      path := path + [e.value];
      e := e.value.nativeParent;
    }
  }

  /** The path below the lowest common ancestor is the private part. */
  lemma {:induction false} BelowCommonIsPrivate(path: seq<Instance>, e: Option<Instance>, t: Option<Instance>,
                                                end: Option<Instance>)
    requires path + Path(end) == Path(e)
    requires if end.Some? then LowestCommon(end.value, e, t) else NoneCommon(e, t)
    ensures path == Private(e, t)
    decreases |path|
  {
    if path == [] {
      assert Path(e) == Path(end);
      if end.Some? {
        assert Path(e)[0] == Path(end)[0] == end.value;
      }
    } else {
      var parent := e.value.nativeParent;
      assert path[0] == (path + Path(end))[0] == e.value;
      assert path[1..] + Path(end) == (path + Path(end))[1..] == Path(parent);
      if AncestorOrSelf(e.value, t) && end.Some? {
        PlaceOnPath(e.value, Some(end.value));
      }
      if end.Some? {
        assert Path(parent)[|path| - 1] == Path(end)[0] == end.value;
      }
      BelowCommonIsPrivate(path[1..], parent, t, end);
    }
  }

  lemma CommonIsSymmetric(x: Instance, e: Option<Instance>, t: Option<Instance>)
    ensures LowestCommon(x, e, t) <==> LowestCommon(x, t, e)
  {
  }

  /**
   Leaves, from below, the ancestors of the one that are not ancestors of the other, and enters, from above, those
   the other way round.
   */
  method TraverseEnterLeave(from: Option<Instance>, to: Option<Instance>) returns (visits: seq<Visit>)
    ensures visits == Up(Private(from, to)) + Down(Private(to, from))
  {
    var common := None;
    if from.Some? && to.Some? {
      common := GetLowestCommonAncestor(from.value, to.value);
    }
    if common.Some? {
      CommonIsSymmetric(common.value, from, to);
    }
    var pathFrom := PathUpTo(from, common);
    BelowCommonIsPrivate(pathFrom, from, to, common);
    var pathTo := PathUpTo(to, common);
    BelowCommonIsPrivate(pathTo, to, from, common);
    visits := VisitUp(pathFrom);
    var down := VisitDown(pathTo);
    visits := visits + down;
  }
}

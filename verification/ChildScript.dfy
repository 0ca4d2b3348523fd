/**
 The edit script that keyed reconciliation emits (module 80 of defaults/react-with-addons.js), and why
 running it leaves exactly the new children in the new order.
 */
module ChildScript {
  import opened DomUpdates
  import opened Options

  /**
   One new child: the instance of a former child, or a newly mounted one, which may replace a former
   child of the same key.  Former children are named by their mount index.
   */
  datatype Entry = Kept(node: Node, oldIndex: nat) | Mounted(node: Node, replaced: Option<nat>) {
    function FormerIndex(): Option<nat> {
      if Kept? then Some(oldIndex) else replaced
    }
  }

  /** The updates emitted so far, and the variables of the loop that emits them. */
  datatype Plan = Plan(script: seq<Update>, lastIndex: nat, nextIndex: nat, lastNode: Option<Node>)

  function Max(a: nat, b: nat): nat {
    if a < b then b else a
  }

  function Advance(p: Plan, e: Entry): Plan {
    match e
    case Kept(node, oldIndex) =>
      Plan(
        if oldIndex < p.lastIndex
        then p.script + [MoveExisting(oldIndex, node, p.nextIndex, p.lastNode)] else p.script,
        Max(oldIndex, p.lastIndex), p.nextIndex + 1, Some(node))
    case Mounted(node, replaced) =>
      Plan(
        p.script + [InsertMarkup(node, p.nextIndex, p.lastNode)],
        if replaced.Some? then Max(replaced.value, p.lastIndex) else p.lastIndex,
        p.nextIndex + 1, Some(node))
  }

  function PlanFor(entries: seq<Entry>): Plan {
    if entries == [] then Plan([], 0, 0, None)
    else Advance(PlanFor(entries[..|entries| - 1]), entries[|entries| - 1])
  }

  lemma {:induction false} LastIndexIs(entries: seq<Entry>)
    ensures var plan := PlanFor(entries);
      && plan.nextIndex == |entries|
      && plan.lastNode == (if entries == [] then None else Some(entries[|entries| - 1].node))
      && (forall i | 0 <= i < |entries| ::
            match entries[i]
            case Kept(_, oldIndex) => oldIndex <= plan.lastIndex
            case Mounted(_, replaced) => replaced.Some? ==> replaced.value <= plan.lastIndex)
      && (plan.lastIndex > 0 ==> exists i | 0 <= i < |entries| ::
            match entries[i]
            case Kept(_, oldIndex) => oldIndex == plan.lastIndex
            case Mounted(_, replaced) => replaced == Some(plan.lastIndex))
  {
    if entries != [] {
      LastIndexIs(entries[..|entries| - 1]);
      var last := entries[|entries| - 1];
      assert entries == entries[..|entries| - 1] + [last];
    }
  }

  /**
   What is emitted for one more child, behind the one before it: a new one is inserted, and a kept one is moved exactly
   if some child before it, or the one that child replaces, had a later place.
   */
  lemma OneChildMore(entries: seq<Entry>, e: Entry)
    ensures var after := if entries == [] then None else Some(entries[|entries| - 1].node);
      PlanFor(entries + [e]).script == PlanFor(entries).script +
      match e
      case Mounted(node, _) => [InsertMarkup(node, |entries|, after)]
      case Kept(node, oldIndex) =>
        if exists i | 0 <= i < |entries| ::
             match entries[i]
             case Kept(_, earlier) => earlier > oldIndex
             case Mounted(_, replaced) => replaced.Some? && replaced.value > oldIndex
        then [MoveExisting(oldIndex, node, |entries|, after)] else []
  {
    LastIndexIs(entries);
    assert (entries + [e])[..|entries|] == entries;
    assert PlanFor(entries).script + [] == PlanFor(entries).script;
  }

  function NodesOf(entries: seq<Entry>): (nodes: seq<Node>)
    ensures |nodes| == |entries|
  {
    seq(|entries|, i requires 0 <= i < |entries| => entries[i].node)
  }

  /** The entries describe new children over the given former ones. */
  ghost predicate Describes(entries: seq<Entry>, former: seq<Node>) {
    && Distinct(former) && Distinct(NodesOf(entries))
    && (forall e <- entries :: e.FormerIndex().Some? ==> e.FormerIndex().value < |former|)
    && (forall e <- entries :: if e.Kept? then former[e.oldIndex] == e.node else e.node !in former)
    && (forall i, j | 0 <= i < j < |entries| ::
          entries[i].FormerIndex().Some? ==> entries[i].FormerIndex() != entries[j].FormerIndex())
  }

  // ---------- sublists ----------

  /** The elements of s that occur in keep. */
  function Keep(s: seq<Node>, keep: seq<Node>): (r: seq<Node>)
    ensures forall x :: x in r <==> x in s && x in keep
  {
    if s == [] then []
    else if s[0] in keep then [s[0]] + Keep(s[1..], keep)
    else Keep(s[1..], keep)
  }

  lemma {:induction false} KeepConcat(a: seq<Node>, b: seq<Node>, keep: seq<Node>)
    ensures Keep(a + b, keep) == Keep(a, keep) + Keep(b, keep)
  {
    if a == [] {
      assert a + b == b;
    } else {
      assert (a + b)[1..] == a[1..] + b;
      KeepConcat(a[1..], b, keep);
    }
  }

  lemma {:induction false} KeepNone(s: seq<Node>, keep: seq<Node>)
    requires forall x <- s :: x !in keep
    ensures Keep(s, keep) == []
  {
    if s != [] {
      KeepNone(s[1..], keep);
    }
  }

  lemma {:induction false} KeepOthers(s: seq<Node>, keep: seq<Node>, n: Node)
    requires n !in keep
    ensures Keep(Without(s, n), keep + [n]) == Keep(s, keep)
  {
    if s != [] {
      KeepOthers(s[1..], keep, n);
    }
  }

  lemma {:induction false} DistinctWithout(s: seq<Node>, n: Node)
    requires Distinct(s)
    ensures Distinct(Without(s, n))
  {
    if s != [] {
      DistinctWithout(s[1..], n);
      var r := Without(s[1..], n);
      assert forall i | 0 <= i < |r| :: r[i] in s[1..];
    }
  }

  lemma DistinctMoved(front: seq<Node>, back: seq<Node>, n: Node)
    requires Distinct(front + back)
    ensures Distinct(Without(front, n) + [n] + Without(back, n))
  {
    var a, b := Without(front, n), Without(back, n);
    WithoutConcat(front, back, n);
    DistinctWithout(front + back, n);
    var s, t := a + [n] + b, a + b;
    forall i, j | 0 <= i < j < |s|
      ensures s[i] != s[j]
    {
      assert i < |a| ==> s[i] == t[i];
      assert i > |a| ==> s[i] == t[i - 1];
      assert j < |a| ==> s[j] == t[j];
      assert j > |a| ==> s[j] == t[j - 1];
      assert forall k | 0 <= k < |t| :: t[k] != n by {
        assert forall k | 0 <= k < |t| :: t[k] in t;
      }
    }
  }

  // ---------- the child list while the plan is run ----------

  /**
   The child list in two parts: a front that ends with the last new child and holds the new children in
   order, and a back without new children.  No former child has got lost.
   */
  ghost predicate Arranged(former: seq<Node>, nodes: seq<Node>, front: seq<Node>, back: seq<Node>) {
    && Distinct(front + back)
    && Keep(front, nodes) == nodes
    && (forall x <- back :: x !in nodes)
    && (forall x :: x in front + back <==> x in former || x in nodes)
    && if nodes == [] then front == [] else front != [] && front[|front| - 1] == nodes[|nodes| - 1]
  }

  /** The back part ends with all former children from index m on, untouched. */
  ghost predicate Untouched(former: seq<Node>, back: seq<Node>, m: nat) {
    m <= |former| && |former| - m <= |back| && back[|back| - (|former| - m)..] == former[m..]
  }

  function LastOf(nodes: seq<Node>): Option<Node> {
    if nodes == [] then None else Some(nodes[|nodes| - 1])
  }

  /** Inserting a node behind the last new child, or moving it there. */
  lemma ArrangedPlaced(former: seq<Node>, nodes: seq<Node>, front: seq<Node>, back: seq<Node>, n: Node)
    requires Arranged(former, nodes, front, back) && n !in nodes
    ensures InsertBefore(front + back, n, NodeAfter(front + back, LastOf(nodes))) ==
      Some((Without(front, n) + [n]) + Without(back, n))
    ensures Arranged(former, nodes + [n], Without(front, n) + [n], Without(back, n))
  {
    PlacedBehindFront(front, back, n, LastOf(nodes));
    DistinctMoved(front, back, n);
    KeepOthers(front, nodes, n);
    KeepConcat(Without(front, n), [n], nodes + [n]);
    assert Keep([n], nodes + [n]) == [n];
  }

  lemma UntouchedPlaced(former: seq<Node>, back: seq<Node>, m: nat, n: Node)
    requires Untouched(former, back, m) && n !in former[m..]
    ensures Untouched(former, Without(back, n), m)
  {
    var k := |back| - (|former| - m);
    assert back == back[..k] + former[m..];
    WithoutConcat(back[..k], former[m..], n);
    WithoutAbsent(former[m..], n);
  }

  lemma UntouchedLater(former: seq<Node>, back: seq<Node>, m: nat, m': nat)
    requires Untouched(former, back, m) && m <= m' <= |former|
    ensures Untouched(former, back, m')
  {
    assert back[|back| - (|former| - m')..] == back[|back| - (|former| - m)..][m' - m..];
  }

  /** A kept child in the untouched part stays where it is, and what it passes joins the front. */
  lemma ArrangedPassed(former: seq<Node>, nodes: seq<Node>, front: seq<Node>, back: seq<Node>, k: nat)
    requires Arranged(former, nodes, front, back) && k < |back|
    ensures Arranged(former, nodes + [back[k]], front + back[..k + 1], back[k + 1..])
  {
    var n, passed, rest := back[k], back[..k], back[k + 1..];
    assert back[..k + 1] == passed + [n] && back == passed + [n] + rest;
    var front' := front + passed + [n];
    assert front + back[..k + 1] == front';
    assert front' + rest == front + back;
    DistinctParts(front', rest);
    assert forall x <- passed :: x in back;
    assert forall x <- rest :: x in back;
    assert n in back;
    KeepPassed(front, passed, n, nodes);
  }

  lemma DistinctParts(a: seq<Node>, b: seq<Node>)
    requires Distinct(a + b)
    ensures Distinct(a) && forall x <- a :: x !in b
  {
    var s := a + b;
    assert forall i | 0 <= i < |a| :: s[i] == a[i];
    assert forall i | 0 <= i < |b| :: s[|a| + i] == b[i];
  }

  lemma KeepPassed(front: seq<Node>, passed: seq<Node>, n: Node, nodes: seq<Node>)
    requires Distinct(front + passed + [n])
    requires n !in nodes && forall x <- passed :: x !in nodes
    ensures Keep(front + passed + [n], nodes + [n]) == Keep(front, nodes) + [n]
  {
    var keep := nodes + [n];
    KeepConcat(front + passed, [n], keep);
    KeepConcat(front, passed, keep);
    assert Keep([n], keep) == [n];
    DistinctSplit(front + passed, n, []);
    assert (front + passed) + [n] == front + passed + [n] + [];
    KeepNone(passed, keep);
    KeepOthers(front, nodes, n);
    WithoutAbsent(front, n);
  }

  // ---------- running the plan ----------

  /** One more than the greatest former index among the entries. */
  function Bound(entries: seq<Entry>): nat {
    if entries == [] then 0
    else
      var init, e := Bound(entries[..|entries| - 1]), entries[|entries| - 1].FormerIndex();
      if e.Some? then Max(init, e.value + 1) else init
  }

  lemma {:induction false} BoundIsReached(entries: seq<Entry>)
    ensures forall i | 0 <= i < |entries| && entries[i].FormerIndex().Some? ::
      entries[i].FormerIndex().value < Bound(entries)
    ensures Bound(entries) > 0 ==> exists i | 0 <= i < |entries| :: entries[i].FormerIndex() == Some(Bound(entries) - 1)
  {
    if entries != [] {
      var init := entries[..|entries| - 1];
      BoundIsReached(init);
      assert forall i | 0 <= i < |init| :: init[i] == entries[i];
    }
  }

  /** What the loop variables say about the entries so far. */
  lemma {:induction false} PlanVariables(entries: seq<Entry>)
    ensures var plan := PlanFor(entries);
      && plan.lastNode == LastOf(NodesOf(entries))
      && plan.nextIndex == |entries|
      && plan.lastIndex == if Bound(entries) == 0 then 0 else Bound(entries) - 1
  {
    if entries != [] {
      PlanVariables(entries[..|entries| - 1]);
    }
  }

  /** The script so far has been run and has left the given child list. */
  ghost predicate Running(former: seq<Node>, entries: seq<Entry>, front: seq<Node>, back: seq<Node>) {
    && ApplyAll(former, PlanFor(entries).script) == Some(front + back)
    && Arranged(former, NodesOf(entries), front, back)
    && Untouched(former, back, Bound(entries))
  }

  ghost predicate Runs(former: seq<Node>, entries: seq<Entry>) {
    exists front, back :: Running(former, entries, front, back)
  }

  lemma ApplyLast(nodes: seq<Node>, script: seq<Update>, u: Update)
    ensures ApplyAll(nodes, script + [u]) ==
      if ApplyAll(nodes, script).None? then None else Apply(ApplyAll(nodes, script).value, u)
  {
    assert (script + [u])[..|script|] == script;
  }

  lemma PlanLast(entries: seq<Entry>, e: Entry)
    ensures PlanFor(entries + [e]) == Advance(PlanFor(entries), e)
    ensures NodesOf(entries + [e]) == NodesOf(entries) + [e.node]
    ensures Bound(entries + [e]) ==
      if e.FormerIndex().Some? then Max(Bound(entries), e.FormerIndex().value + 1) else Bound(entries)
  {
    assert (entries + [e])[..|entries|] == entries;
  }

  lemma NewNode(former: seq<Node>, entries: seq<Entry>, e: Entry)
    requires Describes(entries + [e], former)
    ensures e.node !in NodesOf(entries)
  {
    PlanLast(entries, e);
    DistinctParts(NodesOf(entries), [e.node]);
  }

  lemma FormerIndexIsNew(former: seq<Node>, entries: seq<Entry>, e: Entry)
    requires Describes(entries + [e], former)
    ensures e.FormerIndex().Some? ==> e.FormerIndex().value != Bound(entries) - 1
  {
    var all, m := entries + [e], Bound(entries);
    BoundIsReached(entries);
    if m > 0 {
      var i :| 0 <= i < |entries| && entries[i].FormerIndex() == Some(m - 1);
      assert all[i] == entries[i] && all[|entries|] == e;
    }
  }

  /** A child that has to move is none of those that the plan has passed without moving. */
  lemma LastIndexSeparates(former: seq<Node>, entries: seq<Entry>, e: Entry)
    requires Describes(entries + [e], former) && Bound(entries) <= |former|
    ensures e.FormerIndex().Some? ==> e.FormerIndex().value < |former|
    ensures e.Kept? ==> former[e.oldIndex] == e.node
    ensures !(e.Kept? && e.oldIndex >= Bound(entries)) ==> e.node !in former[Bound(entries)..]
  {
    assert (entries + [e])[|entries|] == e && e in entries + [e];
  }

  lemma StaysInLine(former: seq<Node>, entries: seq<Entry>, e: Entry, front: seq<Node>, back: seq<Node>)
    requires Running(former, entries, front, back)
    requires e.Kept? && Bound(entries) <= e.oldIndex < |former| && former[e.oldIndex] == e.node
    ensures Runs(former, entries + [e])
  {
    var k := UntouchedPassed(former, back, Bound(entries), e.oldIndex);
    PlanLast(entries, e);
    PlanVariables(entries);
    ArrangedPassed(former, NodesOf(entries), front, back, k);
    CutElsewhere(front, back, k + 1);
    assert Running(former, entries + [e], front + back[..k + 1], back[k + 1..]);
  }

  lemma CutElsewhere(front: seq<Node>, back: seq<Node>, k: nat)
    requires k <= |back|
    ensures (front + back[..k]) + back[k..] == front + back
  {
  }

  lemma UntouchedPassed(former: seq<Node>, back: seq<Node>, m: nat, i: nat) returns (k: nat)
    requires Untouched(former, back, m) && m <= i < |former|
    ensures k < |back| && back[k] == former[i] && Untouched(former, back[k + 1..], i + 1)
  {
    k := |back| - (|former| - i);
    var start := |back| - (|former| - m);
    assert back[start..][i - m] == former[m..][i - m];
    assert back[start..][i - m + 1..] == former[m..][i - m + 1..] == former[i + 1..];
  }

  lemma GoesBehind(former: seq<Node>, entries: seq<Entry>, e: Entry, front: seq<Node>, back: seq<Node>)
    requires Running(former, entries, front, back)
    requires e.node !in NodesOf(entries)
    requires e.Kept? ==> e.oldIndex < Bound(entries) - 1
    ensures ApplyAll(former, PlanFor(entries + [e]).script) ==
      Some((Without(front, e.node) + [e.node]) + Without(back, e.node))
    ensures Arranged(former, NodesOf(entries + [e]), Without(front, e.node) + [e.node], Without(back, e.node))
  {
    var plan := PlanFor(entries);
    PlanLast(entries, e);
    PlanVariables(entries);
    ApplyLast(former, plan.script,
      if e.Kept? then MoveExisting(e.oldIndex, e.node, plan.nextIndex, plan.lastNode)
      else InsertMarkup(e.node, plan.nextIndex, plan.lastNode));
    ArrangedPlaced(former, NodesOf(entries), front, back, e.node);
  }

  /** A child that is inserted or moved; it may replace a former child in the untouched part. */
  lemma Joins(former: seq<Node>, entries: seq<Entry>, e: Entry, front: seq<Node>, back: seq<Node>)
    requires Running(former, entries, front, back)
    requires e.node !in NodesOf(entries) && e.node !in former[Bound(entries)..]
    requires e.FormerIndex().Some? ==> e.FormerIndex().value < |former|
    requires e.Kept? ==> e.oldIndex < Bound(entries) - 1
    ensures Runs(former, entries + [e])
  {
    PlanLast(entries, e);
    GoesBehind(former, entries, e, front, back);
    UntouchedPlaced(former, back, Bound(entries), e.node);
    UntouchedLater(former, Without(back, e.node), Bound(entries), Bound(entries + [e]));
    assert Running(former, entries + [e], Without(front, e.node) + [e.node], Without(back, e.node));
  }

  lemma DescribesPrefix(entries: seq<Entry>, e: Entry, former: seq<Node>)
    requires Describes(entries + [e], former)
    ensures Describes(entries, former)
  {
    var all := entries + [e];
    assert forall i | 0 <= i < |entries| :: all[i] == entries[i] && NodesOf(all)[i] == NodesOf(entries)[i];
    assert forall x <- entries :: x in all;
  }

  lemma PlanStarts(former: seq<Node>)
    requires Distinct(former)
    ensures Runs(former, [])
  {
    assert [] + former == former;
    assert NodesOf([]) == [];
    assert Running(former, [], [], former);
  }

  /** Every plan runs to its end. */
  lemma {:induction false} PlanRuns(former: seq<Node>, entries: seq<Entry>)
    requires Describes(entries, former)
    ensures Runs(former, entries)
  {
    if entries == [] {
      PlanStarts(former);
    } else {
      var init, e := entries[..|entries| - 1], entries[|entries| - 1];
      assert entries == init + [e];
      DescribesPrefix(init, e, former);
      PlanRuns(former, init);
      var front, back :| Running(former, init, front, back);
      NewNode(former, init, e);
      FormerIndexIsNew(former, init, e);
      LastIndexSeparates(former, init, e);
      if e.Kept? && e.oldIndex >= Bound(init) {
        StaysInLine(former, init, e, front, back);
      } else {
        Joins(former, init, e, front, back);
      }
    }
  }

  // ---------- removal ----------

  /** The removals that end the script: each names a node to remove. */
  predicate Removals(script: seq<Update>) {
    forall u <- script :: u.RemoveNode?
  }

  function RemovedNodes(script: seq<Update>): (nodes: seq<Node>)
    requires Removals(script)
    ensures |nodes| == |script|
    ensures forall i | 0 <= i < |script| :: nodes[i] == script[i].fromNode
  {
    if script == [] then [] else [script[0].fromNode] + RemovedNodes(script[1..])
  }

  lemma {:induction false} KeepWithout(s: seq<Node>, keep: seq<Node>, n: Node)
    requires n !in keep
    ensures Keep(Without(s, n), keep) == Keep(s, keep)
  {
    if s != [] {
      KeepWithout(s[1..], keep, n);
    }
  }

  lemma {:induction false} KeepAll(s: seq<Node>, keep: seq<Node>)
    requires forall x <- s :: x in keep
    ensures Keep(s, keep) == s
  {
    if s != [] {
      KeepAll(s[1..], keep);
    }
  }

  lemma {:induction false} ApplyConcat(nodes: seq<Node>, a: seq<Update>, b: seq<Update>)
    ensures ApplyAll(nodes, a + b) == if ApplyAll(nodes, a).None? then None else ApplyAll(ApplyAll(nodes, a).value, b)
    decreases |b|
  {
    if b == [] {
      assert a + b == a;
    } else {
      var init, u := b[..|b| - 1], b[|b| - 1];
      assert a + b == (a + init) + [u];
      ApplyConcat(nodes, a, init);
      ApplyLast(nodes, a + init, u);
    }
  }

  lemma RemovedNodesRest(nodes: seq<Node>, script: seq<Update>, keep: seq<Node>)
    requires script != [] && Removals(script) && Distinct(nodes) && Distinct(RemovedNodes(script))
    requires forall x :: x in RemovedNodes(script) <==> x in nodes && x !in keep
    ensures var n, rest := script[0].fromNode, script[1..];
      && n in nodes && n !in keep && Distinct(RemovedNodes(rest))
      && forall x :: x in RemovedNodes(rest) <==> x in Without(nodes, n) && x !in keep
  {
    var n, rest := script[0].fromNode, script[1..];
    var gone := RemovedNodes(script);
    assert gone == [n] + RemovedNodes(rest) && n in gone;
    DistinctParts([n], RemovedNodes(rest));
    assert forall i | 0 <= i < |rest| :: RemovedNodes(rest)[i] == gone[i + 1];
    DistinctWithout(nodes, n);
  }

  /** Removing, one after the other, exactly the nodes that are not to be kept. */
  lemma {:induction false} RemovalsKeepOthers(nodes: seq<Node>, script: seq<Update>, keep: seq<Node>)
    requires Removals(script) && Distinct(nodes) && Distinct(RemovedNodes(script))
    requires forall x :: x in RemovedNodes(script) <==> x in nodes && x !in keep
    ensures ApplyAll(nodes, script) == Some(Keep(nodes, keep))
    decreases |script|
  {
    if script == [] {
      KeepAll(nodes, keep);
    } else {
      var n, rest := script[0].fromNode, script[1..];
      RemovedNodesRest(nodes, script, keep);
      ApplyConcat(nodes, [script[0]], rest);
      assert script == [script[0]] + rest;
      ApplyLast(nodes, [], script[0]);
      assert [] + [script[0]] == [script[0]];
      DistinctWithout(nodes, n);
      RemovalsKeepOthers(Without(nodes, n), rest, keep);
      KeepWithout(nodes, keep, n);
    }
  }

  /**
   Keyed reconciliation is correct: the emitted script, followed by the removal of the former children that
   were not kept, turns the former child list into the new one.
   */
  lemma ScriptBuildsNewChildren(former: seq<Node>, entries: seq<Entry>, removals: seq<Update>)
    requires Describes(entries, former)
    requires Removals(removals) && Distinct(RemovedNodes(removals))
    requires forall x :: x in RemovedNodes(removals) <==> x in former && x !in NodesOf(entries)
    ensures ApplyAll(former, PlanFor(entries).script + removals) == Some(NodesOf(entries))
  {
    PlanRuns(former, entries);
    var front: seq<Node>, back: seq<Node> :| Running(former, entries, front, back);
    var nodes := NodesOf(entries);
    ApplyConcat(former, PlanFor(entries).script, removals);
    RemovalsKeepOthers(front + back, removals, nodes);
    KeepConcat(front, back, nodes);
    KeepNone(back, nodes);
    assert nodes + [] == nodes;
  }
}

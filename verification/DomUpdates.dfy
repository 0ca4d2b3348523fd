/**
 Edit scripts over a DOM child list: the interpreter `processUpdates` of module 7 in
 defaults/react-with-addons.js, over the DOM operations insertBefore and removeChild.
 */
module DomUpdates {
  import opened Options

  /** The identity of a DOM node. */
  type Node = nat

  datatype Update =
    | InsertMarkup(content: Node, toIndex: nat, afterNode: Option<Node>)
    | MoveExisting(fromIndex: nat, fromNode: Node, toIndex: nat, afterNode: Option<Node>)
    | RemoveNode(fromIndex: nat, fromNode: Node)

  /** A place where x occurs. */
  ghost function Place<T>(s: seq<T>, x: T): (i: nat)
    requires x in s
    ensures i < |s| && s[i] == x
  {
    var i :| 0 <= i < |s| && s[i] == x;
    i
  }

  /**
   No repetitions: every element occurs only where it stands.  `DistinctMeans` gives the usual form; this one binds a
   single index, so that the solver instantiates it once for each element and not for each pair of them.
   */
  ghost predicate Distinct<T>(s: seq<T>) {
    forall i | 0 <= i < |s| :: Place(s, s[i]) == i
  }

  lemma DistinctMeans<T>(s: seq<T>)
    ensures Distinct(s) <==> forall i, j | 0 <= i < j < |s| :: s[i] != s[j]
  {
    if Distinct(s) {
      forall i, j | 0 <= i < j < |s|
        ensures s[i] != s[j]
      {
        assert Place(s, s[i]) == i && Place(s, s[j]) == j;
      }
    }
  }

  // ---------- DOM operations ----------

  function Without(nodes: seq<Node>, n: Node): (r: seq<Node>)
    ensures forall x :: x in r <==> x in nodes && x != n
  {
    if nodes == [] then []
    else if nodes[0] == n then Without(nodes[1..], n)
    else [nodes[0]] + Without(nodes[1..], n)
  }

  function IndexOf(nodes: seq<Node>, n: Node): (i: nat)
    requires n in nodes
    ensures i < |nodes| && nodes[i] == n && n !in nodes[..i]
  {
    if nodes[0] == n then 0 else 1 + IndexOf(nodes[1..], n)
  }

  function NextSibling(nodes: seq<Node>, n: Node): (s: Option<Node>)
    ensures s.Some? ==> s.value in nodes
  {
    if n !in nodes || IndexOf(nodes, n) + 1 == |nodes| then None else Some(nodes[IndexOf(nodes, n) + 1])
  }

  /**
   The child list after insertBefore, if the reference is a child: a node that is a child already is
   moved, and one that is its own reference stays in place.
   */
  function InsertBefore(nodes: seq<Node>, n: Node, reference: Option<Node>): Option<seq<Node>> {
    if reference.Some? && reference.value !in nodes then None
    else
      var anchor := if reference == Some(n) then NextSibling(nodes, n) else reference;
      Inserted(Without(nodes, n), n, anchor)
  }

  function Inserted(others: seq<Node>, n: Node, anchor: Option<Node>): Option<seq<Node>> {
    match anchor
    case None => Some(others + [n])
    case Some(a) =>
      if a !in others then None
      else Some(others[..IndexOf(others, a)] + [n] + others[IndexOf(others, a)..])
  }

  /** The child in front of which something is put that belongs behind afterNode, or else at the front. */
  function NodeAfter(nodes: seq<Node>, afterNode: Option<Node>): Option<Node> {
    match afterNode
    case Some(n) => NextSibling(nodes, n)
    case None => First(nodes)
  }

  // ---------- edit scripts ----------

  /** The child list after an update, unless the DOM refuses it. */
  function Apply(nodes: seq<Node>, u: Update): Option<seq<Node>> {
    match u
    case InsertMarkup(content, _, afterNode) => InsertBefore(nodes, content, NodeAfter(nodes, afterNode))
    case MoveExisting(_, fromNode, _, afterNode) => InsertBefore(nodes, fromNode, NodeAfter(nodes, afterNode))
    case RemoveNode(_, fromNode) => if fromNode in nodes then Some(Without(nodes, fromNode)) else None
  }

  /** The child list after a script, run in order. */
  function ApplyAll(nodes: seq<Node>, script: seq<Update>): Option<seq<Node>> {
    if script == [] then Some(nodes)
    else
      match ApplyAll(nodes, script[..|script| - 1])
      case None => None
      case Some(r) => Apply(r, script[|script| - 1])
  }

  method ProcessUpdates(nodes: seq<Node>, script: seq<Update>) returns (r: Option<seq<Node>>)
    ensures r == ApplyAll(nodes, script)
  {
    r := Some(nodes);
    var n := 0;
    while n < |script| && r.Some?
      invariant 0 <= n <= |script|
      invariant r == ApplyAll(nodes, script[..n])
    {
      assert script[..n + 1][..n] == script[..n];
      r := Apply(r.value, script[n]);
      n := n + 1;
    }
    assert script[..|script|] == script;
    if r.None? {
      FailureStays(nodes, script, n);
    }
  }

  lemma {:induction false} FailureStays(nodes: seq<Node>, script: seq<Update>, n: nat)
    requires n <= |script| && ApplyAll(nodes, script[..n]).None?
    ensures ApplyAll(nodes, script).None?
    decreases |script| - n
  {
    if n < |script| {
      assert script[..n + 1][..n] == script[..n];
      FailureStays(nodes, script, n + 1);
    } else {
      assert script[..n] == script;
    }
  }

  // ---------- what an update does to a child list ----------

  lemma {:induction false} WithoutAbsent(nodes: seq<Node>, n: Node)
    requires n !in nodes
    ensures Without(nodes, n) == nodes
  {
    if nodes != [] {
      WithoutAbsent(nodes[1..], n);
    }
  }

  lemma {:induction false} WithoutConcat(a: seq<Node>, b: seq<Node>, n: Node)
    ensures Without(a + b, n) == Without(a, n) + Without(b, n)
  {
    if a == [] {
      assert a + b == b;
    } else {
      assert (a + b)[1..] == a[1..] + b;
      WithoutConcat(a[1..], b, n);
    }
  }

  lemma {:induction false} IndexOfDistinct(a: seq<Node>, n: Node, b: seq<Node>)
    requires n !in a
    ensures n in a + [n] + b && IndexOf(a + [n] + b, n) == |a|
    decreases |a|
  {
    if a != [] {
      assert (a + [n] + b)[1..] == a[1..] + [n] + b;
      IndexOfDistinct(a[1..], n, b);
    }
  }

  /** The first node of a list, if any, as a reference for insertion. */
  function First(nodes: seq<Node>): Option<Node> {
    if nodes == [] then None else Some(nodes[0])
  }

  lemma InsertedBetween(a: seq<Node>, n: Node, b: seq<Node>)
    requires b != [] ==> b[0] !in a
    ensures Inserted(a + b, n, First(b)) == Some(a + [n] + b)
  {
    if b == [] {
      assert a + b == a && a + [n] + b == a + [n];
    } else {
      assert a + b == a + [b[0]] + b[1..];
      IndexOfDistinct(a, b[0], b[1..]);
      assert (a + b)[..|a|] == a && (a + b)[|a|..] == b;
    }
  }

  /** Putting a node behind the last one of a front part. */
  lemma PlacedBehindFront(front: seq<Node>, back: seq<Node>, n: Node, afterNode: Option<Node>)
    requires Distinct(front + back)
    requires if front == [] then afterNode == None else afterNode == Some(front[|front| - 1]) && front[|front| - 1] != n
    ensures InsertBefore(front + back, n, NodeAfter(front + back, afterNode)) ==
      Some(Without(front, n) + [n] + Without(back, n))
  {
    NodeBehindFront(front, back, afterNode);
    if back == [] {
      assert front + back == front;
      assert Without(front, n) + [n] + Without(back, n) == Without(front, n) + [n];
    } else {
      assert back == [back[0]] + back[1..];
      DistinctSplit(front, back[0], back[1..]);
      if back[0] == n {
        StaysInPlace(front, n, back[1..]);
      } else {
        InsertedBeforeOther(front, back[0], back[1..], n);
      }
    }
  }

  lemma InsertedBeforeOther(front: seq<Node>, next: Node, rest: seq<Node>, n: Node)
    requires next !in front && next != n
    ensures InsertBefore(front + ([next] + rest), n, Some(next)) ==
      Some(Without(front, n) + [n] + Without([next] + rest, n))
  {
    var back := [next] + rest;
    WithoutConcat(front, back, n);
    assert back[1..] == rest;
    InsertedBetween(Without(front, n), n, Without(back, n));
  }

  lemma StaysInPlace(front: seq<Node>, n: Node, rest: seq<Node>)
    requires Distinct(front + ([n] + rest))
    ensures InsertBefore(front + ([n] + rest), n, Some(n)) == Some(Without(front, n) + [n] + Without([n] + rest, n))
  {
    DistinctSplit(front, n, rest);
    WithoutSelf(front, n, rest);
    NextSiblingOf(front, n, rest);
    if rest != [] {
      var s := front + ([n] + rest);
      assert s[|front| + 1] == rest[0];
      assert forall i | 0 <= i < |front| :: s[i] == front[i];
    }
    InsertedBetween(front, n, rest);
  }

  lemma WithoutSelf(front: seq<Node>, n: Node, rest: seq<Node>)
    requires n !in front && n !in rest
    ensures Without(front, n) == front && Without([n] + rest, n) == rest
    ensures Without(front + ([n] + rest), n) == front + rest
  {
    WithoutConcat(front, [n] + rest, n);
    WithoutAbsent(front, n);
    WithoutAbsent(rest, n);
    assert ([n] + rest)[1..] == rest;
  }

  lemma NextSiblingOf(front: seq<Node>, n: Node, rest: seq<Node>)
    requires n !in front
    ensures NextSibling(front + ([n] + rest), n) == First(rest)
  {
    assert front + ([n] + rest) == front + [n] + rest;
    IndexOfDistinct(front, n, rest);
  }

  lemma NodeBehindFront(front: seq<Node>, back: seq<Node>, afterNode: Option<Node>)
    requires Distinct(front + back)
    requires if front == [] then afterNode == None else afterNode == Some(front[|front| - 1])
    ensures NodeAfter(front + back, afterNode) == First(back)
  {
    if front == [] {
      assert front + back == back;
    } else {
      var last := front[|front| - 1];
      assert front + back == front[..|front| - 1] + [last] + back;
      DistinctSplit(front[..|front| - 1], last, back);
      IndexOfDistinct(front[..|front| - 1], last, back);
    }
  }

  lemma DistinctSplit(a: seq<Node>, n: Node, b: seq<Node>)
    requires Distinct(a + [n] + b) || Distinct(a + ([n] + b))
    ensures n !in a && n !in b
  {
    var s := a + [n] + b;
    assert s == a + ([n] + b);
    assert s[|a|] == n;
    forall i | 0 <= i < |a| ensures a[i] != n { assert s[i] == a[i]; }
    forall i | 0 <= i < |b| ensures b[i] != n { assert s[|a| + 1 + i] == b[i]; }
  }
}

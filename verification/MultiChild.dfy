/**
 Keyed child reconciliation: `updateChildren` of module 31 and `_updateChildren` of module 80 in
 defaults/react-with-addons.js.  An element is what a child should show; an instance is the mounted child.
 */
module MultiChild {
  import opened ChildScript
  import opened DomUpdates
  import opened Options

  type Key = string

  datatype Element = Empty | Text(content: string) | Component(elementType: string, key: string, props: nat)

  /** Can the instance that shows `previous` go on to show `next`?  Module 150. */
  predicate ShouldUpdate(previous: Element, next: Element) {
    match (previous, next)
    case (Empty, _) => next.Empty?
    case (_, Empty) => false
    case (Text(_), _) => next.Text?
    case (Component(t, k, _), Component(t', k', _)) => t == t' && k == k'
    case (Component(_, _, _), Text(_)) => false
  }

  class Instance {
    var mountIndex: Option<nat>
    var element: Element
    const node: Node

    constructor (element: Element, node: Node)
      ensures this.element == element && this.node == node
    {
      this.mountIndex := Some(0);
      this.element := element;
      this.node := node;
    }
  }

  // ---------- looking up keys ----------

  /** A place in a list, or none. */
  datatype Slot = Absent | At(index: nat)

  /** Where a dictionary with these keys has the key. */
  function Position(keys: seq<Key>, key: Key): (r: Slot)
    ensures r.At? ==> r.index < |keys| && keys[r.index] == key
    ensures r.Absent? ==> key !in keys
  {
    if keys == [] then Absent
    else if keys[0] == key then At(0)
    else
      match Position(keys[1..], key)
      case Absent => Absent
      case At(i) => At(i + 1)
  }

  /** Where a dictionary has each of the keys of another one. */
  function Positions(keys: seq<Key>, lookups: seq<Key>): (r: seq<Slot>)
    ensures |r| == |lookups|
    ensures forall i | 0 <= i < |r| :: r[i] == Position(keys, lookups[i])
  {
    seq(|lookups|, i requires 0 <= i < |lookups| => Position(keys, lookups[i]))
  }

  /** For each new child its former place, and for each former child its new one. */
  predicate Matched(previous: seq<Slot>, next: seq<Slot>) {
    && (forall i | 0 <= i < |previous| && previous[i].At? ::
          previous[i].index < |next| && next[previous[i].index] == At(i))
    && (forall p | 0 <= p < |next| && next[p].At? ::
          next[p].index < |previous| && previous[next[p].index] == At(p))
  }

  lemma PositionsMatch(former: seq<Key>, wanted: seq<Key>)
    requires Distinct(former) && Distinct(wanted)
    ensures Matched(Positions(former, wanted), Positions(wanted, former))
  {
  }

  /** With distinct keys, a key is found where it stands. */
  lemma KeyIsAt(keys: seq<Key>, key: Key, p: nat)
    requires Distinct(keys) && p < |keys| && keys[p] == key
    ensures Position(keys, key) == At(p)
  {
    DistinctMeans(keys);
  }

  // ---------- choosing instances ----------

  function NodesIn(instances: seq<Instance>): (ns: seq<Node>)
    ensures |ns| == |instances|
    ensures forall i | 0 <= i < |instances| :: ns[i] == instances[i].node
  {
    seq(|instances|, i requires 0 <= i < |instances| => instances[i].node)
  }

  /** Distinct instances with distinct nodes that have been created already. */
  ghost predicate Separate(instances: seq<Instance>, created: nat) {
    Distinct(instances) && Distinct(NodesIn(instances)) &&
    forall i {:trigger instances[i]} | 0 <= i < |instances| :: instances[i].node < created
  }

  /** Each instance shows the element in its place. */
  ghost predicate Showing(instances: seq<Instance>, elements: seq<Element>)
    reads instances
  {
    |elements| == |instances| &&
    forall i {:trigger instances[i]} | 0 <= i < |instances| :: instances[i].element == elements[i]
  }

  /** Instances with mount indices from 0 on. */
  ghost predicate Numbered(instances: seq<Instance>)
    reads instances
  {
    forall i | 0 <= i < |instances| :: instances[i].mountIndex == Some(i)
  }

  /** Does the former instance at the place go on to show the element? */
  predicate Continues(elements: seq<Element>, previous: Slot, wanted: Element) {
    previous.At? && previous.index < |elements| && ShouldUpdate(elements[previous.index], wanted)
  }

  /** Both empty, both text, or components of the same type and key. */
  predicate SameKind(e: Element, w: Element) {
    || (e.Empty? && w.Empty?)
    || (e.Text? && w.Text?)
    || (e.Component? && w.Component? && e.elementType == w.elementType && e.key == w.key)
  }

  lemma ContinuesExactly(elements: seq<Element>, previous: Slot, wanted: Element, p: nat)
    requires p < |elements| && previous == At(p)
    ensures Continues(elements, previous, wanted) <==> SameKind(elements[p], wanted)
  {
  }

  /** For each wanted element, whether a former instance goes on to show it. */
  function Continuing(elements: seq<Element>, previous: seq<Slot>, wanted: seq<Element>): (c: seq<bool>)
    requires |previous| == |wanted|
    ensures |c| == |wanted|
    ensures forall i {:trigger c[i]} | 0 <= i < |c| :: c[i] == Continues(elements, previous[i], wanted[i])
  {
    seq(|wanted|, i requires 0 <= i < |wanted| => Continues(elements, previous[i], wanted[i]))
  }

  /** A former child goes on exactly if the wanted element under its key is of the same kind. */
  lemma ContinuingExactly(elements: seq<Element>, keys: seq<Key>, wantedKeys: seq<Key>, wanted: seq<Element>)
    requires |elements| == |keys| && |wanted| == |wantedKeys| && Distinct(keys)
    ensures var previous := Positions(keys, wantedKeys);
      forall i, p | 0 <= i < |wanted| && 0 <= p < |keys| && wantedKeys[i] == keys[p] ::
        previous[i] == At(p) && (Continuing(elements, previous, wanted)[i] <==> SameKind(elements[p], wanted[i]))
  {
    var previous := Positions(keys, wantedKeys);
    forall i, p | 0 <= i < |wanted| && 0 <= p < |keys| && wantedKeys[i] == keys[p]
      ensures previous[i] == At(p) && (Continuing(elements, previous, wanted)[i] <==> SameKind(elements[p], wanted[i]))
    {
      KeyIsAt(keys, wantedKeys[i], p);
      ContinuesExactly(elements, previous[i], wanted[i], p);
    }
  }

  /** The former children that the first n wanted elements replace. */
  function Replaced(continuing: seq<bool>, previous: seq<Slot>, n: nat): seq<nat>
    requires n <= |continuing| == |previous|
  {
    if n == 0 then []
    else if previous[n - 1].Absent? || continuing[n - 1] then Replaced(continuing, previous, n - 1)
    else Replaced(continuing, previous, n - 1) + [previous[n - 1].index]
  }

  /** Those of the first n former children that are not wanted any more. */
  function Unwanted(next: seq<Slot>, n: nat): seq<nat>
    requires n <= |next|
  {
    if n == 0 then []
    else if next[n - 1].At? then Unwanted(next, n - 1)
    else Unwanted(next, n - 1) + [n - 1]
  }

  /**
   The instance chosen for the i-th element: the former one, or one with a new node.  The list `owners` says
   for which elements nodes have been created, in order.
   */
  ghost predicate Chosen(former: seq<Instance>, continuing: seq<bool>, previous: seq<Slot>,
                         created: nat, owners: seq<nat>, i: nat, child: Instance)
    requires i < |continuing| == |previous|
  {
    if continuing[i] then previous[i].At? && previous[i].index < |former| && child == former[previous[i].index]
    else created <= child.node < created + |owners| && owners[child.node - created] == i
  }

  /** All instances of the list are in the set. */
  ghost predicate Within(instances: seq<Instance>, objects: set<Instance>) {
    forall i | 0 <= i < |instances| :: instances[i] in objects
  }

  /** The children chosen so far, and the former ones not dealt with yet. */
  ghost predicate Choosing(former: seq<Instance>, elements: seq<Element>, continuing: seq<bool>, previous: seq<Slot>,
                           next: seq<Slot>, wanted: seq<Element>, created: nat, owners: seq<nat>,
                           children: seq<Instance>)
    reads former, children
  {
    && |children| <= |wanted| == |previous| == |continuing| && |former| == |elements| == |next|
    && (forall i {:trigger children[i]} | 0 <= i < |children| ::
          Chosen(former, continuing, previous, created, owners, i, children[i]))
    && (forall i {:trigger children[i]} | 0 <= i < |children| :: children[i].element == wanted[i])
    && (forall p {:trigger former[p]} | 0 <= p < |former| && (next[p].Absent? || next[p].index >= |children|) ::
          former[p].element == elements[p])
  }

  /** Keeps, replaces or creates the instance for one wanted element. */
  method ChooseInstance(former: seq<Instance>, ghost elements: seq<Element>, ghost continuing: seq<bool>,
                        previous: seq<Slot>, ghost next: seq<Slot>, wanted: seq<Element>, ghost created: nat,
                        ghost owners: seq<nat>, children: seq<Instance>, node: Node)
    returns (child: Instance, kept: bool)
    requires Separate(former, created) && Matched(previous, next)
    requires Choosing(former, elements, continuing, previous, next, wanted, created, owners, children)
    requires |children| < |wanted| && continuing == Continuing(elements, previous, wanted) && node == created + |owners|
    modifies (if previous[|children|].At? then {former[previous[|children|].index]} else {})`element
    ensures kept == continuing[|children|] && (kept || fresh(child))
    ensures Choosing(former, elements, continuing, previous, next, wanted, created,
              if kept then owners else owners + [|children|], children + [child])
  {
    var u := |children|;
    var at := previous[u];
    if at.At? && ShouldUpdate(former[at.index].element, wanted[u]) {
      child := former[at.index];
      child.element := wanted[u];
      kept := true;
    } else {
      child := new Instance(wanted[u], node);
      kept := false;
    }
  }

  /** All children that are no former ones are in the set. */
  ghost predicate OthersIn(continuing: seq<bool>, children: seq<Instance>, news: set<Instance>) {
    |children| <= |continuing| &&
    forall i {:trigger children[i]} | 0 <= i < |children| :: continuing[i] || children[i] in news
  }

  lemma OneMoreIn(continuing: seq<bool>, children: seq<Instance>, news: set<Instance>, child: Instance)
    requires OthersIn(continuing, children, news) && |children| < |continuing|
    ensures OthersIn(continuing, children + [child],
              if continuing[|children|] then news else news + {child})
  {
  }

  /** Lists the former child that a new instance replaces. */
  method NoteReplaced(ghost continuing: seq<bool>, previous: seq<Slot>, u: nat, kept: bool, removed: seq<nat>)
    returns (removed': seq<nat>)
    requires u < |continuing| == |previous| && kept == continuing[u] && removed == Replaced(continuing, previous, u)
    ensures removed' == Replaced(continuing, previous, u + 1)
  {
    removed' := removed;
    if !kept && previous[u].At? {
      removed' := removed' + [previous[u].index];
    }
  }

  /** One round of the loop. */
  method ChooseNext(former: seq<Instance>, ghost elements: seq<Element>, ghost continuing: seq<bool>,
                    previous: seq<Slot>, ghost next: seq<Slot>, wanted: seq<Element>, ghost created: nat,
                    ghost owners: seq<nat>, children: seq<Instance>, removed: seq<nat>, node: nat,
                    ghost news: set<Instance>)
    returns (children': seq<Instance>, removed': seq<nat>, node': nat, ghost owners': seq<nat>,
             ghost news': set<Instance>)
    requires Separate(former, created) && Matched(previous, next) && |children| < |wanted|
    requires Choosing(former, elements, continuing, previous, next, wanted, created, owners, children)
    requires continuing == Continuing(elements, previous, wanted) && node == created + |owners|
    requires OthersIn(continuing, children, news) && removed == Replaced(continuing, previous, |children|)
    modifies (if previous[|children|].At? then {former[previous[|children|].index]} else {})`element
    ensures Choosing(former, elements, continuing, previous, next, wanted, created, owners', children')
    ensures |children'| == |children| + 1 && node' == created + |owners'|
    ensures OthersIn(continuing, children', news') && fresh(news' - news)
    ensures removed' == Replaced(continuing, previous, |children'|)
  {
    var child, kept := ChooseInstance(former, elements, continuing, previous, next,
                                      wanted, created, owners, children, node);
    OneMoreIn(continuing, children, news, child);
    news' := if kept then news else news + {child};
    removed' := NoteReplaced(continuing, previous, |children|, kept, removed);
    children', node', owners' := children + [child], node, owners;
    if !kept {
      owners', node' := owners + [|children|], node + 1;
    }
  }

  /** Keeps, replaces or creates an instance for each wanted element, and lists who was replaced. */
  method ChooseInstances(former: seq<Instance>, ghost objects: set<Instance>, ghost elements: seq<Element>,
                         previous: seq<Slot>, ghost next: seq<Slot>, wanted: seq<Element>, created: nat)
    returns (children: seq<Instance>, removed: seq<nat>, created': nat, ghost owners: seq<nat>)
    requires |previous| == |wanted| && |next| == |former| && Matched(previous, next)
    requires Separate(former, created) && Within(former, objects) && Showing(former, elements)
    modifies objects`element
    ensures |children| == |wanted| && created' == created + |owners|
    ensures var continuing := Continuing(elements, previous, wanted);
      && Choosing(former, elements, continuing, previous, next, wanted, created, owners, children)
      && (forall i {:trigger children[i]} | 0 <= i < |children| :: continuing[i] || fresh(children[i]))
      && removed == Replaced(continuing, previous, |wanted|)
  {
    ghost var continuing := Continuing(elements, previous, wanted);
    children, removed, owners := [], [], [];
    created' := created;
    var u := 0;
    ghost var news: set<Instance> := {};
    while u < |wanted|
      invariant 0 <= u <= |wanted| && |children| == u && created' == created + |owners|
      invariant Choosing(former, elements, continuing, previous, next, wanted, created, owners, children)
      invariant fresh(news) && OthersIn(continuing, children, news)
      invariant removed == Replaced(continuing, previous, u)
    {
      children, removed, created', owners, news :=
        ChooseNext(former, elements, continuing, previous, next,
                   wanted, created, owners, children, removed, created', news);
      u := u + 1;
    }
  }

  // ---------- what has been chosen ----------

  /** All children are chosen. */
  ghost predicate AllChosen(former: seq<Instance>, continuing: seq<bool>, previous: seq<Slot>, next: seq<Slot>,
                            created: nat, owners: seq<nat>, children: seq<Instance>)
  {
    && |children| == |previous| == |continuing| && |former| == |next| && Matched(previous, next)
    && Separate(former, created)
    && forall i {:trigger children[i]} | 0 <= i < |children| ::
        Chosen(former, continuing, previous, created, owners, i, children[i])
  }

  /** The chosen children are distinct and have distinct nodes. */
  lemma ChosenAreSeparate(former: seq<Instance>, continuing: seq<bool>, previous: seq<Slot>, next: seq<Slot>,
                          created: nat, owners: seq<nat>, children: seq<Instance>)
    requires AllChosen(former, continuing, previous, next, created, owners, children)
    ensures Separate(children, created + |owners|)
  {
    var nodes, formerNodes := NodesIn(children), NodesIn(former);
    forall i, j | 0 <= i < j < |children|
      ensures nodes[i] != nodes[j]
    {
      assert Chosen(former, continuing, previous, created, owners, i, children[i]);
      assert Chosen(former, continuing, previous, created, owners, j, children[j]);
      if continuing[i] && continuing[j] {
        assert Place(formerNodes, formerNodes[previous[i].index]) == previous[i].index;
        assert Place(formerNodes, formerNodes[previous[j].index]) == previous[j].index;
      }
    }
    DistinctMeans(nodes);
    forall i, j | 0 <= i < j < |children|
      ensures children[i] != children[j]
    {
      assert nodes[i] != nodes[j];
    }
    DistinctMeans(children);
  }

  /** Does the former child at place p stay under the same instance? */
  predicate Stays(continuing: seq<bool>, next: seq<Slot>, p: nat)
    requires p < |next|
  {
    next[p].At? && next[p].index < |continuing| && continuing[next[p].index]
  }

  /** A former child stays exactly if it is among the children, at its new place. */
  lemma StaysMeansChosen(former: seq<Instance>, continuing: seq<bool>, previous: seq<Slot>, next: seq<Slot>,
                         created: nat, owners: seq<nat>, children: seq<Instance>, p: nat, i: nat)
    requires AllChosen(former, continuing, previous, next, created, owners, children)
    requires p < |former| && i < |children|
    ensures former[p].node == children[i].node <==> former[p] == children[i]
    ensures former[p] == children[i] <==> Stays(continuing, next, p) && next[p] == At(i)
  {
    assert Chosen(former, continuing, previous, created, owners, i, children[i]);
    var formerNodes := NodesIn(former);
    assert Place(formerNodes, formerNodes[p]) == p;
    if continuing[i] {
      assert Place(formerNodes, formerNodes[previous[i].index]) == previous[i].index;
    }
  }

  // ---------- the entries of the script ----------

  function EntryFor(continuing: bool, at: Slot, node: Node): Entry {
    if at.At? && continuing then Kept(node, at.index) else Mounted(node, if at.At? then Some(at.index) else None)
  }

  function EntriesFor(continuing: seq<bool>, previous: seq<Slot>, nodes: seq<Node>): (es: seq<Entry>)
    requires |continuing| == |previous| == |nodes|
    ensures |es| == |nodes|
    ensures forall i {:trigger es[i]} | 0 <= i < |es| :: es[i] == EntryFor(continuing[i], previous[i], nodes[i])
  {
    seq(|nodes|, i requires 0 <= i < |nodes| => EntryFor(continuing[i], previous[i], nodes[i]))
  }

  lemma EntriesDescribe(former: seq<Instance>, continuing: seq<bool>, previous: seq<Slot>, next: seq<Slot>,
                        created: nat, owners: seq<nat>, children: seq<Instance>)
    requires AllChosen(former, continuing, previous, next, created, owners, children)
    ensures var entries := EntriesFor(continuing, previous, NodesIn(children));
      Describes(entries, NodesIn(former)) && NodesOf(entries) == NodesIn(children)
  {
    var entries := EntriesFor(continuing, previous, NodesIn(children));
    ChosenAreSeparate(former, continuing, previous, next, created, owners, children);
    assert NodesOf(entries) == NodesIn(children);
    forall i | 0 <= i < |entries|
      ensures entries[i].FormerIndex().Some? ==>
        entries[i].FormerIndex().value < |former| && next[entries[i].FormerIndex().value] == At(i)
      ensures if entries[i].Kept? then NodesIn(former)[entries[i].oldIndex] == entries[i].node
              else entries[i].node !in NodesIn(former)
    {
      assert Chosen(former, continuing, previous, created, owners, i, children[i]);
    }
    forall e | e in entries
      ensures e.FormerIndex().Some? ==> e.FormerIndex().value < |former|
      ensures if e.Kept? then NodesIn(former)[e.oldIndex] == e.node else e.node !in NodesIn(former)
    {
      var i :| 0 <= i < |entries| && entries[i] == e;
    }
  }

  // ---------- what is removed ----------

  /** The former children that do not stay: those replaced, then those not wanted. */
  function Removed(continuing: seq<bool>, previous: seq<Slot>, next: seq<Slot>): seq<nat>
    requires |continuing| == |previous|
  {
    Replaced(continuing, previous, |previous|) + Unwanted(next, |next|)
  }

  lemma {:induction false} ReplacedAt(continuing: seq<bool>, previous: seq<Slot>, next: seq<Slot>, n: nat, p: nat)
    requires n <= |continuing| == |previous| && Matched(previous, next)
    ensures p in Replaced(continuing, previous, n) <==>
      p < |next| && next[p].At? && next[p].index < n && !continuing[next[p].index]
  {
    if n > 0 {
      ReplacedAt(continuing, previous, next, n - 1, p);
      if previous[n - 1].At? {
        assert next[previous[n - 1].index] == At(n - 1);
      }
    }
  }

  lemma {:induction false} ReplacedAre(continuing: seq<bool>, previous: seq<Slot>, next: seq<Slot>, n: nat)
    requires n <= |continuing| == |previous| && Matched(previous, next)
    ensures Distinct(Replaced(continuing, previous, n))
  {
    if n > 0 {
      ReplacedAre(continuing, previous, next, n - 1);
      if previous[n - 1].At? && !continuing[n - 1] {
        ReplacedAt(continuing, previous, next, n - 1, previous[n - 1].index);
        DistinctLast(Replaced(continuing, previous, n - 1), previous[n - 1].index);
      }
    }
  }

  lemma {:induction false} UnwantedAre(next: seq<Slot>, n: nat)
    requires n <= |next|
    ensures var removed := Unwanted(next, n);
      Distinct(removed) && forall p :: p in removed <==> 0 <= p < n && next[p].Absent?
  {
    if n > 0 {
      UnwantedAre(next, n - 1);
      if next[n - 1].Absent? {
        DistinctLast(Unwanted(next, n - 1), n - 1);
      }
    }
  }

  lemma DistinctLast(s: seq<nat>, x: nat)
    requires Distinct(s) && x !in s
    ensures Distinct(s + [x])
  {
    assert forall i, j | 0 <= i < j < |s| :: s[i] != s[j] by {
      assert forall i | 0 <= i < |s| :: Place(s, s[i]) == i;
    }
    DistinctMeans(s + [x]);
  }

  lemma DistinctConcat(a: seq<nat>, b: seq<nat>)
    requires Distinct(a) && Distinct(b) && forall x <- a :: x !in b
    ensures Distinct(a + b)
  {
    var s := a + b;
    forall i, j | 0 <= i < j < |s|
      ensures s[i] != s[j]
    {
      assert i < |a| ==> s[i] in a && Place(a, a[i]) == i;
      assert i >= |a| ==> s[i] == b[i - |a|] && Place(b, b[i - |a|]) == i - |a|;
      assert j < |a| ==> Place(a, a[j]) == j;
      assert j >= |a| ==> s[j] in b && Place(b, b[j - |a|]) == j - |a|;
    }
    DistinctMeans(s);
  }

  /** Exactly the former children that do not stay are removed, each once. */
  lemma RemovedAre(continuing: seq<bool>, previous: seq<Slot>, next: seq<Slot>)
    requires |continuing| == |previous| && Matched(previous, next)
    ensures var removed := Removed(continuing, previous, next);
      Distinct(removed) && forall p :: p in removed <==> 0 <= p < |next| && !Stays(continuing, next, p)
  {
    ReplacedAre(continuing, previous, next, |previous|);
    forall p: nat {
      ReplacedAt(continuing, previous, next, |previous|, p);
    }
    UnwantedAre(next, |next|);
    DistinctConcat(Replaced(continuing, previous, |previous|), Unwanted(next, |next|));
  }

  // ---------- emitting the script ----------

  /** The first u children carry their new numbers, and the former ones not among these their old numbers. */
  ghost predicate Placing(former: seq<Instance>, continuing: seq<bool>, next: seq<Slot>, children: seq<Instance>,
                          u: nat)
    reads former, children
  {
    && u <= |children| && |former| == |next|
    && (forall i {:trigger children[i]} | 0 <= i < u :: children[i].mountIndex == Some(i))
    && (forall p {:trigger former[p]} | 0 <= p < |former| && !(Stays(continuing, next, p) && next[p].index < u) ::
          former[p].mountIndex == Some(p))
  }

  /** Emits the update for one child, if it needs one, and numbers it. */
  method PlaceChild(former: seq<Instance>, ghost continuing: seq<bool>, previous: seq<Slot>, ghost next: seq<Slot>,
                    ghost created: nat, ghost owners: seq<nat>, children: seq<Instance>, plan: Plan)
    returns (plan': Plan)
    requires AllChosen(former, continuing, previous, next, created, owners, children)
    requires Separate(children, created + |owners|)
    requires plan.nextIndex < |children| && Placing(former, continuing, next, children, plan.nextIndex)
    modifies {children[plan.nextIndex]}`mountIndex
    ensures plan' == Advance(plan,
              EntryFor(continuing[plan.nextIndex], previous[plan.nextIndex], children[plan.nextIndex].node))
    ensures Placing(former, continuing, next, children, plan.nextIndex + 1)
  {
    var Plan(script, lastIndex, u, lastNode) := plan;
    var at, child := previous[u], children[u];
    assert Chosen(former, continuing, previous, created, owners, u, child);
    if at.At? {
      StaysMeansChosen(former, continuing, previous, next, created, owners, children, at.index, u);
    }
    if at.At? && former[at.index] == child {
      if child.mountIndex.value < lastIndex {
        script := script + [MoveExisting(child.mountIndex.value, child.node, u, lastNode)];
      }
      lastIndex := Max(child.mountIndex.value, lastIndex);
    } else {
      if at.At? {
        lastIndex := Max(former[at.index].mountIndex.value, lastIndex);
      }
      script := script + [InsertMarkup(child.node, u, lastNode)];
    }
    NumberChild(former, continuing, previous, next, created, owners, children, u);
    plan' := Plan(script, lastIndex, u + 1, Some(child.node));
  }

  method NumberChild(ghost former: seq<Instance>, ghost continuing: seq<bool>, ghost previous: seq<Slot>,
                     ghost next: seq<Slot>, ghost created: nat, ghost owners: seq<nat>, children: seq<Instance>, u: nat)
    requires AllChosen(former, continuing, previous, next, created, owners, children)
    requires Separate(children, created + |owners|)
    requires u < |children| && Placing(former, continuing, next, children, u)
    modifies {children[u]}`mountIndex
    ensures Placing(former, continuing, next, children, u + 1)
  {
    forall p | 0 <= p < |former|
      ensures former[p] == children[u] ==> Stays(continuing, next, p) && next[p].index == u
    {
      StaysMeansChosen(former, continuing, previous, next, created, owners, children, p, u);
    }
    assert Place(children, children[u]) == u;
    children[u].mountIndex := Some(u);
  }

  lemma PlanNext(entries: seq<Entry>, u: nat)
    requires u < |entries|
    ensures PlanFor(entries[..u + 1]) == Advance(PlanFor(entries[..u]), entries[u])
  {
    assert entries[..u + 1] == entries[..u] + [entries[u]];
    PlanLast(entries[..u], entries[u]);
  }

  /** One round of the loop. */
  method PlaceNext(former: seq<Instance>, ghost continuing: seq<bool>, previous: seq<Slot>, ghost next: seq<Slot>,
                   ghost created: nat, ghost owners: seq<nat>, children: seq<Instance>, plan: Plan)
    returns (plan': Plan)
    requires AllChosen(former, continuing, previous, next, created, owners, children)
    requires Separate(children, created + |owners|)
    requires plan.nextIndex < |children| && Placing(former, continuing, next, children, plan.nextIndex)
    requires plan == PlanFor(EntriesFor(continuing, previous, NodesIn(children))[..plan.nextIndex])
    modifies {children[plan.nextIndex]}`mountIndex
    ensures plan.nextIndex < plan'.nextIndex <= |children|
    ensures plan' == PlanFor(EntriesFor(continuing, previous, NodesIn(children))[..plan'.nextIndex])
    ensures Placing(former, continuing, next, children, plan'.nextIndex)
  {
    PlanNext(EntriesFor(continuing, previous, NodesIn(children)), plan.nextIndex);
    plan' := PlaceChild(former, continuing, previous, next, created, owners, children, plan);
  }

  /** Emits the insertions and moves, numbering the children in passing. */
  method EmitPlacements(former: seq<Instance>, ghost continuing: seq<bool>, previous: seq<Slot>, ghost next: seq<Slot>,
                        ghost created: nat, ghost owners: seq<nat>, children: seq<Instance>,
                        ghost objects: set<Instance>)
    returns (script: seq<Update>)
    requires AllChosen(former, continuing, previous, next, created, owners, children)
    requires Within(children, objects) && Numbered(former)
    modifies objects`mountIndex
    ensures Placing(former, continuing, next, children, |children|)
    ensures script == PlanFor(EntriesFor(continuing, previous, NodesIn(children))).script
  {
    ghost var entries := EntriesFor(continuing, previous, NodesIn(children));
    ChosenAreSeparate(former, continuing, previous, next, created, owners, children);
    var plan := Plan([], 0, 0, None);
    while plan.nextIndex < |children|
      invariant plan.nextIndex <= |children|
      invariant plan == PlanFor(entries[..plan.nextIndex])
      invariant Placing(former, continuing, next, children, plan.nextIndex)
      decreases |children| - plan.nextIndex
    {
      plan := PlaceNext(former, continuing, previous, next, created, owners, children, plan);
    }
    assert entries[..|children|] == entries;
    script := plan.script;
  }

  /** The nodes of former children, given by their places. */
  function NodesAt(former: seq<Instance>, places: seq<nat>): (ns: seq<Node>)
    requires forall j {:trigger places[j]} | 0 <= j < |places| :: places[j] < |former|
    ensures |ns| == |places|
    ensures forall j | 0 <= j < |places| :: ns[j] == former[places[j]].node
  {
    seq(|places|, j requires 0 <= j < |places| => former[places[j]].node)
  }

  function RemovedNodesOf(former: seq<Instance>, continuing: seq<bool>, previous: seq<Slot>, next: seq<Slot>): seq<Node>
    requires |continuing| == |previous| && |next| == |former| && Matched(previous, next)
  {
    var removed := Removed(continuing, previous, next);
    RemovedAre(continuing, previous, next);
    assert forall j {:trigger removed[j]} | 0 <= j < |removed| :: removed[j] in removed;
    NodesAt(former, removed)
  }

  lemma RemovedNodesLast(script: seq<Update>, u: Update)
    requires Removals(script) && u.RemoveNode?
    ensures Removals(script + [u]) && RemovedNodes(script + [u]) == RemovedNodes(script) + [u.fromNode]
  {
  }

  /** The former children at the given places are among those that go, and still carry their numbers. */
  ghost predicate Leaving(former: seq<Instance>, removed: seq<nat>, gone: set<Instance>)
    reads gone
  {
    && (forall j {:trigger removed[j]} | 0 <= j < |removed| :: removed[j] < |former|)
    && (forall j {:trigger removed[j]} | 0 <= j < |removed| ::
          former[removed[j]] in gone && former[removed[j]].mountIndex == Some(removed[j]))
  }

  /** Emits a removal for every former child that does not stay, and takes its number away. */
  method EmitRemovals(former: seq<Instance>, removed: seq<nat>, ghost gone: set<Instance>) returns (script: seq<Update>)
    requires Distinct(former) && Distinct(removed)
    requires Leaving(former, removed, gone)
    modifies gone`mountIndex
    ensures Removals(script) && RemovedNodes(script) == NodesAt(former, removed)
    ensures |script| == |removed|
    ensures forall i | 0 <= i < |removed| :: script[i] == RemoveNode(removed[i], former[removed[i]].node)
  {
    script := [];
    var j := 0;
    while j < |removed|
      invariant 0 <= j <= |removed| && |script| == j
      invariant forall i | 0 <= i < j :: script[i] == RemoveNode(removed[i], former[removed[i]].node)
      invariant Removals(script) && RemovedNodes(script) == NodesAt(former, removed)[..j]
      invariant forall k {:trigger removed[k]} | j <= k < |removed| :: former[removed[k]].mountIndex == Some(removed[k])
    {
      var child := former[removed[j]];
      var u := RemoveNode(child.mountIndex.value, child.node);
      RemovedNodesLast(script, u);
      script := script + [u];
      child.mountIndex := None;
      j := j + 1;
    }
  }

  /** The nodes of the removed children are those of former children that are no longer among the children. */
  lemma RemovedNodesAre(former: seq<Instance>, continuing: seq<bool>, previous: seq<Slot>, next: seq<Slot>,
                        created: nat, owners: seq<nat>, children: seq<Instance>)
    requires AllChosen(former, continuing, previous, next, created, owners, children)
    ensures var gone := RemovedNodesOf(former, continuing, previous, next);
      Distinct(gone) && forall x :: x in gone <==> x in NodesIn(former) && x !in NodesIn(children)
  {
    var removed := Removed(continuing, previous, next);
    RemovedAre(continuing, previous, next);
    var gone, nodes := RemovedNodesOf(former, continuing, previous, next), NodesIn(former);
    assert |gone| == |removed| && forall j {:trigger gone[j]} | 0 <= j < |gone| ::
      removed[j] in removed && gone[j] == former[removed[j]].node;
    forall j, k | 0 <= j < k < |removed|
      ensures gone[j] != gone[k]
    {
      assert Place(removed, removed[j]) == j && Place(removed, removed[k]) == k;
      assert Place(nodes, nodes[removed[j]]) == removed[j] && Place(nodes, nodes[removed[k]]) == removed[k];
    }
    DistinctMeans(gone);
    forall p | 0 <= p < |former|
      ensures Stays(continuing, next, p) <==> nodes[p] in NodesIn(children)
    {
      StayingNodes(former, continuing, previous, next, created, owners, children, p);
    }
    forall x
      ensures x in gone <==> x in nodes && x !in NodesIn(children)
    {
      if x in gone {
        var j :| 0 <= j < |removed| && gone[j] == x;
        assert removed[j] in removed && nodes[removed[j]] == x;
      }
      if x in nodes && x !in NodesIn(children) {
        var p :| 0 <= p < |former| && nodes[p] == x;
        assert p in removed;
        var j :| 0 <= j < |removed| && removed[j] == p;
        assert gone[j] == x;
      }
    }
  }

  lemma StayingNodes(former: seq<Instance>, continuing: seq<bool>, previous: seq<Slot>, next: seq<Slot>,
                     created: nat, owners: seq<nat>, children: seq<Instance>, p: nat)
    requires AllChosen(former, continuing, previous, next, created, owners, children) && p < |former|
    ensures Stays(continuing, next, p) <==> former[p].node in NodesIn(children)
  {
    if Stays(continuing, next, p) {
      StaysMeansChosen(former, continuing, previous, next, created, owners, children, p, next[p].index);
      assert NodesIn(children)[next[p].index] == former[p].node;
    }
    if former[p].node in NodesIn(children) {
      var i :| 0 <= i < |children| && NodesIn(children)[i] == former[p].node;
      StaysMeansChosen(former, continuing, previous, next, created, owners, children, p, i);
    }
  }

  /** Running the emitted script leaves the nodes of the children in their order. */
  lemma ScriptShowsChildren(former: seq<Instance>, continuing: seq<bool>, previous: seq<Slot>, next: seq<Slot>,
                            created: nat, owners: seq<nat>, children: seq<Instance>,
                            placements: seq<Update>, removals: seq<Update>)
    requires AllChosen(former, continuing, previous, next, created, owners, children)
    requires placements == PlanFor(EntriesFor(continuing, previous, NodesIn(children))).script
    requires Removals(removals) && RemovedNodes(removals) == RemovedNodesOf(former, continuing, previous, next)
    ensures ApplyAll(NodesIn(former), placements + removals) == Some(NodesIn(children))
  {
    EntriesDescribe(former, continuing, previous, next, created, owners, children);
    RemovedNodesAre(former, continuing, previous, next, created, owners, children);
    ScriptBuildsNewChildren(NodesIn(former), EntriesFor(continuing, previous, NodesIn(children)), removals);
  }

  // ---------- the component ----------

  /** The former children whose keys are not wanted any more. */
  method ListUnwanted(next: seq<Slot>) returns (unwanted: seq<nat>)
    ensures unwanted == Unwanted(next, |next|)
  {
    unwanted := [];
    for p := 0 to |next|
      invariant unwanted == Unwanted(next, p)
    {
      if next[p].Absent? {
        unwanted := unwanted + [p];
      }
    }
  }

  /** The former children that do not stay. */
  ghost function Gone(former: seq<Instance>, continuing: seq<bool>, next: seq<Slot>): (gone: set<Instance>)
    requires |next| == |former|
  {
    set p | 0 <= p < |former| && !Stays(continuing, next, p) :: former[p]
  }

  /** None of the children is among those that go, and these still carry their numbers. */
  lemma GoneAreLeaving(former: seq<Instance>, continuing: seq<bool>, previous: seq<Slot>, next: seq<Slot>,
                       created: nat, owners: seq<nat>, children: seq<Instance>, removed: seq<nat>)
    requires AllChosen(former, continuing, previous, next, created, owners, children)
    requires Placing(former, continuing, next, children, |children|)
    requires removed == Removed(continuing, previous, next)
    ensures Distinct(removed) && Leaving(former, removed, Gone(former, continuing, next))
    ensures forall i {:trigger children[i]} | 0 <= i < |children| :: children[i] !in Gone(former, continuing, next)
  {
    RemovedAre(continuing, previous, next);
    assert forall j {:trigger removed[j]} | 0 <= j < |removed| :: removed[j] in removed;
    var gone := Gone(former, continuing, next);
    assert forall j {:trigger removed[j]} | 0 <= j < |removed| :: former[removed[j]] in gone;
    forall i | 0 <= i < |children|
      ensures children[i] !in gone
    {
      forall p | 0 <= p < |former| && !Stays(continuing, next, p)
        ensures children[i] != former[p]
      {
        StaysMeansChosen(former, continuing, previous, next, created, owners, children, p, i);
      }
    }
  }

  /** Emits the script for the children chosen, numbers them, and runs the script on the node list. */
  method Rearrange(former: seq<Instance>, ghost continuing: seq<bool>, previous: seq<Slot>, ghost next: seq<Slot>,
                   ghost created: nat, ghost owners: seq<nat>, children: seq<Instance>, removed: seq<nat>,
                   nodes: seq<Node>, ghost objects: set<Instance>)
    returns (nodes': seq<Node>)
    requires AllChosen(former, continuing, previous, next, created, owners, children)
    requires Within(former, objects) && Within(children, objects) && Numbered(former)
    requires removed == Removed(continuing, previous, next) && nodes == NodesIn(former)
    modifies objects`mountIndex
    ensures Numbered(children) && nodes' == NodesIn(children)
  {
    var placements := EmitPlacements(former, continuing, previous, next, created, owners, children, objects);
    GoneAreLeaving(former, continuing, previous, next, created, owners, children, removed);
    ghost var gone := Gone(former, continuing, next);
    assert gone <= objects;
    var removals := EmitRemovals(former, removed, gone);
    ScriptShowsChildren(former, continuing, previous, next, created, owners, children, placements, removals);
    var r := ProcessUpdates(nodes, placements + removals);
    nodes' := r.value;
  }

  /** What each instance shows. */
  ghost function Elements(instances: seq<Instance>): (es: seq<Element>)
    reads instances
    ensures Showing(instances, es)
  {
    seq(|instances|, i requires 0 <= i < |instances| reads instances => instances[i].element)
  }

  /** A continuing child is the former instance, any other one is new. */
  twostate predicate KeptOrFresh(former: seq<Instance>, continuing: seq<bool>, previous: seq<Slot>, created: nat,
                                 new children: seq<Instance>)
  {
    && |continuing| == |previous| == |children|
    && (forall i {:trigger children[i]} | 0 <= i < |children| && continuing[i] ::
          previous[i].At? && previous[i].index < |former| && children[i] == former[previous[i].index])
    && (forall i {:trigger children[i]} | 0 <= i < |children| && !continuing[i] ::
          fresh(children[i]) && children[i].node >= created)
  }

  /** Chooses the children, then emits and runs the script that shows them. */
  method Reconcile(former: seq<Instance>, ghost objects: set<Instance>, ghost elements: seq<Element>,
                   previous: seq<Slot>, next: seq<Slot>, wanted: seq<Element>, created: nat, nodes: seq<Node>)
    returns (children: seq<Instance>, created': nat, nodes': seq<Node>)
    requires |previous| == |wanted| && |next| == |former| && Matched(previous, next)
    requires Separate(former, created) && Within(former, objects) && Showing(former, elements) && Numbered(former)
    requires nodes == NodesIn(former)
    modifies objects
    ensures |children| == |wanted| && Separate(children, created') && created' >= created
    ensures Showing(children, wanted) && Numbered(children) && nodes' == NodesIn(children)
    ensures KeptOrFresh(former, Continuing(elements, previous, wanted), previous, created, children)
  {
    var removed, unwanted;
    ghost var owners;
    children, removed, created', owners := ChooseInstances(former, objects, elements, previous, next, wanted, created);
    unwanted := ListUnwanted(next);
    ghost var continuing := Continuing(elements, previous, wanted);
    ghost var all := objects + set i | 0 <= i < |children| :: children[i];
    assert Within(children, all);
    ChosenAreSeparate(former, continuing, previous, next, created, owners, children);
    nodes' := Rearrange(former, continuing, previous, next, created, owners, children, removed + unwanted, nodes, all);
  }

  /** A component with keyed children, and the list of nodes that shows them. */
  class MultiChild {
    var keys: seq<Key>
    var renderedChildren: seq<Instance>
    var nodes: seq<Node>
    var created: nat
    ghost var Repr: set<Instance>

    ghost predicate Valid()
      reads this, Repr, renderedChildren
    {
      && |keys| == |renderedChildren| && Distinct(keys)
      && Separate(renderedChildren, created) && Within(renderedChildren, Repr)
      && Numbered(renderedChildren) && nodes == NodesIn(renderedChildren)
    }

    constructor ()
      ensures Valid() && keys == [] && Repr == {}
    {
      keys, renderedChildren, nodes, created, Repr := [], [], [], 0, {};
    }

    /**
     Shows the wanted elements under the wanted keys: a child whose key stays and whose element the former
     instance accepts keeps that instance and its node, every other child gets a new one.
     */
    method UpdateChildren(wantedKeys: seq<Key>, wanted: seq<Element>)
      requires Valid() && |wantedKeys| == |wanted| && Distinct(wantedKeys)
      modifies this, Repr
      ensures Valid() && fresh(Repr - old(Repr))
      ensures keys == wantedKeys && Showing(renderedChildren, wanted)
      ensures nodes == NodesIn(renderedChildren)
      ensures |renderedChildren| == |nodes| == |wanted|
      ensures forall i | 0 <= i < |wanted| ::
        var child := renderedChildren[i];
        child.element == wanted[i] && child.mountIndex == Some(i) && child.node == nodes[i]
      ensures forall i, p | 0 <= i < |wanted| && 0 <= p < |old(keys)| && wantedKeys[i] == old(keys)[p] ::
        var child, e, w := renderedChildren[i], old(renderedChildren[p].element), wanted[i];
        if || (e.Empty? && w.Empty?)
           || (e.Text? && w.Text?)
           || (e.Component? && w.Component? && e.elementType == w.elementType && e.key == w.key)
        then child == old(renderedChildren)[p]
        else fresh(child) && child.node !in old(nodes)
      ensures forall i | 0 <= i < |wanted| && wantedKeys[i] !in old(keys) ::
        fresh(renderedChildren[i]) && renderedChildren[i].node !in old(nodes)
      ensures KeptOrFresh(old(renderedChildren),
                Continuing(old(Elements(renderedChildren)), Positions(old(keys), wantedKeys), wanted),
                Positions(old(keys), wantedKeys), old(created), renderedChildren)
    {
      ghost var elements := Elements(renderedChildren);
      ghost var oldKeys, oldNodes := keys, nodes;
      assert forall n <- nodes :: n < created;
      var previous := Positions(keys, wantedKeys);
      var next := Positions(wantedKeys, keys);
      PositionsMatch(keys, wantedKeys);
      var children, created', nodes' :=
        Reconcile(renderedChildren, Repr, Elements(renderedChildren), previous, next, wanted, created, nodes);
      Adopt(wantedKeys, children, created', nodes');
      ContinuingExactly(elements, oldKeys, wantedKeys, wanted);
    }

    /** Makes these the children. */
    method Adopt(keys: seq<Key>, children: seq<Instance>, created: nat, nodes: seq<Node>)
      requires |keys| == |children| && Distinct(keys)
      requires Separate(children, created) && Numbered(children) && nodes == NodesIn(children)
      modifies this
      ensures Valid() && this.keys == keys && renderedChildren == children
      ensures Repr == set i | 0 <= i < |children| :: children[i]
    {
      this.keys, renderedChildren, this.created, this.nodes := keys, children, created, nodes;
      Repr := set i | 0 <= i < |children| :: children[i];
    }
  }
}

/**
 Compiling structured variable declarations into plain assignments, defaults/JSXTransformer.js:14178-14278, with
 object rest from defaults/JSXTransformer.js:14840-14876.
 */
module Destructuring {
  import opened Options

  // ---------- patterns ----------

  datatype Key = Identifier(name: string) | Literal(text: string) {
    /** The property that the key stands for. */
    function Property(): string {
      match this
      case Identifier(name) => name
      case Literal(text) => text
    }
  }

  datatype Pattern = ObjectPattern(properties: seq<Property>) | ArrayPattern(elements: seq<Element>) {
    function Size(): nat {
      match this
      case ObjectPattern(properties) => |properties|
      case ArrayPattern(elements) => |elements|
    }
  }

  datatype Property = Property(key: Key, value: Target) | SpreadProperty(argument: string)

  datatype Element = Hole | Element(value: Target) | SpreadElement(argument: string)

  datatype Target = Variable(name: string) | Nested(pattern: Pattern)

  // ---------- compiled code ----------

  datatype Place = Temp(index: nat) | Var(name: string)

  datatype Accessor = Named(name: string) | At(index: nat)

  /** What is assigned; the names excluded from a rest are those of the keys, where a literal key has none. */
  datatype Source =
    | Get(temp: nat, accessor: Accessor)
    | Slice(temp: nat, from: nat)
    | Rest(temp: nat, excluded: seq<Option<string>>)

  /** What stands between two commas. */
  datatype Segment = Blank | Assign(place: Place, source: Source)

  /** The code is free of syntax errors: nothing between commas is missing, and no excluded name is. */
  predicate ValidSegment(s: Segment) {
    s.Assign? && (s.source.Rest? ==> forall n <- s.source.excluded :: n.Some?)
  }

  predicate ValidCode(code: seq<Segment>) {
    forall s <- code :: ValidSegment(s)
  }

  datatype Compiled = Compiled(code: seq<Segment>, next: nat)

  function Then(c: Compiled, d: Compiled): Compiled {
    Compiled(c.code + d.code, d.next)
  }

  /** The name of a property that is not spread; a literal key has none. */
  function PropertyName(p: Property): seq<Option<string>> {
    if p.SpreadProperty? then [] else if p.key.Identifier? then [Some(p.key.name)] else [None]
  }

  /** The names of the properties, defaults/JSXTransformer.js:14840-14853. */
  function PropertyNames(properties: seq<Property>): seq<Option<string>> {
    if properties == [] then [] else PropertyName(properties[0]) + PropertyNames(properties[1..])
  }

  /** Code that assigns the source to the target; `next` is the index of the last temporary taken. */
  function TargetCode(target: Target, source: Source, next: nat): (c: Compiled)
    ensures c.next >= next
    decreases target, 0
  {
    match target
    case Variable(name) => Compiled([Assign(Var(name), source)], next)
    case Nested(pattern) => Then(Compiled([Assign(Temp(next + 1), source)], next + 1), PatternCode(pattern, next + 1))
  }

  /** Code for the idx-th item of a pattern whose value is in the temporary `temp`. */
  function ItemCode(node: Pattern, idx: nat, temp: nat, next: nat): (c: Compiled)
    requires idx < node.Size()
    ensures c.next >= next
    decreases node, 0
  {
    match node
    case ObjectPattern(properties) =>
      (match properties[idx]
       case SpreadProperty(argument) => Compiled([Assign(Var(argument), Rest(temp, PropertyNames(properties)))], next)
       case Property(key, value) => TargetCode(value, Get(temp, Named(key.Property())), next))
    case ArrayPattern(elements) =>
      (match elements[idx]
       case Hole => Compiled([], next)
       case SpreadElement(argument) => Compiled([Assign(Var(argument), Slice(temp, idx))], next)
       case Element(value) => TargetCode(value, Get(temp, At(idx)), next))
  }

  function ItemsCode(node: Pattern, idx: nat, temp: nat, next: nat): (c: Compiled)
    requires idx <= node.Size()
    ensures c.next >= next
    decreases node, 1, node.Size() - idx
  {
    if idx == node.Size() then Compiled([], next)
    else
      var c := ItemCode(node, idx, temp, next);
      Then(c, ItemsCode(node, idx + 1, temp, c.next))
  }

  /** The joined components; if there are none, nothing stands where they should. */
  function Joined(c: Compiled): Compiled {
    if c.code == [] then c.(code := [Blank]) else c
  }

  /** Code for a pattern whose value is in the temporary with the given index. */
  function PatternCode(node: Pattern, index: nat): (c: Compiled)
    ensures c.next >= index
    decreases node, 2
  {
    Joined(ItemsCode(node, 0, index, index))
  }

  // ---------- running it ----------

  /** How the values of the program behave; nothing stands for an exception. */
  datatype Runtime<!V> = Runtime(get: (V, Accessor) -> Option<V>, slice: (V, nat) -> Option<V>,
                                 rest: (V, set<string>) -> Option<V>)

  function Names(excluded: seq<Option<string>>): set<string> {
    set n | n in excluded && n.Some? :: n.value
  }

  function Value<V>(source: Source, env: map<Place, V>, r: Runtime<V>): Option<V> {
    if Temp(source.temp) !in env then None
    else
      var v := env[Temp(source.temp)];
      match source
      case Get(_, accessor) => r.get(v, accessor)
      case Slice(_, from) => r.slice(v, from)
      case Rest(_, excluded) => r.rest(v, Names(excluded))
  }

  function Run<V>(code: seq<Segment>, env: map<Place, V>, r: Runtime<V>): Option<map<Place, V>>
    requires ValidCode(code)
  {
    if code == [] then Some(env)
    else
      assert ValidSegment(code[0]);
      match Value(code[0].source, env, r)
      case Some(v) => Run(code[1..], env[code[0].place := v], r)
      case None => None
  }

  // ---------- matching directly ----------

  /** The names that the properties of a pattern use up. */
  function Used(properties: seq<Property>): set<string> {
    set p | p in properties && p.Property? :: p.key.Property()
  }

  function Bound<V>(name: string, v: Option<V>, vars: map<string, V>): Option<map<string, V>> {
    if v.Some? then Some(vars[name := v.value]) else None
  }

  function MatchTarget<V>(target: Target, v: Option<V>, vars: map<string, V>, r: Runtime<V>): Option<map<string, V>>
    decreases target, 0
  {
    match target
    case Variable(name) => Bound(name, v, vars)
    case Nested(pattern) => if v.None? then None else MatchItems(pattern, 0, v.value, vars, r)
  }

  function MatchItem<V>(node: Pattern, idx: nat, v: V, vars: map<string, V>, r: Runtime<V>): Option<map<string, V>>
    requires idx < node.Size()
    decreases node, 0
  {
    match node
    case ObjectPattern(properties) =>
      (match properties[idx]
       case SpreadProperty(argument) => Bound(argument, r.rest(v, Used(properties)), vars)
       case Property(key, value) => MatchTarget(value, r.get(v, Named(key.Property())), vars, r))
    case ArrayPattern(elements) =>
      (match elements[idx]
       case Hole => Some(vars)
       case SpreadElement(argument) => Bound(argument, r.slice(v, idx), vars)
       case Element(value) => MatchTarget(value, r.get(v, At(idx)), vars, r))
  }

  /** Binds the variables of a pattern, from the idx-th item on, to the parts of a value. */
  function MatchItems<V>(node: Pattern, idx: nat, v: V, vars: map<string, V>, r: Runtime<V>): Option<map<string, V>>
    requires idx <= node.Size()
    decreases node, 1, node.Size() - idx
  {
    if idx == node.Size() then Some(vars)
    else
      match MatchItem(node, idx, v, vars, r)
      case Some(vars') => MatchItems(node, idx + 1, v, vars', r)
      case None => None
  }

  // ---------- when the code is free of syntax errors ----------

  predicate SoundTarget(target: Target)
    decreases target, 0
  {
    target.Nested? ==> Sound(target.pattern)
  }

  /** Object rest is compiled correctly only if no key is a literal. */
  predicate SoundItem(node: Pattern, idx: nat)
    requires idx < node.Size()
    decreases node, 0
  {
    match node
    case ObjectPattern(properties) =>
      if properties[idx].SpreadProperty? then forall p <- properties :: p.Property? ==> p.key.Identifier?
      else SoundTarget(properties[idx].value)
    case ArrayPattern(elements) =>
      elements[idx].Element? ==> SoundTarget(elements[idx].value)
  }

  predicate SoundItems(node: Pattern, idx: nat)
    requires idx <= node.Size()
    decreases node, 1, node.Size() - idx
  {
    idx == node.Size() || (SoundItem(node, idx) && SoundItems(node, idx + 1))
  }

  /** Does the pattern have an item, other than holes, from the idx-th on? */
  predicate HasItem(node: Pattern, idx: nat) {
    if node.ObjectPattern? then idx < |node.properties|
    else exists i | idx <= i < |node.elements| :: !node.elements[i].Hole?
  }

  /** No pattern is empty, and no object pattern with a rest has a literal key. */
  predicate Sound(node: Pattern)
    decreases node, 2
  {
    HasItem(node, 0) && SoundItems(node, 0)
  }

  lemma ThenValid(c: Compiled, d: Compiled)
    ensures ValidCode(Then(c, d).code) <==> ValidCode(c.code) && ValidCode(d.code)
  {
    forall s | s in c.code || s in d.code
      ensures s in Then(c, d).code
    {
    }
  }

  lemma {:induction false} NamesAreKnown(properties: seq<Property>)
    ensures (forall n <- PropertyNames(properties) :: n.Some?) <==>
      (forall p <- properties :: p.Property? ==> p.key.Identifier?)
  {
    if properties != [] {
      var p, rest := properties[0], properties[1..];
      NamesAreKnown(rest);
      assert forall q :: q in properties <==> q == p || q in rest by {
        assert properties == [p] + rest;
      }
      assert forall n :: n in PropertyNames(properties) <==> n in PropertyName(p) || n in PropertyNames(rest);
      if p.Property? {
        assert PropertyName(p)[0].Some? <==> p.key.Identifier?;
        assert PropertyName(p)[0] in PropertyNames(properties) && p in properties;
      }
    }
  }

  lemma {:induction false} TargetValid(target: Target, source: Source, next: nat)
    requires !source.Rest?
    ensures ValidCode(TargetCode(target, source, next).code) <==> SoundTarget(target)
    ensures TargetCode(target, source, next).code != []
    decreases target, 0
  {
    if target.Nested? {
      PatternValid(target.pattern, next + 1);
      ThenValid(Compiled([Assign(Temp(next + 1), source)], next + 1), PatternCode(target.pattern, next + 1));
    }
  }

  lemma {:induction false} ItemValid(node: Pattern, idx: nat, temp: nat, next: nat)
    requires idx < node.Size()
    ensures ValidCode(ItemCode(node, idx, temp, next).code) <==> SoundItem(node, idx)
    ensures ItemCode(node, idx, temp, next).code == [] <==> node.ArrayPattern? && node.elements[idx].Hole?
    decreases node, 0
  {
    match node
    case ObjectPattern(properties) =>
      if properties[idx].Property? {
        TargetValid(properties[idx].value, Get(temp, Named(properties[idx].key.Property())), next);
      } else {
        NamesAreKnown(properties);
        var code := ItemCode(node, idx, temp, next).code;
        assert code[0] in code && code[0].source.excluded == PropertyNames(properties);
      }
    case ArrayPattern(elements) =>
      if elements[idx].Element? {
        TargetValid(elements[idx].value, Get(temp, At(idx)), next);
      }
  }

  lemma {:induction false} ItemsValid(node: Pattern, idx: nat, temp: nat, next: nat)
    requires idx <= node.Size()
    ensures ValidCode(ItemsCode(node, idx, temp, next).code) <==> SoundItems(node, idx)
    ensures ItemsCode(node, idx, temp, next).code == [] <==> !HasItem(node, idx)
    decreases node, 1, node.Size() - idx
  {
    if idx < node.Size() {
      var c := ItemCode(node, idx, temp, next);
      ItemValid(node, idx, temp, next);
      ItemsValid(node, idx + 1, temp, c.next);
      ThenValid(c, ItemsCode(node, idx + 1, temp, c.next));
    }
  }

  /** The code for a pattern is free of syntax errors exactly if the pattern is sound. */
  lemma {:induction false} PatternValid(node: Pattern, index: nat)
    ensures ValidCode(PatternCode(node, index).code) <==> Sound(node)
    decreases node, 2
  {
    ItemsValid(node, 0, index, index);
    if !HasItem(node, 0) {
      assert Blank in PatternCode(node, index).code;
    }
  }

  // ---------- meaning is preserved ----------

  /** The variables have these values. */
  ghost predicate Agrees<V(!new)>(env: map<Place, V>, vars: map<string, V>) {
    forall name :: (Var(name) in env <==> name in vars) && (name in vars ==> env[Var(name)] == vars[name])
  }

  /** The temporaries up to the index are the same. */
  ghost predicate Untouched<V(!new)>(env: map<Place, V>, env': map<Place, V>, index: nat) {
    forall t: nat | t <= index ::
      (Temp(t) in env' <==> Temp(t) in env) && (Temp(t) in env ==> env'[Temp(t)] == env[Temp(t)])
  }

  /** The outcome of running code is that of matching, and the temporaries up to the index are the same. */
  ghost predicate SameOutcome<V(!new)>(env: map<Place, V>, ran: Option<map<Place, V>>,
                                          matched: Option<map<string, V>>, index: nat) {
    match (ran, matched)
    case (None, None) => true
    case (Some(env'), Some(vars')) => Agrees(env', vars') && Untouched(env, env', index)
    case _ => false
  }

  lemma {:induction false} RunThen<V>(a: seq<Segment>, b: seq<Segment>, env: map<Place, V>, r: Runtime<V>)
    requires ValidCode(a) && ValidCode(b)
    ensures ValidCode(a + b)
    ensures Run(a + b, env, r) == if Run(a, env, r).Some? then Run(b, Run(a, env, r).value, r) else None
  {
    if a == [] {
      assert a + b == b;
    } else {
      assert ValidSegment(a[0]);
      assert (a + b)[1..] == a[1..] + b;
      match Value(a[0].source, env, r)
      case Some(v) => RunThen(a[1..], b, env[a[0].place := v], r);
      case None =>
        forall s | s in a + b
          ensures ValidSegment(s)
        {
        }
    }
  }

  lemma RunOne<V>(place: Place, source: Source, env: map<Place, V>, r: Runtime<V>)
    requires ValidSegment(Assign(place, source))
    ensures Run([Assign(place, source)], env, r) ==
      if Value(source, env, r).Some? then Some(env[place := Value(source, env, r).value]) else None
  {
    var code := [Assign(place, source)];
    assert code[1..] == [];
  }

  lemma {:induction false} UsedAreNames(properties: seq<Property>)
    requires forall p <- properties :: p.Property? ==> p.key.Identifier?
    ensures Names(PropertyNames(properties)) == Used(properties)
  {
    if properties != [] {
      UsedAreNames(properties[1..]);
      var p, rest := properties[0], properties[1..];
      assert properties == [p] + rest;
      assert Names(PropertyNames(properties)) ==
        (if p.Property? then {p.key.name} else {}) + Names(PropertyNames(rest));
    }
  }

  lemma {:induction false} TargetMeaning<V(!new)>(target: Target, source: Source, next: nat, v: Option<V>,
                                           env: map<Place, V>, vars: map<string, V>, r: Runtime<V>)
    requires SoundTarget(target) && !source.Rest? && Value(source, env, r) == v && Agrees(env, vars)
    ensures var c := TargetCode(target, source, next);
      && ValidCode(c.code)
      && SameOutcome(env, Run(c.code, env, r), MatchTarget(target, v, vars, r), next)
    decreases target, 0
  {
    TargetValid(target, source, next);
    match target
    case Variable(name) =>
      RunOne(Var(name), source, env, r);
    case Nested(pattern) =>
      RunOne(Temp(next + 1), source, env, r);
      RunThen([Assign(Temp(next + 1), source)], PatternCode(pattern, next + 1).code, env, r);
      if v.Some? {
        PatternMeaning(pattern, next + 1, v.value, env[Temp(next + 1) := v.value], vars, r);
      }
  }

  lemma {:induction false} PatternMeaning<V(!new)>(node: Pattern, index: nat, v: V, env: map<Place, V>,
                                                   vars: map<string, V>, r: Runtime<V>)
    requires Sound(node) && Temp(index) in env && env[Temp(index)] == v && Agrees(env, vars)
    ensures var c := PatternCode(node, index);
      && ValidCode(c.code)
      && SameOutcome(env, Run(c.code, env, r), MatchItems(node, 0, v, vars, r), index)
    decreases node, 2
  {
    ItemsValid(node, 0, index, index);
    ItemsMeaning(node, 0, index, index, v, env, vars, r);
  }

  lemma {:induction false} ItemMeaning<V(!new)>(node: Pattern, idx: nat, temp: nat, next: nat, v: V,
                                         env: map<Place, V>, vars: map<string, V>, r: Runtime<V>)
    requires idx < node.Size() && SoundItem(node, idx) && temp <= next
    requires Temp(temp) in env && env[Temp(temp)] == v && Agrees(env, vars)
    ensures var c := ItemCode(node, idx, temp, next);
      && ValidCode(c.code)
      && SameOutcome(env, Run(c.code, env, r), MatchItem(node, idx, v, vars, r), next)
    decreases node, 0
  {
    match node
    case ObjectPattern(properties) =>
      match properties[idx] {
       case SpreadProperty(argument) =>
         NamesAreKnown(properties);
         UsedAreNames(properties);
         RunOne(Var(argument), Rest(temp, PropertyNames(properties)), env, r);
       case Property(key, value) =>
         TargetMeaning(value, Get(temp, Named(key.Property())), next, r.get(v, Named(key.Property())), env, vars, r);
      }
    case ArrayPattern(elements) =>
      match elements[idx] {
       case Hole =>
       case SpreadElement(argument) =>
         RunOne(Var(argument), Slice(temp, idx), env, r);
       case Element(value) =>
         TargetMeaning(value, Get(temp, At(idx)), next, r.get(v, At(idx)), env, vars, r);
      }
  }

  lemma {:induction false} ItemsMeaning<V(!new)>(node: Pattern, idx: nat, temp: nat, next: nat, v: V,
                                          env: map<Place, V>, vars: map<string, V>, r: Runtime<V>)
    requires idx <= node.Size() && SoundItems(node, idx) && temp <= next
    requires Temp(temp) in env && env[Temp(temp)] == v && Agrees(env, vars)
    ensures var c := ItemsCode(node, idx, temp, next);
      && ValidCode(c.code)
      && SameOutcome(env, Run(c.code, env, r), MatchItems(node, idx, v, vars, r), next)
    decreases node, 1, node.Size() - idx
  {
    ItemsValid(node, idx, temp, next);
    if idx < node.Size() {
      var c := ItemCode(node, idx, temp, next);
      ItemMeaning(node, idx, temp, next, v, env, vars, r);
      var d := ItemsCode(node, idx + 1, temp, c.next);
      ItemsValid(node, idx + 1, temp, c.next);
      RunThen(c.code, d.code, env, r);
      if Run(c.code, env, r).Some? {
        var env', vars' := Run(c.code, env, r).value, MatchItem(node, idx, v, vars, r).value;
        ItemsMeaning(node, idx + 1, temp, c.next, v, env', vars', r);
      }
    }
  }

  // ---------- the compiler ----------

  class Scope {
    var tempVarIndex: nat

    constructor ()
      ensures tempVarIndex == 0
    {
      tempVarIndex := 0;
    }

    /** The component for an item with a target. */
    method TargetComponent(target: Target, source: Source) returns (code: seq<Segment>)
      modifies this
      ensures Compiled(code, tempVarIndex) == TargetCode(target, source, old(tempVarIndex))
      decreases target, 0
    {
      match target
      case Variable(name) =>
        code := [Assign(Var(name), source)];
      case Nested(pattern) =>
        tempVarIndex := tempVarIndex + 1;
        var temp := tempVarIndex;
        var components := GetDestructuredComponents(pattern);
        code := [Assign(Temp(temp), source)] + components;
    }

    method ItemComponent(node: Pattern, idx: nat, tmpIndex: nat) returns (code: seq<Segment>)
      requires idx < node.Size()
      modifies this
      ensures Compiled(code, tempVarIndex) == ItemCode(node, idx, tmpIndex, old(tempVarIndex))
      decreases node, 0
    {
      code := [];
      match node
      case ObjectPattern(properties) =>
        match properties[idx] {
          case SpreadProperty(argument) =>
            code := [Assign(Var(argument), Rest(tmpIndex, PropertyNames(properties)))];
          case Property(key, value) =>
            code := TargetComponent(value, Get(tmpIndex, Named(key.Property())));
        }
      case ArrayPattern(elements) =>
        match elements[idx] {
          case Hole =>
          case SpreadElement(argument) =>
            code := [Assign(Var(argument), Slice(tmpIndex, idx))];
          case Element(value) =>
            code := TargetComponent(value, Get(tmpIndex, At(idx)));
        }
    }

    /** The assignments for a pattern whose value is in the temporary taken last. */
    method GetDestructuredComponents(node: Pattern) returns (code: seq<Segment>)
      modifies this
      ensures Compiled(code, tempVarIndex) == PatternCode(node, old(tempVarIndex))
      decreases node, 1
    {
      var tmpIndex := tempVarIndex;
      code := [];
      for idx := 0 to node.Size()
        invariant Then(Compiled(code, 0), ItemsCode(node, idx, tmpIndex, tempVarIndex))
               == ItemsCode(node, 0, tmpIndex, old(tempVarIndex))
      {
        ghost var rest := ItemCode(node, idx, tmpIndex, tempVarIndex);
        var component := ItemComponent(node, idx, tmpIndex);
        Associative(code, component, ItemsCode(node, idx + 1, tmpIndex, tempVarIndex).code);
        code := code + component;
      }
      assert code + [] == code;
      if code == [] {
        code := [Blank];
      }
    }

    /**
     Compiles a declaration: its initial value goes into a fresh temporary, whose parts are then assigned.
     The code returned is what follows the initial value.
     */
    method VisitStructuredVariable(node: Pattern) returns (temp: nat, code: seq<Segment>)
      modifies this
      ensures temp == old(tempVarIndex) && code == PatternCode(node, temp).code
      ensures tempVarIndex == PatternCode(node, temp).next + 1
    {
      temp := tempVarIndex;
      code := GetDestructuredComponents(node);
      tempVarIndex := tempVarIndex + 1;
    }
  }

  lemma Associative(a: seq<Segment>, b: seq<Segment>, c: seq<Segment>)
    ensures a + (b + c) == a + b + c
  {
  }

  /**
   Compiled declarations keep their meaning.  The code is free of syntax errors exactly for sound patterns, and
   for these it binds the variables as matching the value directly does, fails when that fails, and leaves the
   temporaries taken before alone.
   */
  lemma DeclarationMeaning<V(!new)>(node: Pattern, temp: nat, v: V, env: map<Place, V>, vars: map<string, V>,
                                    r: Runtime<V>)
    requires Agrees(env, vars)
    ensures var code := PatternCode(node, temp).code;
      && (ValidCode(code) <==> Sound(node))
      && (Sound(node) ==>
           SameOutcome(env[Temp(temp) := v], Run(code, env[Temp(temp) := v], r), MatchItems(node, 0, v, vars, r), temp))
  {
    PatternValid(node, temp);
    if Sound(node) {
      PatternMeaning(node, temp, v, env[Temp(temp) := v], vars, r);
    }
  }

  /** The code only assigns temporaries from the first one not taken yet, and none of them twice. */
  predicate FreshTemps(code: seq<Segment>, lo: nat, hi: nat) {
    forall i | 0 <= i < |code| && code[i].Assign? && code[i].place.Temp? ::
      lo < code[i].place.index <= hi &&
      forall j | 0 <= j < i && code[j].Assign? && code[j].place.Temp? :: code[j].place.index < code[i].place.index
  }

  lemma FreshThen(a: seq<Segment>, b: seq<Segment>, lo: nat, mid: nat, hi: nat)
    requires FreshTemps(a, lo, mid) && FreshTemps(b, mid, hi) && lo <= mid <= hi
    ensures FreshTemps(a + b, lo, hi)
  {
  }

  lemma {:induction false} TargetFresh(target: Target, source: Source, next: nat)
    ensures var c := TargetCode(target, source, next);
      FreshTemps(c.code, next, c.next)
    decreases target, 0
  {
    if target.Nested? {
      PatternFresh(target.pattern, next + 1);
      var c := PatternCode(target.pattern, next + 1);
      FreshThen([Assign(Temp(next + 1), source)], c.code, next, next + 1, c.next);
    }
  }

  lemma {:induction false} ItemsFresh(node: Pattern, idx: nat, temp: nat, next: nat)
    requires idx <= node.Size()
    ensures var c := ItemsCode(node, idx, temp, next);
      FreshTemps(c.code, next, c.next)
    decreases node, 1, node.Size() - idx
  {
    if idx < node.Size() {
      match node {
        case ObjectPattern(properties) =>
          if properties[idx].Property? {
            TargetFresh(properties[idx].value, Get(temp, Named(properties[idx].key.Property())), next);
          }
        case ArrayPattern(elements) =>
          if elements[idx].Element? {
            TargetFresh(elements[idx].value, Get(temp, At(idx)), next);
          }
      }
      var c := ItemCode(node, idx, temp, next);
      ItemsFresh(node, idx + 1, temp, c.next);
      var d := ItemsCode(node, idx + 1, temp, c.next);
      FreshThen(c.code, d.code, next, c.next, d.next);
    }
  }

  /** Indices only grow across the recursion: each temporary is assigned at most once, above those taken before. */
  lemma {:induction false} PatternFresh(node: Pattern, index: nat)
    ensures var c := PatternCode(node, index);
      FreshTemps(c.code, index, c.next)
    decreases node, 2
  {
    ItemsFresh(node, 0, index, index);
  }

  /** With a literal key, the rest cannot be compiled: the excluded name is missing in the code. */
  lemma LiteralKeyBreaksRest()
    ensures var node := ObjectPattern([Property(Literal("a"), Variable("x")), SpreadProperty("r")]);
      !Sound(node) && !ValidCode(PatternCode(node, 0).code)
  {
    var node := ObjectPattern([Property(Literal("a"), Variable("x")), SpreadProperty("r")]);
    assert !SoundItem(node, 1) by {
      assert node.properties[0] in node.properties;
    }
    assert !SoundItems(node, 1);
    PatternValid(node, 0);
  }

  // ---------- matching, item by item ----------

  lemma NothingToMatch<V>(v: V, vars: map<string, V>, r: Runtime<V>)
    ensures MatchItems(ObjectPattern([]), 0, v, vars, r) == Some(vars)
    ensures MatchItems(ArrayPattern([]), 0, v, vars, r) == Some(vars)
  {
  }

  lemma {:induction false} ElementsInFront<V>(a: seq<Element>, e: Element, idx: nat, v: V, vars: map<string, V>,
                                              r: Runtime<V>)
    requires idx <= |a|
    ensures var front := MatchItems(ArrayPattern(a), idx, v, vars, r);
      MatchItems(ArrayPattern(a + [e]), idx, v, vars, r) ==
      if front.None? then None else MatchItems(ArrayPattern(a + [e]), |a|, v, front.value, r)
    decreases |a| - idx
  {
    if idx < |a| {
      var more := MatchItem(ArrayPattern(a), idx, v, vars, r);
      assert MatchItem(ArrayPattern(a + [e]), idx, v, vars, r) == more;
      if more.Some? {
        ElementsInFront(a, e, idx + 1, v, more.value, r);
      }
    }
  }

  /** An element behind others is matched with what stands at its index, and the rest of an array begins at its own. */
  lemma OneElementMore<V>(a: seq<Element>, e: Element, v: V, vars: map<string, V>, r: Runtime<V>)
    ensures MatchItems(ArrayPattern(a + [e]), 0, v, vars, r) ==
      match MatchItems(ArrayPattern(a), 0, v, vars, r)
      case None => None
      case Some(vars') =>
        match e
        case Hole => Some(vars')
        case SpreadElement(y) => (match r.slice(v, |a|) case Some(w) => Some(vars'[y := w]) case None => None)
        case Element(Variable(x)) => (match r.get(v, At(|a|)) case Some(w) => Some(vars'[x := w]) case None => None)
        case Element(Nested(p)) =>
          match r.get(v, At(|a|)) case Some(w) => MatchItems(p, 0, w, vars', r) case None => None
  {
    ElementsInFront(a, e, 0, v, vars, r);
    var front := MatchItems(ArrayPattern(a), 0, v, vars, r);
    if front.Some? {
      LastElement(a, e, v, front.value, r);
    }
  }

  lemma LastElement<V>(a: seq<Element>, e: Element, v: V, vars: map<string, V>, r: Runtime<V>)
    ensures MatchItems(ArrayPattern(a + [e]), |a|, v, vars, r) == MatchItem(ArrayPattern(a + [e]), |a|, v, vars, r)
  {
  }

  lemma {:induction false} PropertiesInFront<V>(a: seq<Property>, p: Property, idx: nat, v: V, vars: map<string, V>,
                                                r: Runtime<V>)
    requires idx <= |a| && forall q <- a :: q.Property?
    ensures var front := MatchItems(ObjectPattern(a), idx, v, vars, r);
      MatchItems(ObjectPattern(a + [p]), idx, v, vars, r) ==
      if front.None? then None else MatchItems(ObjectPattern(a + [p]), |a|, v, front.value, r)
    decreases |a| - idx
  {
    if idx < |a| {
      assert a[idx] in a;
      var more := MatchItem(ObjectPattern(a), idx, v, vars, r);
      assert MatchItem(ObjectPattern(a + [p]), idx, v, vars, r) == more;
      if more.Some? {
        PropertiesInFront(a, p, idx + 1, v, more.value, r);
      }
    }
  }

  /** A property behind others is matched with what its name or text leads to, and a rest with what these leave. */
  lemma OnePropertyMore<V>(a: seq<Property>, p: Property, v: V, vars: map<string, V>, r: Runtime<V>)
    requires forall q <- a :: q.Property?
    ensures MatchItems(ObjectPattern(a + [p]), 0, v, vars, r) ==
      match MatchItems(ObjectPattern(a), 0, v, vars, r)
      case None => None
      case Some(vars') =>
        match p
        case SpreadProperty(y) =>
          var used := set q | q in a :: if q.key.Identifier? then q.key.name else q.key.text;
          (match r.rest(v, used) case Some(w) => Some(vars'[y := w]) case None => None)
        case Property(Identifier(n), Variable(x)) =>
          (match r.get(v, Named(n)) case Some(w) => Some(vars'[x := w]) case None => None)
        case Property(Literal(s), Variable(x)) =>
          (match r.get(v, Named(s)) case Some(w) => Some(vars'[x := w]) case None => None)
        case Property(Identifier(n), Nested(q)) =>
          (match r.get(v, Named(n)) case Some(w) => MatchItems(q, 0, w, vars', r) case None => None)
        case Property(Literal(s), Nested(q)) =>
          match r.get(v, Named(s)) case Some(w) => MatchItems(q, 0, w, vars', r) case None => None
  {
    PropertiesInFront(a, p, 0, v, vars, r);
    var front := MatchItems(ObjectPattern(a), 0, v, vars, r);
    if front.Some? {
      LastProperty(a, p, v, front.value, r);
      if p.SpreadProperty? {
        UsedBefore(a, p);
      }
    }
  }

  lemma LastProperty<V>(a: seq<Property>, p: Property, v: V, vars: map<string, V>, r: Runtime<V>)
    ensures MatchItems(ObjectPattern(a + [p]), |a|, v, vars, r) == MatchItem(ObjectPattern(a + [p]), |a|, v, vars, r)
  {
  }

  lemma UsedBefore(a: seq<Property>, p: Property)
    requires p.SpreadProperty? && forall q <- a :: q.Property?
    ensures Used(a + [p]) == set q | q in a :: if q.key.Identifier? then q.key.name else q.key.text
  {
    assert forall q :: q in a + [p] <==> q in a || q == p;
  }

  // ---------- the code, item by item ----------

  lemma {:induction false} ElementsCodeInFront(a: seq<Element>, e: Element, idx: nat, temp: nat, next: nat)
    requires idx <= |a|
    ensures var front := ItemsCode(ArrayPattern(a), idx, temp, next);
      ItemsCode(ArrayPattern(a + [e]), idx, temp, next) ==
      Then(front, ItemCode(ArrayPattern(a + [e]), |a|, temp, front.next))
    decreases |a| - idx
  {
    var node := ArrayPattern(a + [e]);
    if idx == |a| {
      assert ItemsCode(node, |a| + 1, temp, ItemCode(node, |a|, temp, next).next).code == [];
    } else {
      var c := ItemCode(node, idx, temp, next);
      assert c == ItemCode(ArrayPattern(a), idx, temp, next);
      ElementsCodeInFront(a, e, idx + 1, temp, c.next);
      var front := ItemsCode(ArrayPattern(a), idx + 1, temp, c.next);
      Associative(c.code, front.code, ItemCode(node, |a|, temp, front.next).code);
    }
  }

  /** The code for an element behind others: `n` is the last temporary taken by these. */
  lemma CodeOfOneElementMore(a: seq<Element>, e: Element, temp: nat, next: nat)
    ensures var front := ItemsCode(ArrayPattern(a), 0, temp, next); var n := front.next;
      ItemsCode(ArrayPattern(a + [e]), 0, temp, next).code == front.code +
      match e
      case Hole => []
      case SpreadElement(y) => [Assign(Var(y), Slice(temp, |a|))]
      case Element(Variable(x)) => [Assign(Var(x), Get(temp, At(|a|)))]
      case Element(Nested(p)) => [Assign(Temp(n + 1), Get(temp, At(|a|)))] + PatternCode(p, n + 1).code
  {
    ElementsCodeInFront(a, e, 0, temp, next);
  }

  lemma {:induction false} PropertiesCodeInFront(a: seq<Property>, p: Property, idx: nat, temp: nat, next: nat)
    requires idx <= |a| && forall q <- a :: q.Property?
    ensures var front := ItemsCode(ObjectPattern(a), idx, temp, next);
      ItemsCode(ObjectPattern(a + [p]), idx, temp, next) ==
      Then(front, ItemCode(ObjectPattern(a + [p]), |a|, temp, front.next))
    decreases |a| - idx
  {
    var node := ObjectPattern(a + [p]);
    if idx == |a| {
      assert ItemsCode(node, |a| + 1, temp, ItemCode(node, |a|, temp, next).next).code == [];
    } else {
      assert a[idx] in a;
      var c := ItemCode(node, idx, temp, next);
      assert c == ItemCode(ObjectPattern(a), idx, temp, next);
      PropertiesCodeInFront(a, p, idx + 1, temp, c.next);
      var front := ItemsCode(ObjectPattern(a), idx + 1, temp, c.next);
      Associative(c.code, front.code, ItemCode(node, |a|, temp, front.next).code);
    }
  }

  /** The code for a property behind others; a rest excludes the names of these, where a literal key has none. */
  lemma CodeOfOnePropertyMore(a: seq<Property>, p: Property, temp: nat, next: nat)
    requires forall q <- a :: q.Property?
    ensures var front := ItemsCode(ObjectPattern(a), 0, temp, next); var n := front.next;
      ItemsCode(ObjectPattern(a + [p]), 0, temp, next).code == front.code +
      match p
      case SpreadProperty(y) =>
        var excluded := seq(|a|, i requires 0 <= i < |a| =>
          match a[i] case Property(Identifier(s), _) => Some(s) case _ => None);
        [Assign(Var(y), Rest(temp, excluded))]
      case Property(Identifier(s), Variable(x)) => [Assign(Var(x), Get(temp, Named(s)))]
      case Property(Literal(s), Variable(x)) => [Assign(Var(x), Get(temp, Named(s)))]
      case Property(Identifier(s), Nested(q)) =>
        [Assign(Temp(n + 1), Get(temp, Named(s)))] + PatternCode(q, n + 1).code
      case Property(Literal(s), Nested(q)) =>
        [Assign(Temp(n + 1), Get(temp, Named(s)))] + PatternCode(q, n + 1).code
  {
    PropertiesCodeInFront(a, p, 0, temp, next);
    if p.SpreadProperty? {
      NamesInTurn(a, p);
    }
  }

  lemma {:induction false} NamesInTurn(a: seq<Property>, p: Property)
    requires p.SpreadProperty? && forall q <- a :: q.Property?
    ensures PropertyNames(a + [p]) ==
      seq(|a|, i requires 0 <= i < |a| => match a[i] case Property(Identifier(s), _) => Some(s) case _ => None)
  {
    if a == [] {
      assert a + [p] == [p] && [p][1..] == [];
    } else {
      assert (a + [p])[1..] == a[1..] + [p] && a[0] in a;
      assert forall q <- a[1..] :: q in a;
      NamesInTurn(a[1..], p);
    }
  }

  /** Sources read the temporary that they name. */
  lemma SourcesRead<V>(temp: nat, accessor: Accessor, from: nat, excluded: seq<Option<string>>, env: map<Place, V>,
                       r: Runtime<V>)
    requires Temp(temp) in env
    ensures Value(Get(temp, accessor), env, r) == r.get(env[Temp(temp)], accessor)
    ensures Value(Slice(temp, from), env, r) == r.slice(env[Temp(temp)], from)
    ensures Value(Rest(temp, excluded), env, r) ==
      r.rest(env[Temp(temp)], set n | n in excluded && n.Some? :: n.value)
  {
  }

  /** A pattern is compiled to the code of its items, or to nothing between two commas. */
  lemma CodeOfPattern(node: Pattern, index: nat)
    ensures var items := ItemsCode(node, 0, index, index).code;
      PatternCode(node, index).code == if items == [] then [Blank] else items
  {
  }
}

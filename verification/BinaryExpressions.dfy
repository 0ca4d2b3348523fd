/**
 The operator-precedence parser `parseBinaryExpression`, defaults/JSXTransformer.js:6072-6212.  Operands are
 opaque: an operand token stands for whatever `parseUnaryExpression` accepts.  Positions count tokens.
 */
module BinaryExpressions {
  import opened Options

  datatype Token = Punctuator(value: string) | Keyword(value: string) | Operand(id: nat) | EndOfInput

  /** How tightly the operator binds; 0 if the token is no binary operator. */
  function BinaryPrecedence(token: Token, allowIn: bool): (prec: nat)
    ensures prec <= 11 && prec != 10
  {
    if !token.Punctuator? && !token.Keyword? then 0
    else if token.value == "||" then 1
    else if token.value == "&&" then 2
    else if token.value == "|" then 3
    else if token.value == "^" then 4
    else if token.value == "&" then 5
    else if token.value in ["==", "!=", "===", "!=="] then 6
    else if token.value in ["<", ">", "<=", ">=", "instanceof"] then 7
    else if token.value == "in" then if allowIn then 7 else 0
    else if token.value in ["<<", ">>", ">>>"] then 8
    else if token.value in ["+", "-"] then 9
    else if token.value in ["*", "/", "%"] then 11
    else 0
  }

  /** The precedences of all tokens. */
  function Precedences(tokens: seq<Token>, allowIn: bool): (precs: seq<nat>)
    ensures |precs| == |tokens| && Fit(tokens, precs)
  {
    seq(|tokens|, k requires 0 <= k < |tokens| => BinaryPrecedence(tokens[k], allowIn))
  }

  predicate ArePrecedences(precs: seq<nat>, tokens: seq<Token>, allowIn: bool) {
    |precs| == |tokens| && Fit(tokens, precs) &&
    forall k {:trigger BinaryPrecedence(tokens[k], allowIn)} | 0 <= k < |tokens| ::
      precs[k] == BinaryPrecedence(tokens[k], allowIn)
  }

  /** Operands have no precedence. */
  predicate Fit(tokens: seq<Token>, precs: seq<nat>) {
    |precs| == |tokens| && forall k | 0 <= k < |precs| :: precs[k] <= 11 && (precs[k] > 0 ==> !tokens[k].Operand?)
  }

  /** Expressions with the range of tokens they were read from. */
  datatype Expr =
    | Atom(token: Token, start: nat, end: nat)
    | Binary(operator: Token, left: Expr, right: Expr, start: nat, end: nat)
  {
    /** How tightly the outermost operator binds; an operand binds most tightly of all. */
    function Binding(precs: seq<nat>): nat {
      if Atom? then 12 else if left.end < |precs| then precs[left.end] else 0
    }
  }

  // ---------- the trees of the grammar ----------

  /**
   The tree of the tokens from lo up to hi: its tokens are these in order, each node has its range, and each
   left operand binds at least as tightly, each right operand more tightly than the operator.
   */
  predicate Parses(e: Expr, tokens: seq<Token>, precs: seq<nat>, lo: nat, hi: nat)
    requires |precs| == |tokens|
    decreases e
  {
    && lo < hi <= |tokens| && e.start == lo && e.end == hi
    && match e
       case Atom(token, _, _) => hi == lo + 1 && token == tokens[lo] && token.Operand?
       case Binary(operator, left, right, _, _) =>
         var mid := left.end;
         && lo < mid < hi && tokens[mid] == operator && precs[mid] > 0
         && Parses(left, tokens, precs, lo, mid) && Parses(right, tokens, precs, mid + 1, hi)
         && left.Binding(precs) >= precs[mid] && right.Binding(precs) > precs[mid]
  }

  /** The tokens of a tree, in order. */
  function Yield(e: Expr): seq<Token> {
    match e
    case Atom(token, _, _) => [token]
    case Binary(operator, left, right, _, _) => Yield(left) + [operator] + Yield(right)
  }

  lemma {:induction false} YieldIsInput(e: Expr, tokens: seq<Token>, precs: seq<nat>, lo: nat, hi: nat)
    requires |precs| == |tokens| && Parses(e, tokens, precs, lo, hi)
    ensures Yield(e) == tokens[lo..hi]
    decreases e
  {
    if e.Binary? {
      YieldIsInput(e.left, tokens, precs, lo, e.left.end);
      YieldIsInput(e.right, tokens, precs, e.left.end + 1, hi);
    }
  }

  /** Every operator inside binds at least as tightly as the outermost one. */
  lemma {:induction false} OutermostIsLoosest(e: Expr, tokens: seq<Token>, precs: seq<nat>, lo: nat, hi: nat, k: nat)
    requires |precs| == |tokens| && Parses(e, tokens, precs, lo, hi) && lo <= k < hi && !tokens[k].Operand?
    ensures e.Binary? && precs[k] >= e.Binding(precs)
    decreases e
  {
    if e.Binary? {
      var mid := e.left.end;
      if k < mid {
        OutermostIsLoosest(e.left, tokens, precs, lo, mid, k);
      } else if k > mid {
        OutermostIsLoosest(e.right, tokens, precs, mid + 1, hi, k);
      }
    }
  }

  /** The outermost operator of one tree is no further left than that of another. */
  lemma OutermostIsLast(e: Expr, f: Expr, tokens: seq<Token>, precs: seq<nat>, lo: nat, hi: nat)
    requires Fit(tokens, precs) && Parses(e, tokens, precs, lo, hi)
    requires Parses(f, tokens, precs, lo, hi) && e.Binary? && f.Binary?
    ensures f.left.end <= e.left.end
  {
    var j, k := e.left.end, f.left.end;
    if j < k {
      OutermostIsLoosest(e.right, tokens, precs, j + 1, hi, k);
      OutermostIsLoosest(f.left, tokens, precs, lo, k, j);
    }
  }

  /** The grammar allows at most one tree. */
  lemma {:induction false} TreeIsUnique(e: Expr, f: Expr, tokens: seq<Token>, precs: seq<nat>, lo: nat, hi: nat)
    requires Fit(tokens, precs) && Parses(e, tokens, precs, lo, hi) && Parses(f, tokens, precs, lo, hi)
    ensures e == f
    decreases e
  {
    if e.Binary? && f.Binary? {
      OutermostIsLast(e, f, tokens, precs, lo, hi);
      OutermostIsLast(f, e, tokens, precs, lo, hi);
      TreeIsUnique(e.left, f.left, tokens, precs, lo, e.left.end);
      TreeIsUnique(e.right, f.right, tokens, precs, e.left.end + 1, hi);
    }
  }

  /** The end of the longest run of operands with binary operators between them, or nothing if an operand is missing. */
  function RunEnd(tokens: seq<Token>, precs: seq<nat>, i: nat): (end: Option<nat>)
    requires |precs| == |tokens|
    ensures end.Some? ==> i < end.value <= |tokens|
    decreases |tokens| - i
  {
    if i >= |tokens| || !tokens[i].Operand? then None
    else if i + 1 < |tokens| && precs[i + 1] > 0 then RunEnd(tokens, precs, i + 2)
    else Some(i + 1)
  }

  // ---------- the productions of ECMA-262, sections 11.5 to 11.11 ----------

  /** Is the token one of these punctuators or keywords? */
  predicate Is(token: Token, texts: seq<string>) {
    (token.Punctuator? || token.Keyword?) && token.value in texts
  }

  predicate Primary(e: Expr) {
    e.Atom?
  }

  predicate Multiplicative(e: Expr)
    decreases e
  {
    Primary(e) ||
    (e.Binary? && Is(e.operator, ["*", "/", "%"]) && Multiplicative(e.left) && Primary(e.right))
  }

  predicate Additive(e: Expr)
    decreases e
  {
    Multiplicative(e) ||
    (e.Binary? && Is(e.operator, ["+", "-"]) && Additive(e.left) && Multiplicative(e.right))
  }

  predicate Shift(e: Expr)
    decreases e
  {
    Additive(e) ||
    (e.Binary? && Is(e.operator, ["<<", ">>", ">>>"]) && Shift(e.left) && Additive(e.right))
  }

  /** Section 11.8; without `allowIn` the production is that for the head of a for statement. */
  predicate Relational(e: Expr, allowIn: bool)
    decreases e
  {
    Shift(e) ||
    (e.Binary? && (Is(e.operator, ["<", ">", "<=", ">=", "instanceof"]) || (allowIn && Is(e.operator, ["in"]))) &&
     Relational(e.left, allowIn) && Shift(e.right))
  }

  predicate Equality(e: Expr, allowIn: bool)
    decreases e
  {
    Relational(e, allowIn) ||
    (e.Binary? && Is(e.operator, ["==", "!=", "===", "!=="]) &&
     Equality(e.left, allowIn) && Relational(e.right, allowIn))
  }

  predicate BitwiseAnd(e: Expr, allowIn: bool)
    decreases e
  {
    Equality(e, allowIn) ||
    (e.Binary? && Is(e.operator, ["&"]) && BitwiseAnd(e.left, allowIn) && Equality(e.right, allowIn))
  }

  predicate BitwiseXor(e: Expr, allowIn: bool)
    decreases e
  {
    BitwiseAnd(e, allowIn) ||
    (e.Binary? && Is(e.operator, ["^"]) && BitwiseXor(e.left, allowIn) && BitwiseAnd(e.right, allowIn))
  }

  predicate BitwiseOr(e: Expr, allowIn: bool)
    decreases e
  {
    BitwiseXor(e, allowIn) ||
    (e.Binary? && Is(e.operator, ["|"]) && BitwiseOr(e.left, allowIn) && BitwiseXor(e.right, allowIn))
  }

  predicate LogicalAnd(e: Expr, allowIn: bool)
    decreases e
  {
    BitwiseOr(e, allowIn) ||
    (e.Binary? && Is(e.operator, ["&&"]) && LogicalAnd(e.left, allowIn) && BitwiseOr(e.right, allowIn))
  }

  predicate LogicalOr(e: Expr, allowIn: bool)
    decreases e
  {
    LogicalAnd(e, allowIn) ||
    (e.Binary? && Is(e.operator, ["||"]) && LogicalOr(e.left, allowIn) && LogicalAnd(e.right, allowIn))
  }

  /** The tokens of the tree are those from lo up to hi, and each node has its range. */
  predicate Spanned(e: Expr, tokens: seq<Token>, lo: nat, hi: nat)
    decreases e
  {
    && lo < hi <= |tokens| && e.start == lo && e.end == hi
    && match e
       case Atom(token, _, _) => hi == lo + 1 && token == tokens[lo] && token.Operand?
       case Binary(operator, left, right, _, _) =>
         && lo < left.end < hi && tokens[left.end] == operator
         && Spanned(left, tokens, lo, left.end) && Spanned(right, tokens, left.end + 1, hi)
  }

  predicate IsOperator(token: Token, allowIn: bool) {
    || Is(token, ["||", "&&", "|", "^", "&", "==", "!=", "===", "!==", "<", ">", "<=", ">=", "instanceof"])
    || Is(token, ["<<", ">>", ">>>", "+", "-", "*", "/", "%"])
    || (allowIn && Is(token, ["in"]))
  }

  /** The tree is derived by the grammar from the tokens from lo up to hi, and no operator stands behind them. */
  predicate Derived(e: Expr, tokens: seq<Token>, lo: nat, hi: nat, allowIn: bool) {
    && Spanned(e, tokens, lo, hi) && LogicalOr(e, allowIn)
    && (hi < |tokens| ==> !IsOperator(tokens[hi], allowIn))
  }

  // ---------- the grammar and the precedences ----------

  /** By precedences, the tree is one of these tokens, and binds at least as tightly as the level. */
  predicate Binds(e: Expr, tokens: seq<Token>, allowIn: bool, lo: nat, hi: nat, level: nat) {
    var precs := Precedences(tokens, allowIn);
    Parses(e, tokens, precs, lo, hi) && e.Binding(precs) >= level
  }

  lemma OperatorsArePrecedences(token: Token, allowIn: bool)
    ensures IsOperator(token, allowIn) <==> BinaryPrecedence(token, allowIn) > 0
  {
  }

  lemma {:induction false} ParsesIsSpanned(e: Expr, tokens: seq<Token>, precs: seq<nat>, lo: nat, hi: nat)
    requires |precs| == |tokens| && Parses(e, tokens, precs, lo, hi)
    ensures Spanned(e, tokens, lo, hi) && tokens[hi - 1].Operand?
    decreases e
  {
    if e.Binary? {
      ParsesIsSpanned(e.left, tokens, precs, lo, e.left.end);
      ParsesIsSpanned(e.right, tokens, precs, e.left.end + 1, hi);
    }
  }

  /** The levels, and what binds at each of them: the tree itself one level up, or its operator. */
  lemma LevelIs(e: Expr, tokens: seq<Token>, allowIn: bool, lo: nat, hi: nat, level: nat, above: nat)
    requires Spanned(e, tokens, lo, hi) && 0 < level < above <= 12 && (above == level + 1 || (level, above) == (9, 11))
    ensures Binds(e, tokens, allowIn, lo, hi, level) <==>
      || Binds(e, tokens, allowIn, lo, hi, above)
      || (e.Binary? && BinaryPrecedence(e.operator, allowIn) == level &&
          Binds(e.left, tokens, allowIn, lo, e.left.end, level) &&
          Binds(e.right, tokens, allowIn, e.left.end + 1, hi, above))
  {
    if e.Binary? {
      assert Precedences(tokens, allowIn)[e.left.end] == BinaryPrecedence(tokens[e.left.end], allowIn);
    }
  }

  lemma PrimaryIs(e: Expr, tokens: seq<Token>, allowIn: bool, lo: nat, hi: nat)
    requires Spanned(e, tokens, lo, hi)
    ensures Primary(e) <==> Binds(e, tokens, allowIn, lo, hi, 12)
  {
  }

  lemma {:induction false} MultiplicativeIs(e: Expr, tokens: seq<Token>, allowIn: bool, lo: nat, hi: nat)
    requires Spanned(e, tokens, lo, hi)
    ensures Multiplicative(e) <==> Binds(e, tokens, allowIn, lo, hi, 11)
    decreases e
  {
    PrimaryIs(e, tokens, allowIn, lo, hi);
    if e.Binary? {
      MultiplicativeIs(e.left, tokens, allowIn, lo, e.left.end);
      PrimaryIs(e.right, tokens, allowIn, e.left.end + 1, hi);
    }
    LevelIs(e, tokens, allowIn, lo, hi, 11, 12);
  }

  lemma {:induction false} AdditiveIs(e: Expr, tokens: seq<Token>, allowIn: bool, lo: nat, hi: nat)
    requires Spanned(e, tokens, lo, hi)
    ensures Additive(e) <==> Binds(e, tokens, allowIn, lo, hi, 9)
    decreases e
  {
    MultiplicativeIs(e, tokens, allowIn, lo, hi);
    if e.Binary? {
      AdditiveIs(e.left, tokens, allowIn, lo, e.left.end);
      MultiplicativeIs(e.right, tokens, allowIn, e.left.end + 1, hi);
    }
    LevelIs(e, tokens, allowIn, lo, hi, 9, 11);
  }

  lemma {:induction false} ShiftIs(e: Expr, tokens: seq<Token>, allowIn: bool, lo: nat, hi: nat)
    requires Spanned(e, tokens, lo, hi)
    ensures Shift(e) <==> Binds(e, tokens, allowIn, lo, hi, 8)
    decreases e
  {
    AdditiveIs(e, tokens, allowIn, lo, hi);
    if e.Binary? {
      ShiftIs(e.left, tokens, allowIn, lo, e.left.end);
      AdditiveIs(e.right, tokens, allowIn, e.left.end + 1, hi);
    }
    LevelIs(e, tokens, allowIn, lo, hi, 8, 9);
  }

  lemma {:induction false} RelationalIs(e: Expr, tokens: seq<Token>, allowIn: bool, lo: nat, hi: nat)
    requires Spanned(e, tokens, lo, hi)
    ensures Relational(e, allowIn) <==> Binds(e, tokens, allowIn, lo, hi, 7)
    decreases e
  {
    ShiftIs(e, tokens, allowIn, lo, hi);
    if e.Binary? {
      RelationalIs(e.left, tokens, allowIn, lo, e.left.end);
      ShiftIs(e.right, tokens, allowIn, e.left.end + 1, hi);
    }
    LevelIs(e, tokens, allowIn, lo, hi, 7, 8);
  }

  lemma {:induction false} EqualityIs(e: Expr, tokens: seq<Token>, allowIn: bool, lo: nat, hi: nat)
    requires Spanned(e, tokens, lo, hi)
    ensures Equality(e, allowIn) <==> Binds(e, tokens, allowIn, lo, hi, 6)
    decreases e
  {
    RelationalIs(e, tokens, allowIn, lo, hi);
    if e.Binary? {
      EqualityIs(e.left, tokens, allowIn, lo, e.left.end);
      RelationalIs(e.right, tokens, allowIn, e.left.end + 1, hi);
    }
    LevelIs(e, tokens, allowIn, lo, hi, 6, 7);
  }

  lemma {:induction false} BitwiseAndIs(e: Expr, tokens: seq<Token>, allowIn: bool, lo: nat, hi: nat)
    requires Spanned(e, tokens, lo, hi)
    ensures BitwiseAnd(e, allowIn) <==> Binds(e, tokens, allowIn, lo, hi, 5)
    decreases e
  {
    EqualityIs(e, tokens, allowIn, lo, hi);
    if e.Binary? {
      BitwiseAndIs(e.left, tokens, allowIn, lo, e.left.end);
      EqualityIs(e.right, tokens, allowIn, e.left.end + 1, hi);
    }
    LevelIs(e, tokens, allowIn, lo, hi, 5, 6);
  }

  lemma {:induction false} BitwiseXorIs(e: Expr, tokens: seq<Token>, allowIn: bool, lo: nat, hi: nat)
    requires Spanned(e, tokens, lo, hi)
    ensures BitwiseXor(e, allowIn) <==> Binds(e, tokens, allowIn, lo, hi, 4)
    decreases e
  {
    BitwiseAndIs(e, tokens, allowIn, lo, hi);
    if e.Binary? {
      BitwiseXorIs(e.left, tokens, allowIn, lo, e.left.end);
      BitwiseAndIs(e.right, tokens, allowIn, e.left.end + 1, hi);
    }
    LevelIs(e, tokens, allowIn, lo, hi, 4, 5);
  }

  lemma {:induction false} BitwiseOrIs(e: Expr, tokens: seq<Token>, allowIn: bool, lo: nat, hi: nat)
    requires Spanned(e, tokens, lo, hi)
    ensures BitwiseOr(e, allowIn) <==> Binds(e, tokens, allowIn, lo, hi, 3)
    decreases e
  {
    BitwiseXorIs(e, tokens, allowIn, lo, hi);
    if e.Binary? {
      BitwiseOrIs(e.left, tokens, allowIn, lo, e.left.end);
      BitwiseXorIs(e.right, tokens, allowIn, e.left.end + 1, hi);
    }
    LevelIs(e, tokens, allowIn, lo, hi, 3, 4);
  }

  lemma {:induction false} LogicalAndIs(e: Expr, tokens: seq<Token>, allowIn: bool, lo: nat, hi: nat)
    requires Spanned(e, tokens, lo, hi)
    ensures LogicalAnd(e, allowIn) <==> Binds(e, tokens, allowIn, lo, hi, 2)
    decreases e
  {
    BitwiseOrIs(e, tokens, allowIn, lo, hi);
    if e.Binary? {
      LogicalAndIs(e.left, tokens, allowIn, lo, e.left.end);
      BitwiseOrIs(e.right, tokens, allowIn, e.left.end + 1, hi);
    }
    LevelIs(e, tokens, allowIn, lo, hi, 2, 3);
  }

  lemma {:induction false} LogicalOrIs(e: Expr, tokens: seq<Token>, allowIn: bool, lo: nat, hi: nat)
    requires Spanned(e, tokens, lo, hi)
    ensures LogicalOr(e, allowIn) <==> Binds(e, tokens, allowIn, lo, hi, 1)
    decreases e
  {
    LogicalAndIs(e, tokens, allowIn, lo, hi);
    if e.Binary? {
      LogicalOrIs(e.left, tokens, allowIn, lo, e.left.end);
      LogicalAndIs(e.right, tokens, allowIn, e.left.end + 1, hi);
    }
    LevelIs(e, tokens, allowIn, lo, hi, 1, 2);
  }

  /** Along a tree a run goes on. */
  lemma {:induction false} RunAlong(e: Expr, tokens: seq<Token>, precs: seq<nat>, lo: nat, hi: nat)
    requires |precs| == |tokens| && Parses(e, tokens, precs, lo, hi)
    ensures RunEnd(tokens, precs, lo) == RunEnd(tokens, precs, hi - 1)
    decreases e
  {
    if e.Binary? {
      var mid := e.left.end;
      RunAlong(e.left, tokens, precs, lo, mid);
      ParsesIsSpanned(e.left, tokens, precs, lo, mid);
      assert RunEnd(tokens, precs, mid - 1) == RunEnd(tokens, precs, mid + 1);
      RunAlong(e.right, tokens, precs, mid + 1, hi);
    }
  }

  /** The grammar derives exactly the trees that the precedences give for a whole run. */
  lemma DerivedExactly(e: Expr, tokens: seq<Token>, lo: nat, hi: nat, allowIn: bool)
    ensures Derived(e, tokens, lo, hi, allowIn) <==>
      var precs := Precedences(tokens, allowIn);
      Parses(e, tokens, precs, lo, hi) && RunEnd(tokens, precs, lo) == Some(hi)
  {
    var precs := Precedences(tokens, allowIn);
    if Parses(e, tokens, precs, lo, hi) {
      ParsesIsSpanned(e, tokens, precs, lo, hi);
      RunAlong(e, tokens, precs, lo, hi);
    }
    if Spanned(e, tokens, lo, hi) {
      LogicalOrIs(e, tokens, allowIn, lo, hi);
      BindsAtAll(e, tokens, allowIn, lo, hi);
      if hi < |tokens| {
        OperatorsArePrecedences(tokens[hi], allowIn);
      }
    }
  }

  lemma BindsAtAll(e: Expr, tokens: seq<Token>, allowIn: bool, lo: nat, hi: nat)
    ensures Binds(e, tokens, allowIn, lo, hi, 1) <==> Parses(e, tokens, Precedences(tokens, allowIn), lo, hi)
  {
  }

  lemma OutcomeIsDerived(r: Option<Expr>, tokens: seq<Token>, lo: nat, index: nat, allowIn: bool)
    requires var end := RunEnd(tokens, Precedences(tokens, allowIn), lo);
      if r.None? then end.None?
      else end == Some(index) && Parses(r.value, tokens, Precedences(tokens, allowIn), lo, index)
    ensures r.Some? ==> Derived(r.value, tokens, lo, index, allowIn)
    ensures r.None? ==> forall e, hi :: !Derived(e, tokens, lo, hi, allowIn)
  {
    if r.Some? {
      DerivedExactly(r.value, tokens, lo, index, allowIn);
    } else {
      forall e, hi: nat
        ensures !Derived(e, tokens, lo, hi, allowIn)
      {
        DerivedExactly(e, tokens, lo, hi, allowIn);
      }
    }
  }

  /** The grammar derives at most one tree that no operator stands behind. */
  lemma DerivedOnce(e: Expr, f: Expr, tokens: seq<Token>, lo: nat, hi: nat, hi': nat, allowIn: bool)
    requires Derived(e, tokens, lo, hi, allowIn) && Derived(f, tokens, lo, hi', allowIn)
    ensures e == f && hi == hi'
  {
    DerivedExactly(e, tokens, lo, hi, allowIn);
    DerivedExactly(f, tokens, lo, hi', allowIn);
    TreeIsUnique(e, f, tokens, Precedences(tokens, allowIn), lo, hi);
  }

  // ---------- the stack ----------

  datatype Entry = Node(expr: Expr) | Operator(token: Token, prec: nat)

  /** The precedence of the topmost operator on the stack, or 0 if there is none. */
  function TopPrecedence(stack: seq<Entry>): nat {
    if |stack| > 2 && stack[|stack| - 2].Operator? then stack[|stack| - 2].prec else 0
  }

  /**
   The stack holds, from the bottom, the tree of the tokens from lo on, then by turns an operator and a tree, up
   to hi.  The operators bind ever more tightly, each tree binds more tightly than the operator below it and at
   least as tightly as the one above it, and each has a marker where it starts.
   */
  predicate Stacked(stack: seq<Entry>, markers: seq<nat>, tokens: seq<Token>, precs: seq<nat>, lo: nat, hi: nat)
    requires |precs| == |tokens|
    decreases |stack|
  {
    var n := |stack| - 1;
    && n >= 0 && |markers| > 0 && stack[n].Node?
    && var e := stack[n].expr;
    && Parses(e, tokens, precs, e.start, hi) && markers[|markers| - 1] == e.start
    && if n == 0 then e.start == lo && |markers| == 1
       else
         && n >= 2 && lo + 2 <= e.start && stack[n - 1] == Operator(tokens[e.start - 1], precs[e.start - 1])
         && Pushable(stack[..n - 1], precs, precs[e.start - 1]) && e.Binding(precs) > precs[e.start - 1]
         && Stacked(stack[..n - 1], markers[..|markers| - 1], tokens, precs, lo, e.start - 1)
  }

  /** An operator of this precedence can go onto the stack. */
  predicate Pushable(stack: seq<Entry>, precs: seq<nat>, prec: nat) {
    && prec > TopPrecedence(stack)
    && stack != [] && stack[|stack| - 1].Node? && stack[|stack| - 1].expr.Binding(precs) >= prec
  }

  /** Putting an operator and an operand onto the stack. */
  lemma Shifted(stack: seq<Entry>, markers: seq<nat>, tokens: seq<Token>, precs: seq<nat>, lo: nat, hi: nat)
    requires Fit(tokens, precs) && Stacked(stack, markers, tokens, precs, lo, hi) && hi + 1 < |tokens|
    requires Pushable(stack, precs, precs[hi]) && tokens[hi + 1].Operand?
    ensures Stacked(stack + [Operator(tokens[hi], precs[hi]), Node(Atom(tokens[hi + 1], hi + 1, hi + 2))],
              markers + [hi + 1], tokens, precs, lo, hi + 2)
  {
    var shifted := stack + [Operator(tokens[hi], precs[hi]), Node(Atom(tokens[hi + 1], hi + 1, hi + 2))];
    assert shifted[..|shifted| - 2] == stack && (markers + [hi + 1])[..|markers|] == markers;
    StackedEnds(stack, markers, tokens, precs, lo, hi);
  }

  lemma {:induction false} StackedEnds(stack: seq<Entry>, markers: seq<nat>, tokens: seq<Token>, precs: seq<nat>,
                                       lo: nat, hi: nat)
    requires |precs| == |tokens| && Stacked(stack, markers, tokens, precs, lo, hi)
    ensures lo < hi && |stack| == 2 * |markers| - 1
    decreases |stack|
  {
    if |stack| > 1 {
      var n := |stack| - 1;
      StackedEnds(stack[..n - 1], markers[..|markers| - 1], tokens, precs, lo, stack[n].expr.start - 1);
    }
  }

  /** The tree that reducing the three topmost entries makes. */
  function Combined(stack: seq<Entry>, markers: seq<nat>, hi: nat): Expr
    requires |stack| >= 3 && |markers| >= 2
    requires stack[|stack| - 1].Node? && stack[|stack| - 2].Operator? && stack[|stack| - 3].Node?
  {
    Binary(stack[|stack| - 2].token, stack[|stack| - 3].expr, stack[|stack| - 1].expr, markers[|markers| - 2], hi)
  }

  /** Below an operator and a tree the stack is one of the tokens before the operator. */
  lemma StackBelow(stack: seq<Entry>, markers: seq<nat>, tokens: seq<Token>, precs: seq<nat>, lo: nat, hi: nat)
    requires Fit(tokens, precs) && Stacked(stack, markers, tokens, precs, lo, hi) && |stack| > 1
    ensures |stack| >= 3 && |markers| >= 2
    ensures stack[|stack| - 1].Node? && stack[|stack| - 2].Operator? && stack[|stack| - 3].Node?
    ensures stack[|stack| - 1].expr.start > 0
    ensures Stacked(stack[..|stack| - 2], markers[..|markers| - 1], tokens, precs,
              lo, stack[|stack| - 1].expr.start - 1)
  {
    var n := |stack| - 1;
    var below := stack[..n - 1];
    assert Stacked(below, markers[..|markers| - 1], tokens, precs, lo, stack[n].expr.start - 1);
    assert below[|below| - 1] == stack[n - 2];
  }

  /** The two topmost trees and the operator between them make a tree. */
  lemma CombinedParses(stack: seq<Entry>, markers: seq<nat>, tokens: seq<Token>, precs: seq<nat>, lo: nat, hi: nat)
    requires Fit(tokens, precs) && Stacked(stack, markers, tokens, precs, lo, hi) && |stack| > 1
    ensures |stack| >= 3 && |markers| >= 2
    ensures stack[|stack| - 1].Node? && stack[|stack| - 2].Operator? && stack[|stack| - 3].Node?
    ensures var e := Combined(stack, markers, hi);
      Parses(e, tokens, precs, e.start, hi) && e.Binding(precs) == TopPrecedence(stack)
  {
    StackBelow(stack, markers, tokens, precs, lo, hi);
    var n := |stack| - 1;
    var below, below' := stack[..n - 1], markers[..|markers| - 1];
    assert below[n - 2] == stack[n - 2] && below'[|below'| - 1] == markers[|markers| - 2];
  }

  /** Reducing the three topmost entries. */
  lemma Reduced(stack: seq<Entry>, markers: seq<nat>, tokens: seq<Token>, precs: seq<nat>, lo: nat, hi: nat)
    requires Fit(tokens, precs) && Stacked(stack, markers, tokens, precs, lo, hi) && |stack| > 1
    ensures |stack| >= 3 && |markers| >= 2
    ensures stack[|stack| - 1].Node? && stack[|stack| - 2].Operator? && stack[|stack| - 3].Node?
    ensures var e := Combined(stack, markers, hi);
      && Stacked(stack[..|stack| - 3] + [Node(e)], markers[..|markers| - 1], tokens, precs, lo, hi)
      && e.Binding(precs) == TopPrecedence(stack)
  {
    StackBelow(stack, markers, tokens, precs, lo, hi);
    CombinedParses(stack, markers, tokens, precs, lo, hi);
    var n := |stack| - 1;
    var below, below' := stack[..n - 1], markers[..|markers| - 1];
    assert below[n - 2] == stack[n - 2];
    if n > 2 {
      assert below[n - 3] == stack[n - 3] && below'[|below'| - 1] == markers[|markers| - 2];
      assert below[..n - 3] == stack[..n - 3];
      var reduced := stack[..n - 2] + [Node(Combined(stack, markers, hi))];
      assert reduced[..n - 3] == stack[..n - 3];
    }
  }

  /** With the upper part of the stack combined into one tree, what is left is a stack still. */
  predicate Upper(stack: seq<Entry>, markers: seq<nat>, k: nat, expr: Expr, tokens: seq<Token>, precs: seq<nat>,
                  lo: nat, hi: nat)
    requires |precs| == |tokens|
  {
    k < |markers| && 2 * k < |stack| && Stacked(stack[..2 * k] + [Node(expr)], markers[..k + 1], tokens, precs, lo, hi)
  }

  lemma EntriesBelow(stack: seq<Entry>, markers: seq<nat>, k: nat, expr: Expr, tokens: seq<Token>, precs: seq<nat>,
                     lo: nat, hi: nat)
    requires Fit(tokens, precs) && k > 0 && Upper(stack, markers, k, expr, tokens, precs, lo, hi)
    ensures stack[2 * k - 1].Operator? && stack[2 * k - 2].Node?
  {
    var top, marks := stack[..2 * k] + [Node(expr)], markers[..k + 1];
    Reduced(top, marks, tokens, precs, lo, hi);
    assert top[2 * k - 1] == stack[2 * k - 1] && top[2 * k - 2] == stack[2 * k - 2];
  }

  lemma ReducedBelow(stack: seq<Entry>, markers: seq<nat>, k: nat, expr: Expr, combined: Expr, tokens: seq<Token>,
                     precs: seq<nat>, lo: nat, hi: nat)
    requires Fit(tokens, precs) && Upper(stack, markers, k + 1, expr, tokens, precs, lo, hi)
    requires stack[2 * k + 1].Operator? && stack[2 * k].Node?
    requires combined == Binary(stack[2 * k + 1].token, stack[2 * k].expr, expr, markers[k], hi)
    ensures Upper(stack, markers, k, combined, tokens, precs, lo, hi)
  {
    var top, marks := stack[..2 * k + 2] + [Node(expr)], markers[..k + 2];
    Reduced(top, marks, tokens, precs, lo, hi);
    assert top[2 * k + 1] == stack[2 * k + 1] && top[2 * k] == stack[2 * k];
    assert top[..|top| - 3] == stack[..2 * k] && marks[..|marks| - 1] == markers[..k + 1];
  }

  lemma WholeStack(stack: seq<Entry>, markers: seq<nat>, tokens: seq<Token>, precs: seq<nat>, lo: nat, hi: nat)
    requires Fit(tokens, precs) && Stacked(stack, markers, tokens, precs, lo, hi)
    ensures var k := |markers| - 1;
      |stack| == 2 * k + 1 && Upper(stack, markers, k, stack[2 * k].expr, tokens, precs, lo, hi)
  {
    StackedEnds(stack, markers, tokens, precs, lo, hi);
    var k := |markers| - 1;
    assert stack[..2 * k] + [Node(stack[2 * k].expr)] == stack && markers[..k + 1] == markers;
  }

  lemma Shortened(left: seq<nat>, markers: seq<nat>, k: nat)
    requires k < |markers| && left == markers[..k + 1]
    ensures left[..|left| - 1] == markers[..k] && left[|left| - 1] == markers[k]
  {
  }

  lemma LowestEntry(stack: seq<Entry>, markers: seq<nat>, expr: Expr, tokens: seq<Token>, precs: seq<nat>,
                    lo: nat, hi: nat)
    requires |precs| == |tokens| && Upper(stack, markers, 0, expr, tokens, precs, lo, hi)
    ensures Parses(expr, tokens, precs, lo, hi)
  {
    assert stack[..0] + [Node(expr)] == [Node(expr)];
  }

  // ---------- the parser ----------

  /** Combines the entries of the stack from the top down. */
  method ReduceAll(stack: seq<Entry>, markers: seq<nat>, tokens: seq<Token>, ghost precs: seq<nat>, ghost lo: nat,
                   index: nat)
    returns (expr: Expr)
    requires Fit(tokens, precs) && Stacked(stack, markers, tokens, precs, lo, index)
    ensures Parses(expr, tokens, precs, lo, index)
  {
    WholeStack(stack, markers, tokens, precs, lo, index);
    var i := |stack| - 1;
    expr := stack[i].expr;
    var left := markers[..|markers| - 1];
    ghost var k := |left|;
    while i > 1
      invariant i == 2 * k && k < |markers| && left == markers[..k]
      invariant Upper(stack, markers, k, expr, tokens, precs, lo, index)
    {
      EntriesBelow(stack, markers, k, expr, tokens, precs, lo, index);
      k := k - 1;
      Shortened(left, markers, k);
      ghost var right := expr;
      expr := Binary(stack[i - 1].token, stack[i - 2].expr, expr, left[|left| - 1], index);
      ReducedBelow(stack, markers, k, right, expr, tokens, precs, lo, index);
      i := i - 2;
      left := left[..|left| - 1];
    }
    LowestEntry(stack, markers, expr, tokens, precs, lo, index);
  }

  /** The precedence of the token at the index; 0 behind the last one. */
  function PrecedenceAt(precs: seq<nat>, index: nat): nat {
    if index < |precs| then precs[index] else 0
  }

  /** An operand without an operator behind it. */
  lemma OperandAlone(tokens: seq<Token>, precs: seq<nat>, lo: nat)
    requires |precs| == |tokens| && lo < |tokens| && tokens[lo].Operand? && PrecedenceAt(precs, lo + 1) == 0
    ensures RunEnd(tokens, precs, lo) == Some(lo + 1)
    ensures Parses(Atom(tokens[lo], lo, lo + 1), tokens, precs, lo, lo + 1)
  {
  }

  class Parser {
    const tokens: seq<Token>
    var index: nat
    var allowIn: bool

    constructor (tokens: seq<Token>)
      ensures this.tokens == tokens && index == 0 && allowIn
    {
      this.tokens := tokens;
      index, allowIn := 0, true;
    }

    function Lookahead(): Token
      reads this
    {
      if index < |tokens| then tokens[index] else EndOfInput
    }

    method LookaheadPrecedence(allowIn: bool, ghost precs: seq<nat>) returns (prec: nat)
      requires ArePrecedences(precs, tokens, allowIn)
      ensures prec == PrecedenceAt(precs, index)
    {
      prec := BinaryPrecedence(Lookahead(), allowIn);
    }

    /** Reads an operand; nothing where the code throws. */
    method ParseUnaryExpression() returns (r: Option<Expr>)
      modifies `index
      ensures if old(index) < |tokens| && tokens[old(index)].Operand?
              then index == old(index) + 1 && r == Some(Atom(tokens[old(index)], old(index), index))
              else r == None && index == old(index)
    {
      if !Lookahead().Operand? {
        return None;
      }
      index := index + 1;
      return Some(Atom(tokens[index - 1], index - 1, index));
    }

    /** The tokens from lo up to the index are on the stack, with an operand on top. */
    ghost predicate Running(stack: seq<Entry>, markers: seq<nat>, precs: seq<nat>, lo: nat)
      reads this
    {
      && Fit(tokens, precs) && lo < index <= |tokens| && Stacked(stack, markers, tokens, precs, lo, index)
      && stack[|stack| - 1].expr.Atom?
      && tokens[index - 1].Operand? && RunEnd(tokens, precs, lo) == RunEnd(tokens, precs, index - 1)
    }

    /** Reduces as long as the operator that comes next binds no more tightly than the topmost one. */
    method Reduce(stack: seq<Entry>, markers: seq<nat>, prec: nat, ghost precs: seq<nat>, ghost lo: nat)
      returns (stack': seq<Entry>, markers': seq<nat>)
      requires Running(stack, markers, precs, lo) && 0 < prec <= 11
      ensures Stacked(stack', markers', tokens, precs, lo, index) && Pushable(stack', precs, prec)
    {
      stack', markers' := stack, markers;
      while |stack'| > 2 && stack'[|stack'| - 2].Operator? && prec <= stack'[|stack'| - 2].prec
        invariant Stacked(stack', markers', tokens, precs, lo, index)
        invariant stack'[|stack'| - 1].expr.Binding(precs) >= prec
      {
        Reduced(stack', markers', tokens, precs, lo, index);
        var right, operator, left := stack'[|stack'| - 1].expr, stack'[|stack'| - 2].token, stack'[|stack'| - 3].expr;
        var marker := markers'[|markers'| - 2];
        stack' := stack'[..|stack'| - 3] + [Node(Binary(operator, left, right, marker, index))];
        markers' := markers'[..|markers'| - 1];
      }
    }

    /** Puts the next operator and the operand behind it onto the stack. */
    method Shift(stack: seq<Entry>, markers: seq<nat>, prec: nat, ghost precs: seq<nat>, ghost lo: nat)
      returns (ok: bool, stack': seq<Entry>, markers': seq<nat>)
      requires Fit(tokens, precs) && lo < index < |tokens| && prec == precs[index]
      requires Stacked(stack, markers, tokens, precs, lo, index) && Pushable(stack, precs, prec)
      requires tokens[index - 1].Operand? && RunEnd(tokens, precs, lo) == RunEnd(tokens, precs, index - 1)
      modifies `index
      ensures ok ==> Running(stack', markers', precs, lo) && index > lo + 1 && index > old(index)
      ensures !ok ==> RunEnd(tokens, precs, lo).None?
    {
      var token := Lookahead();
      index := index + 1;
      var marker := index;
      var operand := ParseUnaryExpression();
      if operand.None? {
        return false, stack, markers;
      }
      Shifted(stack, markers, tokens, precs, lo, marker - 1);
      return true, stack + [Operator(token, prec), Node(operand.value)], markers + [marker];
    }

    /** Reads the further operators and operands. */
    method ParseOperators(stack: seq<Entry>, markers: seq<nat>, previousAllowIn: bool, ghost precs: seq<nat>,
                          ghost lo: nat)
      returns (r: Option<Expr>)
      requires ArePrecedences(precs, tokens, previousAllowIn) && Running(stack, markers, precs, lo)
      modifies this
      ensures r.Some? <==> RunEnd(tokens, precs, lo).Some?
      ensures r.Some? ==>
        && index == RunEnd(tokens, precs, lo).value && Parses(r.value, tokens, precs, lo, index)
        && index >= old(index) && allowIn == previousAllowIn
    {
      var stack, markers := stack, markers;
      var prec := LookaheadPrecedence(previousAllowIn, precs);
      while prec > 0
        invariant Running(stack, markers, precs, lo) && prec == PrecedenceAt(precs, index) && index >= old(index)
        decreases |tokens| - index
      {
        stack, markers := Reduce(stack, markers, prec, precs, lo);
        var ok;
        ok, stack, markers := Shift(stack, markers, prec, precs, lo);
        if !ok {
          return None;
        }
        prec := LookaheadPrecedence(previousAllowIn, precs);
      }
      allowIn := previousAllowIn;
      var expr := ReduceAll(stack, markers, tokens, precs, lo, index);
      return Some(expr);
    }

    /**
     Reads operands and binary operators as far as they go, and returns their tree.  The flag `allowIn` is left as
     it was exactly if it was set or an operator stands behind the first operand; otherwise it is left set.
     */
    method ParseBinaryExpression() returns (r: Option<Expr>)
      modifies this
      ensures var precs := Precedences(tokens, old(allowIn));
        && (r.Some? <==> RunEnd(tokens, precs, old(index)).Some?)
        && (r.Some? ==> index == RunEnd(tokens, precs, old(index)).value &&
                        Parses(r.value, tokens, precs, old(index), index))
      ensures r.Some? ==> Derived(r.value, tokens, old(index), index, old(allowIn))
      ensures r.None? ==> forall e, hi :: !Derived(e, tokens, old(index), hi, old(allowIn))
      ensures r.Some? ==>
        (allowIn == old(allowIn) <==>
          old(allowIn) || PrecedenceAt(Precedences(tokens, old(allowIn)), old(index) + 1) > 0)
      ensures r.Some? ==>
        (allowIn == old(allowIn) <==>
          old(allowIn) || (old(index) + 1 < |tokens| && IsOperator(tokens[old(index) + 1], old(allowIn))))
    {
      ghost var lo := index;
      var previousAllowIn := allowIn;
      ghost var precs := Precedences(tokens, previousAllowIn);
      assert ArePrecedences(precs, tokens, previousAllowIn);
      allowIn := true;
      var marker := index;
      var left := ParseUnaryExpression();
      if left.None? {
        OutcomeIsDerived(None, tokens, lo, index, previousAllowIn);
        return None;
      }
      if index < |tokens| {
        OperatorsArePrecedences(tokens[index], previousAllowIn);
      }
      var prec := LookaheadPrecedence(previousAllowIn, precs);
      if prec == 0 {
        OperandAlone(tokens, precs, lo);
        OutcomeIsDerived(left, tokens, lo, index, previousAllowIn);
        return left;
      }
      r := ParseBehind(left.value, marker, prec, previousAllowIn, precs);
      OutcomeIsDerived(r, tokens, lo, index, previousAllowIn);
    }

    /** Reads the operators and operands behind the first operand. */
    method ParseBehind(left: Expr, marker: nat, prec: nat, previousAllowIn: bool, ghost precs: seq<nat>)
      returns (r: Option<Expr>)
      requires ArePrecedences(precs, tokens, previousAllowIn)
      requires index == marker + 1 <= |tokens| && tokens[marker].Operand? && left == Atom(tokens[marker], marker, index)
      requires prec == PrecedenceAt(precs, index) > 0
      modifies this
      ensures r.Some? <==> RunEnd(tokens, precs, marker).Some?
      ensures r.Some? ==>
        && index == RunEnd(tokens, precs, marker).value && Parses(r.value, tokens, precs, marker, index)
        && allowIn == previousAllowIn
    {
      var ok, stack, markers := Shift([Node(left)], [marker], prec, precs, marker);
      if !ok {
        return None;
      }
      r := ParseOperators(stack, markers, previousAllowIn, precs, marker);
    }
  }

  lemma ProductBindsTightly(a: Token, b: Token, c: Token)
    requires a.Operand? && b.Operand? && c.Operand?
    ensures var product := Binary(Punctuator("*"), Atom(b, 2, 3), Atom(c, 4, 5), 2, 5);
      Derived(Binary(Punctuator("+"), Atom(a, 0, 1), product, 0, 5),
        [a, Punctuator("+"), b, Punctuator("*"), c], 0, 5, true)
  {
    var product := Binary(Punctuator("*"), Atom(b, 2, 3), Atom(c, 4, 5), 2, 5);
    var sum := Binary(Punctuator("+"), Atom(a, 0, 1), product, 0, 5);
    assert ["*", "/", "%"][0] == "*" && ["+", "-"][0] == "+";
    assert Is(Punctuator("*"), ["*", "/", "%"]) && Is(Punctuator("+"), ["+", "-"]);
    assert Primary(product.left) && Primary(product.right) && Multiplicative(product.left);
    assert Multiplicative(product);
    assert Primary(sum.left) && Multiplicative(sum.left) && Additive(sum.left);
    assert Additive(sum);
    AdditiveIsExpression(sum);
    SumIsSpanned(a, b, c);
  }

  lemma AdditiveIsExpression(e: Expr)
    requires Additive(e)
    ensures LogicalOr(e, true)
  {
    assert Shift(e);
    assert Relational(e, true);
    assert Equality(e, true);
    assert BitwiseAnd(e, true);
    assert BitwiseXor(e, true);
    assert BitwiseOr(e, true);
    assert LogicalAnd(e, true);
  }

  lemma SumIsSpanned(a: Token, b: Token, c: Token)
    requires a.Operand? && b.Operand? && c.Operand?
    ensures var product := Binary(Punctuator("*"), Atom(b, 2, 3), Atom(c, 4, 5), 2, 5);
      Spanned(Binary(Punctuator("+"), Atom(a, 0, 1), product, 0, 5),
        [a, Punctuator("+"), b, Punctuator("*"), c], 0, 5)
  {
    var tokens := [a, Punctuator("+"), b, Punctuator("*"), c];
    assert Spanned(Atom(a, 0, 1), tokens, 0, 1);
    assert Spanned(Atom(b, 2, 3), tokens, 2, 3) && Spanned(Atom(c, 4, 5), tokens, 4, 5);
    assert Spanned(Binary(Punctuator("*"), Atom(b, 2, 3), Atom(c, 4, 5), 2, 5), tokens, 2, 5);
  }

  /** `a + b * c` is the sum of `a` and the product. */
  method SumOfProduct(a: Token, b: Token, c: Token) returns (r: Option<Expr>)
    requires a.Operand? && b.Operand? && c.Operand?
    ensures r ==
      Some(Binary(Punctuator("+"), Atom(a, 0, 1), Binary(Punctuator("*"), Atom(b, 2, 3), Atom(c, 4, 5), 2, 5), 0, 5))
  {
    var parser := new Parser([a, Punctuator("+"), b, Punctuator("*"), c]);
    r := parser.ParseBinaryExpression();
    ProductBindsTightly(a, b, c);
    ghost var product := Binary(Punctuator("*"), Atom(b, 2, 3), Atom(c, 4, 5), 2, 5);
    ghost var sum := Binary(Punctuator("+"), Atom(a, 0, 1), product, 0, 5);
    assert Derived(sum, parser.tokens, 0, 5, true);
    DerivedOnce(r.value, sum, parser.tokens, 0, parser.index, 5, true);
  }

  /** The flag is off, a single operand is parsed, and the flag is on. */
  method LoneOperandSetsFlag(operand: Token) returns (r: Option<Expr>, before: bool, after: bool)
    requires operand.Operand?
    ensures r == Some(Atom(operand, 0, 1)) && !before && after
  {
    var parser := new Parser([operand]);
    parser.allowIn := false;
    before := parser.allowIn;
    r := parser.ParseBinaryExpression();
    after := parser.allowIn;
  }
}

/**
 The binary search over sorted mappings, defaults/JSXTransformer.js:10360-10418.  A comparison `c` stands for
 `aCompare` with its first argument, the needle, fixed: positive for elements below the needle, negative for
 those above.
 */
module PositionSearch {
  import opened Options

  function RecursiveSearch<T>(low: int, high: int, haystack: seq<T>, c: T -> int): Option<T>
    requires -1 <= low < high <= |haystack| && high - low > 1
    decreases high - low
  {
    var mid := (high - low) / 2 + low;
    var cmp := c(haystack[mid]);
    if cmp == 0 then Some(haystack[mid])
    else if cmp > 0 then
      if high - mid > 1 then RecursiveSearch(mid, high, haystack, c) else Some(haystack[mid])
    else if mid - low > 1 then RecursiveSearch(low, mid, haystack, c)
    else if low < 0 then None
    else Some(haystack[low])
  }

  function Search<T>(haystack: seq<T>, c: T -> int): Option<T> {
    if |haystack| > 0 then RecursiveSearch(-1, |haystack|, haystack, c) else None
  }

  /** Elements below the needle come first, then those equal to it, then those above. */
  predicate Ordered<T>(haystack: seq<T>, c: T -> int) {
    forall i, j | 0 <= i < j < |haystack| ::
      (c(haystack[j]) > 0 ==> c(haystack[i]) > 0) && (c(haystack[i]) < 0 ==> c(haystack[j]) < 0)
  }

  /** The last element that is not above the needle, found by looking at every element. */
  function LastNotAbove<T>(haystack: seq<T>, c: T -> int): Option<T> {
    if haystack == [] then None
    else if c(haystack[|haystack| - 1]) >= 0 then Some(haystack[|haystack| - 1])
    else LastNotAbove(haystack[..|haystack| - 1], c)
  }

  /** The answer a linear scan justifies: an equal element if there is one, else the last one below, else none. */
  ghost predicate Answers<T>(haystack: seq<T>, c: T -> int, r: Option<T>) {
    match r
    case None => forall i | 0 <= i < |haystack| :: c(haystack[i]) < 0
    case Some(x) => exists k | 0 <= k < |haystack| :: haystack[k] == x && AnswersAt(haystack, c, k)
  }

  predicate AnswersAt<T>(haystack: seq<T>, c: T -> int, k: nat)
    requires k < |haystack|
  {
    c(haystack[k]) == 0 || (c(haystack[k]) > 0 && forall i | k < i < |haystack| :: c(haystack[i]) < 0)
  }

  /** What is above an element that is above the needle, is above it too, and the other way round. */
  lemma OrderedAround<T>(haystack: seq<T>, c: T -> int, k: nat)
    requires Ordered(haystack, c) && k < |haystack|
    ensures c(haystack[k]) < 0 ==> Above(haystack, c, k)
  {
  }

  /** All elements from k on are above the needle. */
  predicate Above<T>(haystack: seq<T>, c: T -> int, k: int) {
    forall i | 0 <= i < |haystack| && k <= i :: c(haystack[i]) < 0
  }

  lemma {:induction false} RecursiveSearchAnswers<T>(low: int, high: int, haystack: seq<T>, c: T -> int)
    requires -1 <= low < high <= |haystack| && high - low > 1 && Ordered(haystack, c)
    requires low >= 0 ==> c(haystack[low]) > 0
    requires Above(haystack, c, high)
    ensures Answers(haystack, c, RecursiveSearch(low, high, haystack, c))
    decreases high - low
  {
    var mid := (high - low) / 2 + low;
    var cmp := c(haystack[mid]);
    OrderedAround(haystack, c, mid);
    if cmp == 0 {
      assert AnswersAt(haystack, c, mid);
    } else if cmp > 0 {
      if high - mid > 1 {
        RecursiveSearchAnswers(mid, high, haystack, c);
      } else {
        assert AnswersAt(haystack, c, mid);
      }
    } else if mid - low > 1 {
      RecursiveSearchAnswers(low, mid, haystack, c);
    } else if low >= 0 {
      assert AnswersAt(haystack, c, low);
    }
  }

  /** The search finds an equal element, else the last smaller one, else nothing. */
  lemma SearchAnswers<T>(haystack: seq<T>, c: T -> int)
    requires Ordered(haystack, c)
    ensures Answers(haystack, c, Search(haystack, c))
  {
    if |haystack| > 0 {
      RecursiveSearchAnswers(-1, |haystack|, haystack, c);
    }
  }

  lemma {:induction false} LastNotAboveAt<T>(haystack: seq<T>, c: T -> int, k: nat)
    requires k < |haystack| && c(haystack[k]) >= 0
    requires forall i | k < i < |haystack| :: c(haystack[i]) < 0
    ensures LastNotAbove(haystack, c) == Some(haystack[k])
    decreases |haystack|
  {
    if k < |haystack| - 1 {
      LastNotAboveAt(haystack[..|haystack| - 1], c, k);
    }
  }

  lemma {:induction false} LastNotAboveNone<T>(haystack: seq<T>, c: T -> int)
    requires forall i | 0 <= i < |haystack| :: c(haystack[i]) < 0
    ensures LastNotAbove(haystack, c) == None
  {
    if haystack != [] {
      LastNotAboveNone(haystack[..|haystack| - 1], c);
    }
  }

  /** When at most one element equals the needle, the search agrees with a linear scan. */
  lemma SearchIsLinearScan<T>(haystack: seq<T>, c: T -> int)
    requires Ordered(haystack, c)
    requires forall i, j | 0 <= i < j < |haystack| :: c(haystack[i]) == 0 ==> c(haystack[j]) != 0
    ensures Search(haystack, c) == LastNotAbove(haystack, c)
  {
    SearchAnswers(haystack, c);
    match Search(haystack, c)
    case None => LastNotAboveNone(haystack, c);
    case Some(x) =>
      var k :| 0 <= k < |haystack| && haystack[k] == x && AnswersAt(haystack, c, k);
      forall i | k < i < |haystack|
        ensures c(haystack[i]) < 0
      {
      }
      LastNotAboveAt(haystack, c, k);
  }
}

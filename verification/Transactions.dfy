/**
 Transactions, module 121 of defaults/react-with-addons.js: wrappers are initialised, the body runs, wrappers are
 closed, and any of the calls may throw.
 */
module Transactions {
  import opened Options

  type Error = nat

  /** What an initialiser returns; `OBSERVED_ERROR` marks one that threw. */
  datatype Data = OBSERVED_ERROR | Null | Plain(id: nat)

  /** The calls made, in order. */
  datatype Call = Initialize(n: nat) | Body | Close(n: nat, data: Data)

  type History = seq<Call>

  datatype Outcome<T> = Returns(value: T) | Throws(error: Error)

  /**
   The handlers of a wrapper, as far as it has them.  How a call ends may depend on all calls up to and including
   it.
   */
  datatype Wrapper = Wrapper(initialize: Option<History -> Outcome<Data>>, close: Option<History -> Option<Error>>)

  /** The stored data and the calls made, with the error thrown, if any. */
  datatype Ended = Ended(data: seq<Data>, history: History, error: Option<Error>)

  /** Assigning to an element of a JavaScript array, which grows by it if it is the next one. */
  function Stored(data: seq<Data>, n: nat, d: Data): (r: seq<Data>)
    requires n <= |data|
    ensures n < |r| && r[n] == d && |r| >= |data| && r[..n] == data[..n]
  {
    if n < |data| then data[n := d] else data + [d]
  }

  // ---------- what the code does ----------

  /** `initializeAll(n)`. */
  function InitializeFrom(ws: seq<Wrapper>, n: nat, data: seq<Data>, history: History): (r: Ended)
    requires n <= |ws| && n <= |data|
    ensures |r.data| >= |data| && (|data| <= |ws| ==> |r.data| == |ws|)
    decreases |ws| - n
  {
    if n == |ws| then Ended(data, history, None)
    else if ws[n].initialize.None? then InitializeFrom(ws, n + 1, Stored(data, n, Null), history)
    else
      var history' := history + [Initialize(n)];
      match ws[n].initialize.value(history')
      case Throws(error) =>
        var rest := InitializeFrom(ws, n + 1, Stored(data, n, OBSERVED_ERROR), history');
        rest.(error := Some(error))
      case Returns(d) =>
        var data' := Stored(data, n, d);
        if d == OBSERVED_ERROR then
          var again := InitializeFrom(ws, n + 1, data', history');
          InitializeFrom(ws, n + 1, again.data, again.history)
        else InitializeFrom(ws, n + 1, data', history')
  }

  /** `closeAll(n)`. */
  function CloseFrom(ws: seq<Wrapper>, n: nat, data: seq<Data>, history: History): (r: Ended)
    requires n <= |ws| <= |data|
    ensures r.data == []
    decreases |ws| - n
  {
    if n == |ws| then Ended([], history, None)
    else if data[n] == OBSERVED_ERROR || ws[n].close.None? then CloseFrom(ws, n + 1, data, history)
    else
      var history' := history + [Close(n, data[n])];
      match ws[n].close.value(history')
      case Some(error) => CloseFrom(ws, n + 1, data, history').(error := Some(error))
      case None => CloseFrom(ws, n + 1, data, history')
  }

  /** The rest of `perform`, after the initialisers. */
  function Finished(ws: seq<Wrapper>, body: History -> Outcome<nat>, begun: Ended): (Ended, nat)
    requires |begun.data| == |ws|
  {
    if begun.error.Some? then (CloseFrom(ws, 0, begun.data, begun.history).(error := begun.error), 0)
    else
      var history' := begun.history + [Body];
      match body(history')
      case Throws(error) => (CloseFrom(ws, 0, begun.data, history').(error := Some(error)), 0)
      case Returns(value) => (CloseFrom(ws, 0, begun.data, history'), value)
  }

  /** `perform`, outside a transaction; the body is a function of the calls up to and including it. */
  function Performed(ws: seq<Wrapper>, body: History -> Outcome<nat>, history: History): (Ended, nat) {
    Finished(ws, body, InitializeFrom(ws, 0, [], history))
  }

  // ---------- the object ----------

  class Transaction {
    const transactionWrappers: seq<Wrapper>
    var wrapperInitData: seq<Data>
    var isInTransaction: bool
    var history: History

    constructor (wrappers: seq<Wrapper>)
      ensures transactionWrappers == wrappers && wrapperInitData == [] && !isInTransaction && history == []
    {
      transactionWrappers := wrappers;
      wrapperInitData, isInTransaction, history := [], false, [];
    }

    method InitializeAll(startIndex: nat) returns (error: Option<Error>)
      requires startIndex <= |transactionWrappers| && startIndex <= |wrapperInitData|
      modifies `wrapperInitData, `history
      ensures Ended(wrapperInitData, history, error)
           == InitializeFrom(transactionWrappers, startIndex, old(wrapperInitData), old(history))
      decreases |transactionWrappers| - startIndex, 1
    {
      var n := startIndex;
      while n < |transactionWrappers|
        invariant startIndex <= n <= |transactionWrappers| && n <= |wrapperInitData|
        invariant InitializeFrom(transactionWrappers, n, wrapperInitData, history)
               == InitializeFrom(transactionWrappers, startIndex, old(wrapperInitData), old(history))
      {
        error := InitializeOne(n);
        if error.Some? {
          return;
        }
        n := n + 1;
      }
      return None;
    }

    /** One round of that loop: the n-th wrapper, and in the finally block those behind it. */
    method InitializeOne(n: nat) returns (error: Option<Error>)
      requires n < |transactionWrappers| && n <= |wrapperInitData|
      modifies `wrapperInitData, `history
      ensures n < |wrapperInitData|
      ensures InitializeFrom(transactionWrappers, n, old(wrapperInitData), old(history)) ==
        if error.Some? then Ended(wrapperInitData, history, error)
        else InitializeFrom(transactionWrappers, n + 1, wrapperInitData, history)
      decreases |transactionWrappers| - n, 0
    {
      var wrapper := transactionWrappers[n];
      ghost var data := wrapperInitData;
      wrapperInitData := Stored(wrapperInitData, n, OBSERVED_ERROR);
      if wrapper.initialize.None? {
        wrapperInitData := Stored(wrapperInitData, n, Null);
        assert wrapperInitData == Stored(data, n, Null);
      } else {
        history := history + [Initialize(n)];
        match wrapper.initialize.value(history)
        case Throws(e) =>
          var _ := InitializeAll(n + 1);
          return Some(e);
        case Returns(d) =>
          wrapperInitData := Stored(wrapperInitData, n, d);
          assert wrapperInitData == Stored(data, n, d);
          if wrapperInitData[n] == OBSERVED_ERROR {
            var _ := InitializeAll(n + 1);
          }
      }
      return None;
    }

    method CloseAll(startIndex: nat) returns (error: Option<Error>)
      requires isInTransaction && startIndex <= |transactionWrappers| <= |wrapperInitData|
      modifies `wrapperInitData, `history
      ensures Ended(wrapperInitData, history, error)
           == CloseFrom(transactionWrappers, startIndex, old(wrapperInitData), old(history))
      decreases |transactionWrappers| - startIndex
    {
      var n := startIndex;
      while n < |transactionWrappers|
        invariant startIndex <= n <= |transactionWrappers| && wrapperInitData == old(wrapperInitData)
        invariant CloseFrom(transactionWrappers, n, wrapperInitData, history)
               == CloseFrom(transactionWrappers, startIndex, old(wrapperInitData), old(history))
      {
        var wrapper, initData := transactionWrappers[n], wrapperInitData[n];
        if initData != OBSERVED_ERROR && wrapper.close.Some? {
          history := history + [Close(n, initData)];
          var thrown := wrapper.close.value(history);
          if thrown.Some? {
            var _ := CloseAll(n + 1);
            return thrown;
          }
        }
        n := n + 1;
      }
      wrapperInitData := [];
      return None;
    }

    /** Runs the body between the wrappers; inside a transaction the code throws without any effect. */
    method Perform(body: History -> Outcome<nat>) returns (refused: bool, error: Option<Error>, value: nat)
      requires !isInTransaction ==> wrapperInitData == []
      modifies this
      ensures refused == old(isInTransaction)
      ensures refused ==> unchanged(this)
      ensures !refused ==>
        && !isInTransaction
        && (Ended(wrapperInitData, history, error), value) == Performed(transactionWrappers, body, old(history))
      ensures !refused && error.None? ==>
        exists k | |old(history)| <= k < |history| :: history[k] == Body && body(history[..k + 1]) == Returns(value)
    {
      BodyIsCalled(transactionWrappers, body, history);
      error, value := None, 0;
      if isInTransaction {
        return true, None, 0;
      }
      isInTransaction := true;
      error := InitializeAll(0);
      if error.None? {
        history := history + [Body];
        match body(history)
        case Returns(v) => value := v;
        case Throws(e) => error := Some(e);
      }
      if error.Some? {
        var _ := CloseAll(0);
      } else {
        error := CloseAll(0);
      }
      isInTransaction := false;
      return false, error, value;
    }
  }

  // ---------- what a transaction should do ----------

  /** The initialisers from the n-th wrapper on, each called once, in order. */
  function Initializers(ws: seq<Wrapper>, n: nat): History
    requires n <= |ws|
    decreases |ws| - n
  {
    if n == |ws| then []
    else if ws[n].initialize.Some? then [Initialize(n)] + Initializers(ws, n + 1)
    else Initializers(ws, n + 1)
  }

  /** For each wrapper from the n-th on what its initialiser returns, when each is called once; nothing if it throws. */
  function Results(ws: seq<Wrapper>, n: nat, history: History): (rs: seq<Option<Data>>)
    requires n <= |ws|
    ensures |rs| == |ws| - n
    decreases |ws| - n
  {
    if n == |ws| then []
    else if ws[n].initialize.None? then [Some(Null)] + Results(ws, n + 1, history)
    else
      var history' := history + [Initialize(n)];
      var r := ws[n].initialize.value(history');
      [if r.Returns? then Some(r.value) else None] + Results(ws, n + 1, history')
  }

  /** The close handlers of the wrappers whose initialiser did not throw, each called once, in order. */
  function Closers(ws: seq<Wrapper>, n: nat, results: seq<Option<Data>>): History
    requires n <= |ws| == |results|
    decreases |ws| - n
  {
    if n == |ws| then []
    else if ws[n].close.Some? && results[n].Some? then [Close(n, results[n].value)] + Closers(ws, n + 1, results)
    else Closers(ws, n + 1, results)
  }

  lemma {:induction false} ClosersOnlyClose(ws: seq<Wrapper>, n: nat, results: seq<Option<Data>>)
    requires n <= |ws| == |results|
    ensures forall c <- Closers(ws, n, results) :: c.Close?
    decreases |ws| - n
  {
    if n < |ws| {
      ClosersOnlyClose(ws, n + 1, results);
    }
  }

  /** The wrapper that the call belongs to. */
  function IndexOf(c: Call): int {
    match c
    case Initialize(n) => n
    case Body => -1
    case Close(n, _) => n
  }

  /** The calls belong to wrappers of increasing index. */
  predicate InOrder(calls: History) {
    forall i, j | 0 <= i < j < |calls| :: IndexOf(calls[i]) < IndexOf(calls[j])
  }

  lemma InOrderBehind(first: Call, later: History)
    requires InOrder(later) && forall c <- later :: IndexOf(first) < IndexOf(c)
    ensures InOrder([first] + later)
    ensures forall c :: c in [first] + later <==> c == first || c in later
  {
  }

  /** The initialisers that there are, by increasing index. */
  lemma {:induction false} InitializersAre(ws: seq<Wrapper>, n: nat)
    requires n <= |ws|
    ensures forall c :: c in Initializers(ws, n) <==>
      c.Initialize? && n <= c.n < |ws| && ws[c.n].initialize.Some?
    ensures InOrder(Initializers(ws, n))
    decreases |ws| - n
  {
    if n < |ws| {
      InitializersAre(ws, n + 1);
      InOrderBehind(Initialize(n), Initializers(ws, n + 1));
    }
  }

  /** The close handlers of wrappers with a result, by increasing index, each with that result. */
  lemma {:induction false} ClosersAreThese(ws: seq<Wrapper>, n: nat, results: seq<Option<Data>>)
    requires n <= |ws| == |results|
    ensures forall c :: c in Closers(ws, n, results) <==>
      c.Close? && n <= c.n < |ws| && ws[c.n].close.Some? && results[c.n] == Some(c.data)
    ensures InOrder(Closers(ws, n, results))
    decreases |ws| - n
  {
    if n < |ws| {
      ClosersAreThese(ws, n + 1, results);
      if results[n].Some? {
        InOrderBehind(Close(n, results[n].value), Closers(ws, n + 1, results));
      }
    }
  }

  /** The result of an initialiser, called behind those in front of it. */
  lemma {:induction false} ResultsAre(ws: seq<Wrapper>, n: nat, history: History, k: nat)
    requires n <= k < |ws|
    ensures var front := history + InitializersUpTo(ws, n, k + 1);
      Results(ws, n, history)[k - n] ==
      if ws[k].initialize.None? then Some(Null)
      else if ws[k].initialize.value(front).Returns? then Some(ws[k].initialize.value(front).value) else None
    decreases |ws| - n
  {
    var first := if ws[n].initialize.Some? then [Initialize(n)] else [];
    assert history + [] == history;
    if k > n {
      ResultsAre(ws, n + 1, history + first, k);
      Joined(history, first, InitializersUpTo(ws, n + 1, k + 1));
    } else {
      assert first + [] == first;
    }
  }

  /** The initialisers from the n-th wrapper up to, but not including, the k-th. */
  function InitializersUpTo(ws: seq<Wrapper>, n: nat, k: nat): History
    requires n <= k <= |ws|
    decreases k - n
  {
    if n == k then []
    else (if ws[n].initialize.Some? then [Initialize(n)] else []) + InitializersUpTo(ws, n + 1, k)
  }

  /** The calls after the initialisers. */
  function Remaining(ws: seq<Wrapper>, results: seq<Option<Data>>): History
    requires |ws| == |results|
  {
    if None in results then Closers(ws, 0, results) else [Body] + Closers(ws, 0, results)
  }

  /** All calls of a transaction. */
  function Calls(ws: seq<Wrapper>, history: History): History {
    Initializers(ws, 0) + Remaining(ws, Results(ws, 0, history))
  }

  /** What the last call of the history throws, if it does. */
  function Thrown(ws: seq<Wrapper>, body: History -> Outcome<nat>, history: History): Option<Error> {
    if history == [] then None
    else
      match history[|history| - 1]
      case Initialize(n) =>
        if n < |ws| && ws[n].initialize.Some? then ErrorOf(ws[n].initialize.value(history)) else None
      case Body => ErrorOf(body(history))
      case Close(n, _) => if n < |ws| && ws[n].close.Some? then ws[n].close.value(history) else None
  }

  function ErrorOf<T>(outcome: Outcome<T>): Option<Error> {
    match outcome
    case Throws(error) => Some(error)
    case Returns(_) => None
  }

  /** The first error thrown by the calls from the k-th on. */
  function FirstError(ws: seq<Wrapper>, body: History -> Outcome<nat>, history: History, k: nat): Option<Error>
    decreases |history| - k
  {
    if k >= |history| then None
    else if Thrown(ws, body, history[..k + 1]).Some? then Thrown(ws, body, history[..k + 1])
    else FirstError(ws, body, history, k + 1)
  }

  lemma {:induction false} FirstErrorSplit(ws: seq<Wrapper>, body: History -> Outcome<nat>, front: History,
                                           more: History, k: nat)
    requires k <= |front|
    ensures FirstError(ws, body, front + more, k) ==
      if FirstError(ws, body, front, k).Some? then FirstError(ws, body, front, k)
      else FirstError(ws, body, front + more, |front|)
    decreases |front| - k
  {
    if k < |front| {
      assert (front + more)[..k + 1] == front[..k + 1];
      FirstErrorSplit(ws, body, front, more, k + 1);
    }
  }

  /** The error is that of the first call that throws. */
  lemma {:induction false} FirstErrorAt(ws: seq<Wrapper>, body: History -> Outcome<nat>, history: History,
                                        k: nat, at: nat)
    requires k <= at < |history| && Thrown(ws, body, history[..at + 1]).Some?
    requires forall n | k < n <= at :: Thrown(ws, body, history[..n]).None?
    ensures FirstError(ws, body, history, k) == Thrown(ws, body, history[..at + 1])
    decreases at - k
  {
    if k < at {
      FirstErrorAt(ws, body, history, k + 1, at);
    }
  }

  // ---------- initialising ----------

  /** The sentinel never comes from an initialiser that returns and has others behind it. */
  predicate RunsOnce(ws: seq<Wrapper>, n: nat, history: History)
    requires n <= |ws|
    decreases |ws| - n
  {
    n == |ws| ||
    if ws[n].initialize.None? then RunsOnce(ws, n + 1, history)
    else
      var history' := history + [Initialize(n)];
      (ws[n].initialize.value(history') == Returns(OBSERVED_ERROR) ==> Initializers(ws, n + 1) == []) &&
      RunsOnce(ws, n + 1, history')
  }

  /** The data stored for the results. */
  function DataOf(results: seq<Option<Data>>): (data: seq<Data>)
    ensures |data| == |results|
    ensures forall i | 0 <= i < |data| :: data[i] == if results[i].Some? then results[i].value else OBSERVED_ERROR
  {
    seq(|results|, i requires 0 <= i < |results| => if results[i].Some? then results[i].value else OBSERVED_ERROR)
  }

  lemma {:induction false} NothingToInitialize(ws: seq<Wrapper>, n: nat, data: seq<Data>, history: History)
    requires n <= |ws| && n <= |data| <= |ws| && Initializers(ws, n) == []
    ensures InitializeFrom(ws, n, data, history) == Ended(data[..n] + DataOf(Results(ws, n, history)), history, None)
    decreases |ws| - n
  {
    if n < |ws| {
      assert ws[n].initialize.None?;
      var data' := Stored(data, n, Null);
      NothingToInitialize(ws, n + 1, data', history);
      ConsData(Some(Null), Results(ws, n + 1, history));
      StoredFront(data, n, Null, DataOf(Results(ws, n + 1, history)));
    } else {
      assert data[..n] == data;
    }
  }

  lemma ConsData(first: Option<Data>, rest: seq<Option<Data>>)
    ensures DataOf([first] + rest) == [if first.Some? then first.value else OBSERVED_ERROR] + DataOf(rest)
    ensures None in [first] + rest <==> first.None? || None in rest
  {
  }

  lemma StoredFront(data: seq<Data>, n: nat, d: Data, rest: seq<Data>)
    requires n <= |data|
    ensures Stored(data, n, d)[..n + 1] + rest == data[..n] + ([d] + rest)
  {
    assert Stored(data, n, d)[..n + 1] == data[..n] + [d];
  }

  lemma Joined(a: History, b: History, c: History)
    ensures a + b + c == a + (b + c)
  {
  }

  /** The first error after one call, and among those that follow. */
  lemma FirstErrorAfter(ws: seq<Wrapper>, body: History -> Outcome<nat>, history: History, call: Call, after: History)
    requires history + [call] <= after
    ensures FirstError(ws, body, after, |history|) ==
      if Thrown(ws, body, history + [call]).Some? then Thrown(ws, body, history + [call])
      else FirstError(ws, body, after, |history| + 1)
  {
    assert after[..|history| + 1] == history + [call];
  }

  lemma {:induction false} InitializedOnce(ws: seq<Wrapper>, n: nat, data: seq<Data>, history: History)
    requires n <= |ws| && n <= |data| <= |ws| && RunsOnce(ws, n, history)
    ensures var r := InitializeFrom(ws, n, data, history);
      && r.history == history + Initializers(ws, n)
      && r.data == data[..n] + DataOf(Results(ws, n, history))
    decreases |ws| - n
  {
    if n == |ws| {
      assert data[..n] == data && history + [] == history;
    } else if ws[n].initialize.None? {
      InitializedOnce(ws, n + 1, Stored(data, n, Null), history);
      ConsData(Some(Null), Results(ws, n + 1, history));
      StoredFront(data, n, Null, DataOf(Results(ws, n + 1, history)));
    } else {
      var history' := history + [Initialize(n)];
      var outcome := ws[n].initialize.value(history');
      var d := if outcome.Returns? then outcome.value else OBSERVED_ERROR;
      var data' := Stored(data, n, d);
      InitializedOnce(ws, n + 1, data', history');
      if outcome == Returns(OBSERVED_ERROR) {
        NothingToInitialize(ws, n + 1, data', history');
        var again := InitializeFrom(ws, n + 1, data', history');
        NothingToInitialize(ws, n + 1, again.data, history');
        assert again.data[..n + 1] == data'[..n + 1];
      }
      ConsData(if outcome.Returns? then Some(outcome.value) else None, Results(ws, n + 1, history'));
      StoredFront(data, n, d, DataOf(Results(ws, n + 1, history')));
      Joined(history, [Initialize(n)], Initializers(ws, n + 1));
    }
  }

  /** The error is the first one thrown, and there is one exactly if some initialiser threw. */
  lemma {:induction false} InitializedError(ws: seq<Wrapper>, n: nat, data: seq<Data>, history: History,
                                            body: History -> Outcome<nat>)
    requires n <= |ws| && n <= |data| <= |ws| && RunsOnce(ws, n, history)
    ensures var r := InitializeFrom(ws, n, data, history);
      r.error == FirstError(ws, body, r.history, |history|) && (r.error.Some? <==> None in Results(ws, n, history))
    decreases |ws| - n
  {
    if n < |ws| {
      if ws[n].initialize.None? {
        InitializedError(ws, n + 1, Stored(data, n, Null), history, body);
      } else {
        var history' := history + [Initialize(n)];
        var outcome := ws[n].initialize.value(history');
        var data' := Stored(data, n, if outcome.Returns? then outcome.value else OBSERVED_ERROR);
        InitializedError(ws, n + 1, data', history', body);
        InitializedOnce(ws, n + 1, data', history');
        if outcome == Returns(OBSERVED_ERROR) {
          NothingToInitialize(ws, n + 1, data', history');
          var again := InitializeFrom(ws, n + 1, data', history');
          NothingToInitialize(ws, n + 1, again.data, again.history);
        }
        FirstErrorAfter(ws, body, history, Initialize(n), InitializeFrom(ws, n, data, history).history);
        assert Thrown(ws, body, history') == ErrorOf(outcome);
      }
    }
  }

  // ---------- closing ----------

  /** The close handlers of the wrappers whose data is not the sentinel. */
  function ClosersFor(ws: seq<Wrapper>, n: nat, data: seq<Data>): History
    requires n <= |ws| == |data|
    decreases |ws| - n
  {
    if n == |ws| then []
    else if ws[n].close.Some? && data[n] != OBSERVED_ERROR then [Close(n, data[n])] + ClosersFor(ws, n + 1, data)
    else ClosersFor(ws, n + 1, data)
  }

  lemma {:induction false} ClosedOnce(ws: seq<Wrapper>, n: nat, data: seq<Data>, history: History)
    requires n <= |ws| == |data|
    ensures CloseFrom(ws, n, data, history).history == history + ClosersFor(ws, n, data)
    decreases |ws| - n
  {
    if n == |ws| {
      assert history + [] == history;
    } else if data[n] == OBSERVED_ERROR || ws[n].close.None? {
      ClosedOnce(ws, n + 1, data, history);
    } else {
      ClosedOnce(ws, n + 1, data, history + [Close(n, data[n])]);
      Joined(history, [Close(n, data[n])], ClosersFor(ws, n + 1, data));
    }
  }

  /** The error is the first one thrown. */
  lemma {:induction false} ClosedError(ws: seq<Wrapper>, n: nat, data: seq<Data>, history: History,
                                       body: History -> Outcome<nat>)
    requires n <= |ws| == |data|
    ensures var r := CloseFrom(ws, n, data, history);
      r.error == FirstError(ws, body, r.history, |history|)
    decreases |ws| - n
  {
    if n < |ws| {
      if data[n] == OBSERVED_ERROR || ws[n].close.None? {
        ClosedError(ws, n + 1, data, history, body);
      } else {
        var history' := history + [Close(n, data[n])];
        ClosedError(ws, n + 1, data, history', body);
        ClosedOnce(ws, n + 1, data, history');
        FirstErrorAfter(ws, body, history, Close(n, data[n]), CloseFrom(ws, n, data, history).history);
        assert Thrown(ws, body, history') == ws[n].close.value(history');
      }
    }
  }

  /** No wrapper with a close handler has an initialiser that returned the sentinel. */
  predicate NoneDropped(ws: seq<Wrapper>, n: nat, results: seq<Option<Data>>)
    requires n <= |ws| == |results|
  {
    forall m | n <= m < |ws| :: results[m] == Some(OBSERVED_ERROR) ==> ws[m].close.None?
  }

  lemma {:induction false} ClosersAre(ws: seq<Wrapper>, n: nat, results: seq<Option<Data>>)
    requires n <= |ws| == |results|
    ensures |ClosersFor(ws, n, DataOf(results))| <= |Closers(ws, n, results)|
    ensures NoneDropped(ws, n, results) ==> ClosersFor(ws, n, DataOf(results)) == Closers(ws, n, results)
    ensures !NoneDropped(ws, n, results) ==> |ClosersFor(ws, n, DataOf(results))| < |Closers(ws, n, results)|
    decreases |ws| - n
  {
    if n < |ws| {
      ClosersAre(ws, n + 1, results);
      assert NoneDropped(ws, n, results) <==>
        NoneDropped(ws, n + 1, results) && (results[n] == Some(OBSERVED_ERROR) ==> ws[n].close.None?);
    }
  }

  // ---------- the whole transaction ----------

  /** No initialiser returns the sentinel where that matters. */
  predicate Honest(ws: seq<Wrapper>, history: History) {
    RunsOnce(ws, 0, history) && NoneDropped(ws, 0, Results(ws, 0, history))
  }

  /** How the transaction ends after the initialisers have been called, when all succeeded or one threw. */
  lemma RestIsDone(ws: seq<Wrapper>, body: History -> Outcome<nat>, begun: Ended, data: seq<Data>)
    requires |data| == |ws| && begun.data == data
    ensures var closers := ClosersFor(ws, 0, data);
      var r := Finished(ws, body, begun).0;
      && r.history == begun.history + (if begun.error.Some? then closers else [Body] + closers) && r.data == []
      && r.error == if begun.error.Some? then begun.error else FirstError(ws, body, r.history, |begun.history|)
  {
    var closers := ClosersFor(ws, 0, data);
    if begun.error.Some? {
      ClosedOnce(ws, 0, data, begun.history);
    } else {
      var history := begun.history + [Body];
      ClosedOnce(ws, 0, data, history);
      ClosedError(ws, 0, data, history, body);
      Joined(begun.history, [Body], closers);
      FirstErrorAfter(ws, body, begun.history, Body, history + closers);
    }
  }

  /**
   In a transaction each initialiser is called once, in order, whatever the others do; then the body, if all of
   them succeeded; then, once and in order, each close handler whose initialiser succeeded.  The error that
   escapes is the one thrown first.
   */
  lemma CallsAreMade(ws: seq<Wrapper>, body: History -> Outcome<nat>, history: History)
    requires Honest(ws, history)
    ensures var r := Performed(ws, body, history).0;
      && r.history == history + Calls(ws, history) && r.data == []
      && r.error == FirstError(ws, body, r.history, |history|)
  {
    var results := Results(ws, 0, history);
    var begun := InitializeFrom(ws, 0, [], history);
    var more := Remaining(ws, results);
    InitializedOnce(ws, 0, [], history);
    InitializedError(ws, 0, [], history, body);
    assert begun.data == DataOf(results);
    RemainingAreMade(ws, body, begun, results);
    Joined(history, Initializers(ws, 0), more);
    FirstErrorSplit(ws, body, begun.history, more, |history|);
  }

  lemma RemainingAreMade(ws: seq<Wrapper>, body: History -> Outcome<nat>, begun: Ended, results: seq<Option<Data>>)
    requires |results| == |ws| && begun.data == DataOf(results) && (begun.error.Some? <==> None in results)
    requires NoneDropped(ws, 0, results)
    ensures var r := Finished(ws, body, begun).0;
      && r.history == begun.history + Remaining(ws, results) && r.data == []
      && r.error == if begun.error.Some? then begun.error else FirstError(ws, body, r.history, |begun.history|)
  {
    ClosersAre(ws, 0, results);
    RestIsDone(ws, body, begun, DataOf(results));
  }

  // ---------- the value ----------

  /** Without an error the body has been called, and what it returned is the value. */
  lemma BodyIsCalled(ws: seq<Wrapper>, body: History -> Outcome<nat>, history: History)
    ensures var (r, value) := Performed(ws, body, history);
      r.error.None? ==>
        exists k | |history| <= k < |r.history| :: r.history[k] == Body && body(r.history[..k + 1]) == Returns(value)
  {
    var begun := InitializeFrom(ws, 0, [], history);
    InitializingGoesOn(ws, 0, [], history);
    if begun.error.None? {
      var called := begun.history + [Body];
      var r := Performed(ws, body, history).0.history;
      ClosedOnce(ws, 0, begun.data, called);
      assert called == r[..|called|] && r[|called| - 1] == Body;
    }
  }

  lemma {:induction false} InitializingGoesOn(ws: seq<Wrapper>, n: nat, data: seq<Data>, history: History)
    requires n <= |ws| && n <= |data|
    ensures history <= InitializeFrom(ws, n, data, history).history
    decreases |ws| - n
  {
    if n < |ws| {
      if ws[n].initialize.None? {
        InitializingGoesOn(ws, n + 1, Stored(data, n, Null), history);
      } else {
        var history' := history + [Initialize(n)];
        var outcome := ws[n].initialize.value(history');
        var data' := Stored(data, n, if outcome.Returns? then outcome.value else OBSERVED_ERROR);
        InitializingGoesOn(ws, n + 1, data', history');
        if outcome == Returns(OBSERVED_ERROR) {
          var again := InitializeFrom(ws, n + 1, data', history');
          InitializingGoesOn(ws, n + 1, again.data, again.history);
        }
      }
    }
  }

  /** With honest wrappers the body is called right behind the initialisers, each called once. */
  lemma ValueIsOfBody(ws: seq<Wrapper>, body: History -> Outcome<nat>, history: History)
    requires Honest(ws, history)
    ensures var (r, value) := Performed(ws, body, history);
      r.error.None? ==> body(history + Initializers(ws, 0) + [Body]) == Returns(value)
  {
    InitializedOnce(ws, 0, [], history);
  }

  // ---------- when a sentinel is returned ----------

  /** Further calls of initialisers. */
  predicate OnlyInitializers(before: History, after: History) {
    before <= after && forall i | |before| <= i < |after| :: after[i].Initialize?
  }

  /** The initialisers from the n-th wrapper on are all called, and with a sentinel that matters more often. */
  predicate AllCalled(ws: seq<Wrapper>, n: nat, data: seq<Data>, history: History)
    requires n <= |ws| && n <= |data|
  {
    var r := InitializeFrom(ws, n, data, history).history;
    && OnlyInitializers(history, r)
    && |r| >= |history| + |Initializers(ws, n)|
    && (!RunsOnce(ws, n, history) ==> |r| > |history| + |Initializers(ws, n)|)
  }

  lemma OneMoreCall(history: History, n: nat, after: History)
    requires OnlyInitializers(history + [Initialize(n)], after)
    ensures OnlyInitializers(history, after)
  {
    var history' := history + [Initialize(n)];
    assert forall i | 0 <= i < |history'| :: after[i] == history'[i];
  }

  lemma CalledOnce(ws: seq<Wrapper>, n: nat, data: seq<Data>, history: History, history': History, data': seq<Data>)
    requires n < |ws| && n <= |data| && ws[n].initialize.Some? && history' == history + [Initialize(n)]
    requires var outcome := ws[n].initialize.value(history');
      && outcome != Returns(OBSERVED_ERROR)
      && data' == Stored(data, n, if outcome.Returns? then outcome.value else OBSERVED_ERROR)
    requires AllCalled(ws, n + 1, data', history')
    ensures AllCalled(ws, n, data, history)
  {
    OneMoreCall(history, n, InitializeFrom(ws, n + 1, data', history').history);
  }

  lemma CalledTwice(ws: seq<Wrapper>, n: nat, data: seq<Data>, history: History, history': History, data': seq<Data>)
    requires n < |ws| && n <= |data| && ws[n].initialize.Some? && history' == history + [Initialize(n)]
    requires ws[n].initialize.value(history') == Returns(OBSERVED_ERROR) && data' == Stored(data, n, OBSERVED_ERROR)
    requires AllCalled(ws, n + 1, data', history')
    requires var again := InitializeFrom(ws, n + 1, data', history');
      AllCalled(ws, n + 1, again.data, again.history)
    ensures AllCalled(ws, n, data, history)
  {
    var again := InitializeFrom(ws, n + 1, data', history');
    var r := InitializeFrom(ws, n + 1, again.data, again.history).history;
    OneMoreCall(history, n, again.history);
    assert forall i | 0 <= i < |again.history| :: r[i] == again.history[i];
  }

  /** With a sentinel from an initialiser that returns, those behind it are called again. */
  lemma {:induction false} CalledAgain(ws: seq<Wrapper>, n: nat, data: seq<Data>, history: History)
    requires n <= |ws| && n <= |data| <= |ws|
    ensures AllCalled(ws, n, data, history)
    decreases |ws| - n
  {
    if n < |ws| {
      if ws[n].initialize.None? {
        CalledAgain(ws, n + 1, Stored(data, n, Null), history);
      } else {
        var history' := history + [Initialize(n)];
        var outcome := ws[n].initialize.value(history');
        var data' := Stored(data, n, if outcome.Returns? then outcome.value else OBSERVED_ERROR);
        CalledAgain(ws, n + 1, data', history');
        if outcome == Returns(OBSERVED_ERROR) {
          var again := InitializeFrom(ws, n + 1, data', history');
          CalledAgain(ws, n + 1, again.data, again.history);
          CalledTwice(ws, n, data, history, history', data');
        } else {
          CalledOnce(ws, n, data, history, history', data');
        }
      }
    }
  }

  /** After initialisers called again, there are more of them than expected. */
  lemma MoreThanExpected(history: History, inits: History, more: History, begun: History, after: History)
    requires OnlyInitializers(history, begun) && |begun| > |history| + |inits| && begun <= after
    requires forall c <- more :: !c.Initialize?
    ensures after != history + (inits + more)
  {
    var k, expected := |history| + |inits|, history + (inits + more);
    assert after[k] == begun[k];
    if k < |expected| {
      assert expected[k] == more[0] && more[0] in more;
    }
  }

  /** If a sentinel is returned where it matters, the calls are not those expected. */
  lemma DishonestCalls(ws: seq<Wrapper>, body: History -> Outcome<nat>, history: History)
    requires !Honest(ws, history)
    ensures Performed(ws, body, history).0.history != history + Calls(ws, history)
  {
    var results := Results(ws, 0, history);
    var begun := InitializeFrom(ws, 0, [], history);
    RestIsDone(ws, body, begun, begun.data);
    if RunsOnce(ws, 0, history) {
      InitializedOnce(ws, 0, [], history);
      InitializedError(ws, 0, [], history, body);
      assert begun.data == DataOf(results);
      ClosersAre(ws, 0, results);
    } else {
      CalledAgain(ws, 0, [], history);
      ClosersOnlyClose(ws, 0, results);
      MoreThanExpected(history, Initializers(ws, 0), Remaining(ws, results), begun.history,
        Performed(ws, body, history).0.history);
    }
  }

  /** The calls are made as they should be exactly if no initialiser returns the sentinel where that matters. */
  lemma CallsAreMadeExactlyIfHonest(ws: seq<Wrapper>, body: History -> Outcome<nat>, history: History)
    ensures Performed(ws, body, history).0.history == history + Calls(ws, history) <==> Honest(ws, history)
  {
    if Honest(ws, history) {
      CallsAreMade(ws, body, history);
    } else {
      DishonestCalls(ws, body, history);
    }
  }

  /** An initialiser that returns the sentinel, one that does not, and no close handler but the first's. */
  function SentinelWrappers(): seq<Wrapper> {
    [Wrapper(Some((h: History) => Returns(OBSERVED_ERROR)), Some((h: History) => None)),
     Wrapper(Some((h: History) => Returns(Plain(7))), None)]
  }

  /** Nothing throws, yet the second initialiser is called twice and the first wrapper is not closed. */
  lemma SentinelIsTakenForError(body: History -> Outcome<nat>)
    ensures var r := Performed(SentinelWrappers(), body, []).0;
      r.history == [Initialize(0), Initialize(1), Initialize(1), Body]
    ensures Calls(SentinelWrappers(), []) == [Initialize(0), Initialize(1), Body, Close(0, OBSERVED_ERROR)]
  {
    var ws := SentinelWrappers();
    var h1, h2: History := [Initialize(0)], [Initialize(0), Initialize(1)];
    var h3: History := [Initialize(0), Initialize(1), Initialize(1)];
    assert [] + [Initialize(0)] == h1 && h1 + [Initialize(1)] == h2 && h2 + [Initialize(1)] == h3;
    var once := Ended([OBSERVED_ERROR, Plain(7)], h2, None);
    var twice := once.(history := h3);
    assert InitializeFrom(ws, 2, once.data, h2) == once;
    assert InitializeFrom(ws, 1, [OBSERVED_ERROR], h1) == once;
    assert InitializeFrom(ws, 2, once.data, h3) == twice;
    assert InitializeFrom(ws, 1, once.data, h2) == twice;
    assert InitializeFrom(ws, 0, [], []) == twice;
    SentinelIsNotClosed(h3 + [Body]);
    SentinelCalls();
  }

  lemma SentinelIsNotClosed(history: History)
    ensures CloseFrom(SentinelWrappers(), 0, [OBSERVED_ERROR, Plain(7)], history).history == history
  {
    assert CloseFrom(SentinelWrappers(), 1, [OBSERVED_ERROR, Plain(7)], history) ==
      CloseFrom(SentinelWrappers(), 2, [OBSERVED_ERROR, Plain(7)], history);
  }

  lemma SentinelCalls()
    ensures Calls(SentinelWrappers(), []) == [Initialize(0), Initialize(1), Body, Close(0, OBSERVED_ERROR)]
  {
    var ws, h1 := SentinelWrappers(), [Initialize(0)];
    assert [] + [Initialize(0)] == h1;
    assert Results(ws, 2, h1 + [Initialize(1)]) == [];
    assert Results(ws, 1, h1) == [Some(Plain(7))];
    var results := Results(ws, 0, []);
    assert results == [Some(OBSERVED_ERROR), Some(Plain(7))];
    assert Initializers(ws, 1) == [Initialize(1)] + Initializers(ws, 2);
    assert Closers(ws, 1, results) == Closers(ws, 2, results) == [];
  }
}

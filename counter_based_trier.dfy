/** The one retry strategy: make up to n attempts, pausing a fixed interval
    between two attempts, and give up with LimitExceededException. */
module CounterBased {
  import opened Base
  import opened Throwables
  import opened TrierConfig
  import opened Sleepers
  import opened AttemptLoop

  const DEFAULT_SLEEP_TIMEOUT: int64 := 500

  /** A counter-based retrier. Its configuration slots are those of its
      Trier part, `trier`; R is the type of the results the shapes with a
      result produce. */
  class CounterBasedTrier<R(!new)> {
    const trier: Trier<R>
    const sleeper: Sleeper
    const n: int32
    const interval: int64

    /** `CounterBasedTrier(n)`: the default sleeper and interval. */
    constructor (n: int32)
      ensures this.n == n && interval == DEFAULT_SLEEP_TIMEOUT
      ensures fresh(trier) && trier.ignoredExceptions == null && trier.ignoredResult == None
      ensures fresh(sleeper) && sleeper.log == [] && forall k :: sleeper.script(k) == None
    {
      this.n := n;
      trier := new Trier<R>();
      sleeper := new Sleeper.Uninterrupted();
      interval := DEFAULT_SLEEP_TIMEOUT;
    }

    /** `CounterBasedTrier(n, interval)`: the default sleeper. */
    constructor WithInterval(n: int32, interval: int64)
      ensures this.n == n && this.interval == interval
      ensures fresh(trier) && trier.ignoredExceptions == null && trier.ignoredResult == None
      ensures fresh(sleeper) && sleeper.log == [] && forall k :: sleeper.script(k) == None
    {
      this.n := n;
      trier := new Trier<R>();
      sleeper := new Sleeper.Uninterrupted();
      this.interval := interval;
    }

    /** `CounterBasedTrier(n, sleeper, interval)`. */
    constructor WithSleeper(n: int32, sleeper: Sleeper, interval: int64)
      ensures this.n == n && this.sleeper == sleeper && this.interval == interval
      ensures fresh(trier) && trier.ignoredExceptions == null && trier.ignoredResult == None
    {
      this.n := n;
      trier := new Trier<R>();
      this.sleeper := sleeper;
      this.interval := interval;
    }

    /** `times(n)`. */
    static method Times(n: int32) returns (t: CounterBasedTrier<R>)
      ensures fresh(t) && fresh(t.trier) && fresh(t.sleeper)
      ensures t.n == n && t.interval == DEFAULT_SLEEP_TIMEOUT
      ensures t.trier.ignoredExceptions == null && t.trier.ignoredResult == None
      ensures t.sleeper.log == [] && forall k :: t.sleeper.script(k) == None
    {
      t := new CounterBasedTrier<R>(n);
    }

    /** What a call with the given result slot and action depends on, when the
        sleeper had been called `base` times before it. */
    ghost function Setup<V>(results: Option<V -> bool>, action: nat -> Attempt<V>, base: nat): (inv: Invocation<V>)
      reads trier, trier.ignoredExceptions
    {
      Invocation(trier.IgnoredClasses(), results, n as int, interval as int, action,
                 (j: nat) => sleeper.script(base + j))
    }

    /** `tryTo(Runnable)`: run the action until it returns normally. Its
        j-th outcome in this call is `run(j)`. */
    method TryToRun(run: nat -> Attempt<()>) returns (c: Completion<()>, ghost attempts: nat)
      modifies sleeper`log
      ensures var r := RetryFrom(old(Setup(None, run, |sleeper.log|)), 0, None);
        c == r.completion && attempts == r.attempts && sleeper.log == old(sleeper.log) + Repeat(interval as int, r.pauses)
    {
      ghost var base := |sleeper.log|;
      ghost var inv := Setup(None, run, base);
      ghost var whole := RetryFrom(inv, 0, None);
      ReachedStart(inv);
      var lastException: Option<Throwable> := None;
      ghost var naps: nat := 0;
      var i: int32 := 0;
      while i < n
        invariant 0 <= i && (n > 0 ==> i <= n)
        invariant inv.classes == trier.IgnoredClasses()
        invariant i < n ==> naps == i as nat
        invariant sleeper.log == old(sleeper.log) + Repeat(interval as int, naps)
        invariant Reached(whole, inv, i as nat, lastException, naps)
        decreases n - i
      {
        ghost var last := lastException;
        var outcome := run(i as nat);
        if outcome.Ok? {
          ReachedAccepted(whole, inv, i as nat, last, naps);
          c, attempts := Returned(outcome.value), i as nat + 1;
          return;
        }
        var ignored := trier.IsExceptionIgnored(outcome.thrown);
        if !ignored {
          ReachedFatal(whole, inv, i as nat, last, naps);
          c, attempts := Rethrown(outcome.thrown), i as nat + 1;
          return;
        }
        lastException := Some(outcome.thrown);
        if i < n - 1 {
          assert |sleeper.log| == base + i as nat;
          var interrupt := sleeper.Sleep(interval);
          assert interrupt == inv.wake(i as nat);
          if interrupt.Some? {
            ReachedInterrupted(whole, inv, i as nat, last, naps);
            c, attempts := Rethrown(interrupt.value), i as nat + 1;
            return;
          }
        }
        assert lastException == Latest(inv.action(i as nat), last);
        ReachedNext(whole, inv, i as nat, last, naps);
        if i < n - 1 {
          LogGrows(old(sleeper.log), interval as int, naps);
          naps := naps + 1;
        }
        i := i + 1;
      }
      ReachedEnd(whole, inv, i as nat, lastException, naps);
      c, attempts := LimitExceeded(n as int, lastException), i as nat;
    }

    /** `tryTo(Supplier)`: call the producer until it returns a result the
        result predicate does not reject. Its j-th outcome in this call is
        `get(j)`. */
    method TryToGet(get: nat -> Attempt<R>) returns (c: Completion<R>, ghost attempts: nat)
      modifies sleeper`log
      ensures var r := RetryFrom(old(Setup(trier.ignoredResult, get, |sleeper.log|)), 0, None);
        c == r.completion && attempts == r.attempts && sleeper.log == old(sleeper.log) + Repeat(interval as int, r.pauses)
    {
      ghost var base := |sleeper.log|;
      ghost var inv := Setup(trier.ignoredResult, get, base);
      ghost var whole := RetryFrom(inv, 0, None);
      ReachedStart(inv);
      var lastException: Option<Throwable> := None;
      ghost var naps: nat := 0;
      var i: int32 := 0;
      while i < n
        invariant 0 <= i && (n > 0 ==> i <= n)
        invariant inv.classes == trier.IgnoredClasses() && inv.results == trier.ignoredResult
        invariant i < n ==> naps == i as nat
        invariant sleeper.log == old(sleeper.log) + Repeat(interval as int, naps)
        invariant Reached(whole, inv, i as nat, lastException, naps)
        decreases n - i
      {
        ghost var last := lastException;
        var outcome := get(i as nat);
        if outcome.Ok? {
          if !trier.IsResultIgnored(outcome.value) {
            ReachedAccepted(whole, inv, i as nat, last, naps);
            c, attempts := Returned(outcome.value), i as nat + 1;
            return;
          }
        } else {
          var ignored := trier.IsExceptionIgnored(outcome.thrown);
          if !ignored {
            ReachedFatal(whole, inv, i as nat, last, naps);
            c, attempts := Rethrown(outcome.thrown), i as nat + 1;
            return;
          }
          lastException := Some(outcome.thrown);
        }
        if i < n - 1 {
          assert |sleeper.log| == base + i as nat;
          var interrupt := sleeper.Sleep(interval);
          assert interrupt == inv.wake(i as nat);
          if interrupt.Some? {
            ReachedInterrupted(whole, inv, i as nat, last, naps);
            c, attempts := Rethrown(interrupt.value), i as nat + 1;
            return;
          }
        }
        assert lastException == Latest(inv.action(i as nat), last);
        ReachedNext(whole, inv, i as nat, last, naps);
        if i < n - 1 {
          LogGrows(old(sleeper.log), interval as int, naps);
          naps := naps + 1;
        }
        i := i + 1;
      }
      ReachedEnd(whole, inv, i as nat, lastException, naps);
      c, attempts := LimitExceeded(n as int, lastException), i as nat;
    }

    /** `tryTo(Consumer, par)`: the loop of `tryTo(Runnable)` with the action
        that hands `par` to the consumer; its j-th outcome is `accept(par, j)`. */
    method TryToAccept<P>(accept: (P, nat) -> Attempt<()>, par: P) returns (c: Completion<()>, ghost attempts: nat)
      modifies sleeper`log
      ensures var r := RetryFrom(old(Setup(None, (j: nat) => accept(par, j), |sleeper.log|)), 0, None);
        c == r.completion && attempts == r.attempts && sleeper.log == old(sleeper.log) + Repeat(interval as int, r.pauses)
    {
      c, attempts := TryToRun((j: nat) => accept(par, j));
    }

    /** `tryTo(Function, par)`: the loop of `tryTo(Supplier)` with the
        producer that applies the function to `par`; its j-th outcome is
        `apply(par, j)`. */
    method TryToApply<P>(apply: (P, nat) -> Attempt<R>, par: P) returns (c: Completion<R>, ghost attempts: nat)
      modifies sleeper`log
      ensures var r := RetryFrom(old(Setup(trier.ignoredResult, (j: nat) => apply(par, j), |sleeper.log|)), 0, None);
        c == r.completion && attempts == r.attempts && sleeper.log == old(sleeper.log) + Repeat(interval as int, r.pauses)
    {
      c, attempts := TryToGet((j: nat) => apply(par, j));
    }
  }

  /** A client that tolerates a network error class: a limit of 3 and a pause
      of 10, an action that fails twice with that class and then returns v.
      The call returns v, after three attempts and two pauses of 10. */
  method NetworkRecovers(network: ClassName, v: int) returns (c: Completion<int>, log: seq<int>)
    ensures c == Returned(v) && log == [10, 10]
  {
    var t := new CounterBasedTrier<int>.WithInterval(3, 10);
    var classes := new ClassName[1] [network];
    assert classes[..] == [network];
    var _ := t.trier.IgnoringExceptions(classes);
    var action := (j: nat) => if j < 2 then Throw(Throwable(network, j)) else Ok(v);
    ghost var inv := t.Setup(t.trier.ignoredResult, action, 0);
    assert t.trier.IgnoredClasses() == Some([network]);
    NetworkErrorScenario(inv, network, v);
    ghost var attempts;
    c, attempts := t.TryToGet(action);
    assert Repeat(10, 2) == [10, 10];
    log := t.sleeper.log;
  }

  /** A client whose sleeper is interrupted during the first pause: although
      every throwable is tolerated, the interruption ends the call after one
      attempt, and no further attempt is made. */
  method InterruptionEndsTheCall(x: Throwable) returns (c: Completion<()>, log: seq<int>)
    ensures c == Rethrown(x) && log == [DEFAULT_SLEEP_TIMEOUT as int]
  {
    var sleeper := new Sleeper(k => if k == 0 then Some(x) else None);
    var t := new CounterBasedTrier<()>.WithSleeper(5, sleeper, DEFAULT_SLEEP_TIMEOUT);
    var classes := new ClassName[1] [THROWABLE];
    var _ := t.trier.IgnoringExceptions(classes);
    var broken := Throwable(RUNTIME_EXCEPTION, 0);
    ghost var attempts;
    c, attempts := t.TryToRun(_ => Throw(broken));
    log := sleeper.log;
  }
}

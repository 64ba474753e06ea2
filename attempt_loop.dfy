/** What one call of a counter-based retrier does, as a function of its
    configuration and of what its collaborators do: the action's outcome on
    each attempt, and the sleeper's behaviour after each attempt. The four
    `tryTo` shapes share this one skeleton; the shapes without a result run it
    with no result predicate. */
module AttemptLoop {
  import opened Base
  import opened Throwables
  import opened TrierConfig

  /** One invocation of the action: it returns a value (`()` for the shapes
      without a result) or throws. */
  datatype Attempt<V> = Ok(value: V) | Throw(thrown: Throwable)

  /** How a call ends: it returns an accepted value, lets a throwable out
      unchanged, or throws LimitExceededException carrying the attempt limit
      and the cause (null when no attempt threw). */
  datatype Completion<V> =
    | Returned(value: V)
    | Rethrown(thrown: Throwable)
    | LimitExceeded(limit: int, cause: Option<Throwable>)

  /** A whole call: how it ends, how many times the action ran, and how many
      times it paused (each pause is for the configured interval). */
  datatype Run<V> = Run(completion: Completion<V>, attempts: nat, pauses: nat)

  /** Everything one call depends on. */
  datatype Invocation<!V> = Invocation(
    classes: Option<seq<ClassName>>,  // the tolerated classes (null: none)
    results: Option<V -> bool>,       // the result predicate (None for the shapes without a result)
    n: int,                           // the attempt limit
    interval: int,                    // the pause between attempts
    action: nat -> Attempt<V>,        // the action's outcome on attempt j, counting from 0
    wake: nat -> Option<Throwable>)   // what the pause after attempt j does: return, or throw
  {
    /** Attempt j ends in a way that leads to another attempt: a rejected
        result or a tolerated throwable. */
    predicate Retryable(j: nat) {
      match action(j)
      case Ok(v) => ResultIgnoredBy(results, v)
      case Throw(t) => ExceptionIgnoredBy(classes, t)
    }
  }

  /** The cause to report once attempt o is over, when `last` was the cause
      before it: a throwable replaces the cause, a result leaves it. */
  function Latest<V>(o: Attempt<V>, last: Option<Throwable>): (cause: Option<Throwable>) {
    if o.Throw? then Some(o.thrown) else last
  }

  /** k copies of x. */
  function Repeat(x: int, k: nat): (s: seq<int>)
    ensures |s| == k && forall j :: 0 <= j < |s| ==> s[j] == x
  {
    if k == 0 then [] else Repeat(x, k - 1) + [x]
  }

  /** A log holding k copies of x after `before` holds k + 1 copies once x
      is appended. */
  lemma LogGrows(before: seq<int>, x: int, k: nat)
    ensures before + Repeat(x, k) + [x] == before + Repeat(x, k + 1)
  {
  }

  /** The run r, preceded by m attempts and p pauses. */
  function Delayed<V>(r: Run<V>, m: nat, p: nat): (d: Run<V>) {
    Run(r.completion, m + r.attempts, p + r.pauses)
  }

  /** How attempt i turns out, with `last` the cause so far: the call stops
      with a completion, or goes on to the next attempt with a new cause.
      Either way `pauses` says how many pauses follow the attempt. */
  datatype Step<V> =
    | Stop(completion: Completion<V>, pauses: nat)
    | Continue(pauses: nat, cause: Option<Throwable>)

  /** One pass of the loop body. The pause comes only between two attempts,
      and it is outside the filter: a throwable from it always ends the call. */
  function StepAt<V>(inv: Invocation<V>, i: nat, last: Option<Throwable>): (step: Step<V>) {
    var o := inv.action(i);
    if o.Ok? && !ResultIgnoredBy(inv.results, o.value) then Stop(Returned(o.value), 0)
    else if o.Throw? && !ExceptionIgnoredBy(inv.classes, o.thrown) then Stop(Rethrown(o.thrown), 0)
    else if i < inv.n - 1 && inv.wake(i).Some? then Stop(Rethrown(inv.wake(i).value), 1)
    else Continue(if i < inv.n - 1 then 1 else 0, Latest(o, last))
  }

  /** Attempt i leads on to attempt i + 1 exactly when it is retryable and
      the pause after it (if there is one) returns normally; at most one
      pause follows an attempt, and none follows the last possible one. */
  lemma StepAtMeaning<V>(inv: Invocation<V>, i: nat, last: Option<Throwable>)
    ensures var step := StepAt(inv, i, last);
      && (step.Continue? <==> inv.Retryable(i) && (i < inv.n - 1 ==> inv.wake(i) == None))
      && step.pauses <= 1 && (step.pauses == 1 ==> i < inv.n - 1)
  {
  }

  /** The attempt loop from attempt i on, with `last` the last tolerated
      throwable so far. */
  function RetryFrom<V>(inv: Invocation<V>, i: nat, last: Option<Throwable>): (r: Run<V>)
    decreases inv.n - i
  {
    if i >= inv.n then Run(LimitExceeded(inv.n, last), 0, 0)
    else match StepAt(inv, i, last)
      case Stop(c, pauses) => Run(c, 1, pauses)
      case Continue(pauses, cause) => Delayed(RetryFrom(inv, i + 1, cause), 1, pauses)
  }

  /** At most n - i attempts are made from attempt i on, and at most one
      pause after each of them but the last possible one. */
  lemma {:induction false} RunBounds<V>(inv: Invocation<V>, i: nat, last: Option<Throwable>)
    ensures var r := RetryFrom(inv, i, last);
      && r.attempts <= (if i < inv.n then inv.n - i else 0)
      && r.pauses <= r.attempts
      && r.pauses <= (if i < inv.n - 1 then inv.n - 1 - i else 0)
    decreases inv.n - i
  {
    if i < inv.n && StepAt(inv, i, last).Continue? {
      RunBounds(inv, i + 1, StepAt(inv, i, last).cause);
    }
  }

  /** The run `whole` has got as far as attempt i: i attempts and `naps`
      pauses are behind it, and `last` is the cause so far. This is the
      invariant of the loop that carries out the run. */
  ghost predicate Reached<V>(whole: Run<V>, inv: Invocation<V>, i: nat, last: Option<Throwable>, naps: nat) {
    whole == Delayed(RetryFrom(inv, i, last), i, naps)
  }

  lemma ReachedStart<V>(inv: Invocation<V>)
    ensures Reached(RetryFrom(inv, 0, None), inv, 0, None, 0)
  {
  }

  /** An accepted value ends the run. */
  lemma ReachedAccepted<V>(whole: Run<V>, inv: Invocation<V>, i: nat, last: Option<Throwable>, naps: nat)
    requires Reached(whole, inv, i, last, naps)
    requires i < inv.n && inv.action(i).Ok? && !ResultIgnoredBy(inv.results, inv.action(i).value)
    ensures whole == Run(Returned(inv.action(i).value), i + 1, naps)
  {
  }

  /** A throwable that is not tolerated ends the run. */
  lemma ReachedFatal<V>(whole: Run<V>, inv: Invocation<V>, i: nat, last: Option<Throwable>, naps: nat)
    requires Reached(whole, inv, i, last, naps)
    requires i < inv.n && inv.action(i).Throw? && !ExceptionIgnoredBy(inv.classes, inv.action(i).thrown)
    ensures whole == Run(Rethrown(inv.action(i).thrown), i + 1, naps)
  {
  }

  /** A pause that throws ends the run. */
  lemma ReachedInterrupted<V>(whole: Run<V>, inv: Invocation<V>, i: nat, last: Option<Throwable>, naps: nat)
    requires Reached(whole, inv, i, last, naps)
    requires i < inv.n - 1 && inv.Retryable(i) && inv.wake(i).Some?
    ensures whole == Run(Rethrown(inv.wake(i).value), i + 1, naps + 1)
  {
  }

  /** An attempt that leads to a retry, and the pause after it when there is
      one, move the run on to the next attempt. */
  lemma ReachedNext<V>(whole: Run<V>, inv: Invocation<V>, i: nat, last: Option<Throwable>, naps: nat)
    requires Reached(whole, inv, i, last, naps)
    requires i < inv.n && inv.Retryable(i) && (i < inv.n - 1 ==> inv.wake(i) == None)
    ensures Reached(whole, inv, i + 1, Latest(inv.action(i), last), if i < inv.n - 1 then naps + 1 else naps)
  {
  }

  /** Once the attempts are used up the run throws LimitExceededException. */
  lemma ReachedEnd<V>(whole: Run<V>, inv: Invocation<V>, i: nat, last: Option<Throwable>, naps: nat)
    requires Reached(whole, inv, i, last, naps)
    requires i >= inv.n
    ensures whole == Run(LimitExceeded(inv.n, last), i, naps)
  {
  }

  /** The last throwable among the outcomes of attempts k to i - 1, or
      `last` if none of them threw. */
  function LastThrownIn<V>(action: nat -> Attempt<V>, k: nat, i: nat, last: Option<Throwable>): (cause: Option<Throwable>)
    decreases i
  {
    if i <= k then last
    else if action(i - 1).Throw? then Some(action(i - 1).thrown)
    else LastThrownIn(action, k, i - 1, last)
  }

  /** LastThrownIn is `last` exactly when no attempt in the range threw, and
      otherwise the throwable of an attempt after which none threw. */
  lemma {:induction false} LastThrownInMeaning<V>(action: nat -> Attempt<V>, k: nat, i: nat, last: Option<Throwable>)
    ensures (forall j :: k <= j < i ==> action(j).Ok?) ==> LastThrownIn(action, k, i, last) == last
    ensures (exists j :: k <= j < i && action(j).Throw?) ==>
      exists j :: k <= j < i && action(j).Throw? && LastThrownIn(action, k, i, last) == Some(action(j).thrown) &&
        forall j' :: j < j' < i ==> action(j').Ok?
    decreases i
  {
    if i > k && action(i - 1).Ok? {
      LastThrownInMeaning(action, k, i - 1, last);
      if exists j :: k <= j < i && action(j).Throw? {
        var j :| k <= j < i && action(j).Throw?;
        assert j < i - 1;
      }
    }
  }

  /** Taking the reported cause one attempt further up front does not change
      it. */
  lemma {:induction false} LastThrownInShift<V>(action: nat -> Attempt<V>, k: nat, i: nat, last: Option<Throwable>)
    requires k < i
    ensures LastThrownIn(action, k + 1, i, Latest(action(k), last)) == LastThrownIn(action, k, i, last)
    decreases i
  {
    if i - 1 > k && action(i - 1).Ok? {
      LastThrownInShift(action, k, i - 1, last);
    }
  }

  /** Attempts that all lead to another attempt can be skipped: the call
      runs on from attempt i with i attempts and i pauses behind it, and the
      last throwable among them as the cause so far. */
  lemma {:induction false} SkipRetryable<V>(inv: Invocation<V>, i: nat)
    requires i < inv.n
    requires forall j :: 0 <= j < i ==> inv.Retryable(j) && inv.wake(j) == None
    ensures Reached(RetryFrom(inv, 0, None), inv, i, LastThrownIn(inv.action, 0, i, None), i)
  {
    if i == 0 {
      ReachedStart(inv);
    } else {
      SkipRetryable(inv, i - 1);
      assert inv.Retryable(i - 1) && inv.wake(i - 1) == None;
      ReachedNext(RetryFrom(inv, 0, None), inv, i - 1, LastThrownIn(inv.action, 0, i - 1, None), i - 1);
    }
  }

  /** Attempt i succeeds after i attempts that led to retries: its value is
      returned after exactly i pauses. */
  lemma SucceedsAt<V>(inv: Invocation<V>, i: nat, v: V)
    requires i < inv.n
    requires forall j :: 0 <= j < i ==> inv.Retryable(j) && inv.wake(j) == None
    requires inv.action(i) == Ok(v) && !ResultIgnoredBy(inv.results, v)
    ensures RetryFrom(inv, 0, None) == Run(Returned(v), i + 1, i)
  {
    SkipRetryable(inv, i);
    ReachedAccepted(RetryFrom(inv, 0, None), inv, i, LastThrownIn(inv.action, 0, i, None), i);
  }

  /** A throwable that is not tolerated ends the call at once, unchanged:
      no further attempt, no further pause. */
  lemma FatalAt<V>(inv: Invocation<V>, i: nat, t: Throwable)
    requires i < inv.n
    requires forall j :: 0 <= j < i ==> inv.Retryable(j) && inv.wake(j) == None
    requires inv.action(i) == Throw(t) && !ExceptionIgnoredBy(inv.classes, t)
    ensures RetryFrom(inv, 0, None) == Run(Rethrown(t), i + 1, i)
  {
    SkipRetryable(inv, i);
    ReachedFatal(RetryFrom(inv, 0, None), inv, i, LastThrownIn(inv.action, 0, i, None), i);
  }

  /** A pause that throws ends the call with that throwable, whether or not
      its class is tolerated. */
  lemma InterruptedAfter<V>(inv: Invocation<V>, i: nat, x: Throwable)
    requires i < inv.n - 1
    requires forall j :: 0 <= j < i ==> inv.Retryable(j) && inv.wake(j) == None
    requires inv.Retryable(i) && inv.wake(i) == Some(x)
    ensures RetryFrom(inv, 0, None) == Run(Rethrown(x), i + 1, i + 1)
  {
    SkipRetryable(inv, i);
    ReachedInterrupted(RetryFrom(inv, 0, None), inv, i, LastThrownIn(inv.action, 0, i, None), i);
  }

  /** When every attempt leads to a retry, the action runs n times with n - 1
      pauses, and the call throws LimitExceededException whose cause is the
      last throwable any attempt threw. */
  lemma Exhausted<V>(inv: Invocation<V>)
    requires inv.n >= 1
    requires forall j :: 0 <= j < inv.n ==> inv.Retryable(j)
    requires forall j :: 0 <= j < inv.n - 1 ==> inv.wake(j) == None
    ensures RetryFrom(inv, 0, None) ==
      Run(LimitExceeded(inv.n, LastThrownIn(inv.action, 0, inv.n, None)), inv.n, inv.n - 1)
  {
    SkipRetryable(inv, inv.n - 1);
    var last := LastThrownIn(inv.action, 0, inv.n - 1, None);
    assert inv.Retryable(inv.n - 1);
    ReachedNext(RetryFrom(inv, 0, None), inv, inv.n - 1, last, inv.n - 1);
    ReachedEnd(RetryFrom(inv, 0, None), inv, inv.n, LastThrownIn(inv.action, 0, inv.n, None), inv.n - 1);
  }

  /** A producer whose every result is rejected exhausts the limit with no
      cause: rejected results are never reported as the cause. */
  lemma RejectedResultsLeaveNoCause<V>(inv: Invocation<V>)
    requires inv.n >= 1
    requires forall j :: 0 <= j < inv.n ==> inv.action(j).Ok? && ResultIgnoredBy(inv.results, inv.action(j).value)
    requires forall j :: 0 <= j < inv.n - 1 ==> inv.wake(j) == None
    ensures RetryFrom(inv, 0, None) == Run(LimitExceeded(inv.n, None), inv.n, inv.n - 1)
  {
    Exhausted(inv);
    LastThrownInMeaning(inv.action, 0, inv.n, None);
  }

  /** With a limit of zero or less the action never runs. */
  lemma NoAttempts<V>(inv: Invocation<V>)
    requires inv.n <= 0
    ensures RetryFrom(inv, 0, None) == Run(LimitExceeded(inv.n, None), 0, 0)
  {
  }

  /** Every attempt of a run but its final one (index k + attempts - 1) led
      to a retry with an uninterrupted pause, and the run makes no attempt
      exactly when none is left. */
  lemma {:induction false} RunPrefix<V>(inv: Invocation<V>, k: nat, last: Option<Throwable>)
    ensures var r := RetryFrom(inv, k, last);
      && (r.attempts == 0 <==> k >= inv.n)
      && forall j :: k <= j < k + r.attempts - 1 ==> inv.Retryable(j) && inv.wake(j) == None
    decreases inv.n - k
  {
    if k < inv.n && StepAt(inv, k, last).Continue? {
      var step := StepAt(inv, k, last);
      assert inv.Retryable(k) && (k < inv.n - 1 ==> inv.wake(k) == None);
      RunPrefix(inv, k + 1, step.cause);
      assert RetryFrom(inv, k, last) == Delayed(RetryFrom(inv, k + 1, step.cause), 1, step.pauses);
    }
  }

  /** A run that returns or rethrows does so because of its final attempt
      m - 1: an accepted value, a throwable that is not tolerated, or a pause
      after a retryable attempt that threw; it paused after every attempt but
      the final one, and after that one only when the pause threw. */
  lemma {:induction false} FinalAttempt<V>(inv: Invocation<V>, k: nat, last: Option<Throwable>)
    ensures var r := RetryFrom(inv, k, last); var m := k + r.attempts;
      && (r.completion.Returned? ==>
            r.attempts >= 1 && inv.action(m - 1) == Ok(r.completion.value) &&
            !ResultIgnoredBy(inv.results, r.completion.value) && r.pauses == r.attempts - 1)
      && (r.completion.Rethrown? ==>
            r.attempts >= 1 &&
            ((inv.action(m - 1) == Throw(r.completion.thrown) &&
              !ExceptionIgnoredBy(inv.classes, r.completion.thrown) && r.pauses == r.attempts - 1) ||
             (inv.Retryable(m - 1) && m - 1 < inv.n - 1 && inv.wake(m - 1) == Some(r.completion.thrown) &&
              r.pauses == r.attempts)))
    decreases inv.n - k
  {
    if k < inv.n && StepAt(inv, k, last).Continue? {
      var step := StepAt(inv, k, last);
      FinalAttempt(inv, k + 1, step.cause);
      var rest := RetryFrom(inv, k + 1, step.cause);
      assert RetryFrom(inv, k, last) == Delayed(rest, 1, step.pauses);
      if !rest.completion.LimitExceeded? {
        RunPrefix(inv, k + 1, step.cause);
      }
    }
  }

  /** A run that throws LimitExceededException used up every attempt left
      (from k up to n), tolerated each of them, paused between every two,
      and reports the last throwable among them, or `last` if none threw. */
  lemma {:induction false} LimitReached<V>(inv: Invocation<V>, k: nat, last: Option<Throwable>)
    ensures var r := RetryFrom(inv, k, last); var m := k + r.attempts;
      r.completion.LimitExceeded? ==>
        && r.completion.limit == inv.n
        && m == (if k < inv.n then inv.n else k)
        && (forall j :: k <= j < m ==> inv.Retryable(j))
        && r.completion.cause == LastThrownIn(inv.action, k, m, last)
        && r.pauses == (if r.attempts == 0 then 0 else r.attempts - 1)
    decreases inv.n - k
  {
    if k < inv.n && StepAt(inv, k, last).Continue? {
      var step := StepAt(inv, k, last);
      assert inv.Retryable(k);
      LimitReached(inv, k + 1, step.cause);
      var rest := RetryFrom(inv, k + 1, step.cause);
      assert RetryFrom(inv, k, last) == Delayed(rest, 1, step.pauses);
      if rest.completion.LimitExceeded? {
        LastThrownInShift(inv.action, k, k + 1 + rest.attempts, last);
      }
    }
  }

  /** A call that returns a value returns one the result predicate accepts,
      produced by its final attempt. */
  lemma ReturnedIsAccepted<V>(inv: Invocation<V>)
    ensures var r := RetryFrom(inv, 0, None);
      r.completion.Returned? ==>
        inv.action(r.attempts - 1) == Ok(r.completion.value) && !ResultIgnoredBy(inv.results, r.completion.value)
  {
    FinalAttempt(inv, 0, None);
  }

  /** A call that exhausts its limit ran the action exactly n times (at
      least zero), paused n - 1 times, tolerated every attempt, and reports the
      last throwable of them all as its cause. */
  lemma ExhaustionReportsLastThrowable<V>(inv: Invocation<V>)
    ensures var r := RetryFrom(inv, 0, None);
      r.completion.LimitExceeded? ==>
        && r.completion.limit == inv.n
        && r.attempts == (if inv.n > 0 then inv.n else 0)
        && r.pauses == (if inv.n > 1 then inv.n - 1 else 0)
        && (forall j :: 0 <= j < r.attempts ==> inv.Retryable(j))
        && r.completion.cause == LastThrownIn(inv.action, 0, r.attempts, None)
  {
    LimitReached(inv, 0, None);
  }

  /** A worked scenario: a limit of 3, a pause of 10, a tolerated network
      error class, an action that throws an error of that class on the first
      two attempts and returns v on the third, and a sleeper that is never
      interrupted. The value comes back after three attempts and two pauses. */
  lemma NetworkErrorScenario(inv: Invocation<int>, network: ClassName, v: int)
    requires inv.classes == Some([network]) && inv.results == None && inv.n == 3 && inv.interval == 10
    requires inv.action(0).Throw? && inv.action(0).thrown.cls == network
    requires inv.action(1).Throw? && inv.action(1).thrown.cls == network
    requires inv.action(2) == Ok(v)
    requires forall j :: inv.wake(j) == None
    ensures RetryFrom(inv, 0, None) == Run(Returned(v), 3, 2)
  {
    assert [network][..0] == [];
    assert IsAssignableFrom(network, network);
    assert inv.Retryable(0) && inv.Retryable(1);
    SucceedsAt(inv, 2, v);
  }
}

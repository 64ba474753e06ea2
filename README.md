# A verified model of a counter-based retrier

This project models the core of the Java retry library `ru.stqa.trier`:

- `Trier` keeps two configuration slots, and each can be set once. One holds the tolerated throwable classes. The other holds the predicate that rejects a result.
- `CounterBasedTrier` runs an action up to `n` times and pauses a fixed interval between two attempts. A throwable whose class is not tolerated is let out at once. When the attempts run out it throws `LimitExceededException`, whose cause is the last tolerated throwable (null if no attempt threw).

The modules follow the program's structure:

- `Base`: an `Option` standing for a nullable reference, and Java's `int` and `long`.
- `Throwables`: throwable classes and objects.
  - A class is the chain of class names from `java.lang.Throwable` down to it.
  - `Class.isAssignableFrom` becomes the prefix relation on chains, which is reflexive and transitive.
- `TrierConfig`: the class `Trier`.
  - The ignored-classes slot is an `array?` and stores the caller's own array. The result slot is an `Option` of a predicate.
  - The setters return `Chained(this)`, `IllegalState(message)` or `NullPointer`.
  - `IsExceptionIgnored` is the source's linear scan with early return.
- `Sleepers`: the sleeper a retrier pauses with.
  - Real time is not modelled. The sleeper logs every interval it is asked to pause for.
  - A script says, by the sleeper's total call count, whether each pause returns or throws.
- `AttemptLoop`: the attempt loop as a pure specification.
  - `RetryFrom` maps everything a call depends on (an `Invocation`) to a `Run`: how the call ends, how many attempts it made, and how many pauses it took.
  - The action is a function from the attempt index to `Ok(v)` or `Throw(t)`.
  - The lemmas here state what the source promises about every run.
- `CounterBased`: the class `CounterBasedTrier`.
  - Its four `tryTo` shapes are imperative methods over the `Trier` and `Sleeper` objects.
  - Each method's contract ties its result and the sleeper's new log to `RetryFrom`.

`CounterBasedTrier` extends `Trier` in the source. Here it holds its `Trier` part as the field `trier`.

One might expect an interruption never to be tolerated; the code does not ensure it, and the model follows the code. An `InterruptedException` thrown by the action itself is caught by the loop's `catch (Throwable t)` and goes through the same filter as any other throwable. It is therefore tolerated when `Exception` or `Throwable` is among the ignored classes (`TrierConfig.IgnoringExceptionCoversInterruption`). Only an interruption of the pause always ends the call, because `sleeper.sleep` is outside the `try`.

## Model

| member | source | states |
|---|---|---|
| Throwables.IsAssignableFrom | src/main/java/ru/stqa/trier/Trier.java:62 | definition: `c.isAssignableFrom(d)` holds when d's chain of superclasses starts with c's chain, that is, d is c or a subclass of c |
| Throwables.AssignabilityIsPreorder | src/main/java/ru/stqa/trier/Trier.java:62 | the assignability test is reflexive and transitive |
| TrierConfig.ExceptionIgnoredBy | src/main/java/ru/stqa/trier/Trier.java:59-68 | definition: a throwable is tolerated when the ignored-classes slot is set and one of its classes is assignable from the throwable's class |
| TrierConfig.ResultIgnoredBy | src/main/java/ru/stqa/trier/Trier.java:70-72 | definition: a result is rejected when a predicate is set and holds of it |
| TrierConfig.AnyAssignableMeaning | src/main/java/ru/stqa/trier/Trier.java:59-68 | the scan predicate holds exactly when some listed class is assignable from the thrown class |
| TrierConfig.SubclassOfIgnoredIsIgnored | src/main/java/ru/stqa/trier/Trier.java:59-68 | if a throwable is tolerated, so is any throwable of a subclass of its class |
| TrierConfig.IgnoringExceptionCoversInterruption | src/main/java/ru/stqa/trier/Trier.java:59-68 | ignoring `Exception` or `Throwable` also tolerates an `InterruptedException` thrown by the action |
| TrierConfig.Trier.constructor | src/main/java/ru/stqa/trier/Trier.java:26-27 | both slots start null |
| TrierConfig.Trier.IgnoringExceptions | src/main/java/ru/stqa/trier/Trier.java:35-41 | a set slot throws `IllegalStateException` with its message and stays as it was; an unset slot takes the caller's array (even an empty one, or null) and the receiver is returned; only this slot may change |
| TrierConfig.Trier.IgnoringResults | src/main/java/ru/stqa/trier/Trier.java:43-49 | a set result slot throws and stays; an unset one takes the predicate (null included) and the receiver is returned; only this slot may change |
| TrierConfig.Trier.Until | src/main/java/ru/stqa/trier/Trier.java:51-57 | a set slot throws and stays; a null predicate throws `NullPointerException` and leaves the slot null; otherwise the slot rejects exactly the results the predicate does not accept |
| TrierConfig.Trier.IsExceptionIgnored | src/main/java/ru/stqa/trier/Trier.java:59-68 | true exactly when the slot is set and one of its classes is assignable from the thrown object's class (so false for a null or empty slot) |
| TrierConfig.Trier.IsResultIgnored | src/main/java/ru/stqa/trier/Trier.java:70-72 | never true while no predicate is set |
| TrierConfig.MixedResultSetters | src/main/java/ru/stqa/trier/Trier.java:43-57 | after `ignoring(p)`, `until(q)` throws and results are still judged by p |
| TrierConfig.UntilThenIgnoring | src/main/java/ru/stqa/trier/Trier.java:43-57 | after `until(p)`, `ignoring(q)` throws and results are still judged by the negation of p |
| TrierConfig.EmptyClassListSetsSlot | src/main/java/ru/stqa/trier/Trier.java:35-41 | a first `ignoring()` with no classes uses up the slot: a second call throws, and nothing is tolerated |
| Sleepers.Sleeper.constructor | src/main/java/ru/stqa/trier/CounterBasedTrier.java:44-46 | a sleeper follows the given script and has not been called yet |
| Sleepers.Sleeper.Uninterrupted | src/main/java/ru/stqa/trier/CounterBasedTrier.java:36-42 | the sleeper a retrier makes for itself is never interrupted |
| Sleepers.Sleeper.Sleep | src/main/java/ru/stqa/trier/CounterBasedTrier.java:63-65 | a pause logs its interval and returns or throws as the script says for this call |
| AttemptLoop.Repeat | src/main/java/ru/stqa/trier/CounterBasedTrier.java:63-65 | k pauses of the interval: exactly k entries, each equal to it |
| AttemptLoop.StepAt | src/main/java/ru/stqa/trier/CounterBasedTrier.java:54-65 | definition of one pass of the loop body: an accepted value returns; a throwable that is not tolerated is rethrown; otherwise, before the last possible attempt, the pause follows and, if it throws, its throwable ends the call; else the loop goes on, with a thrown throwable as the new cause and a rejected result leaving the cause as it was |
| AttemptLoop.StepAtMeaning | src/main/java/ru/stqa/trier/CounterBasedTrier.java:54-65 | a pass goes on to the next attempt exactly when the attempt is retryable and the pause after it (if any) returns; at most one pause follows an attempt, and none follows the last possible one |
| AttemptLoop.RetryFrom | src/main/java/ru/stqa/trier/CounterBasedTrier.java:52-69 | definition of the whole loop from attempt i: with no attempt left it ends in `LimitExceededException` carrying n and the cause so far; otherwise it makes one pass and either stops there or goes on from attempt i + 1, counting the attempts and pauses made |
| AttemptLoop.LastThrownIn | src/main/java/ru/stqa/trier/CounterBasedTrier.java:61 | definition: the throwable of the last attempt in a range that threw, or the earlier cause if none did |
| AttemptLoop.RunBounds | src/main/java/ru/stqa/trier/CounterBasedTrier.java:53-65 | from attempt i on at most n - i attempts are made, at most one pause follows each, and none follows the last possible one |
| AttemptLoop.LastThrownInMeaning | src/main/java/ru/stqa/trier/CounterBasedTrier.java:61 | the reported cause is the previous one when no attempt threw, and otherwise the throwable of an attempt after which none threw |
| AttemptLoop.SkipRetryable | src/main/java/ru/stqa/trier/CounterBasedTrier.java:53-66 | i attempts that all led to a retry bring the loop to attempt i with i pauses taken and the last of their throwables as the cause |
| AttemptLoop.SucceedsAt | src/main/java/ru/stqa/trier/CounterBasedTrier.java:53-56 | if attempt i succeeds after i retried attempts, its value is returned after i + 1 attempts and exactly i pauses |
| AttemptLoop.FatalAt | src/main/java/ru/stqa/trier/CounterBasedTrier.java:57-60 | a throwable that is not tolerated is let out unchanged at once: no further attempt and no further pause |
| AttemptLoop.InterruptedAfter | src/main/java/ru/stqa/trier/CounterBasedTrier.java:63-65 | a pause that throws ends the call with that throwable, whether or not its class is tolerated |
| AttemptLoop.Exhausted | src/main/java/ru/stqa/trier/CounterBasedTrier.java:53-69 | when every attempt leads to a retry, the action runs n times with n - 1 pauses, and the call throws `LimitExceededException` carrying n and the last throwable any attempt threw |
| AttemptLoop.RejectedResultsLeaveNoCause | src/main/java/ru/stqa/trier/CounterBasedTrier.java:75-93 | if every result is rejected, the limit is exhausted with a null cause: rejected results never become the cause |
| AttemptLoop.NoAttempts | src/main/java/ru/stqa/trier/CounterBasedTrier.java:53-69 | with n <= 0 the action never runs, nothing pauses, and the call throws `LimitExceededException` with a null cause |
| AttemptLoop.RunPrefix | src/main/java/ru/stqa/trier/CounterBasedTrier.java:53-66 | in any run, every attempt but the final one led to a retry with an uninterrupted pause; no attempt is made exactly when none is left |
| AttemptLoop.FinalAttempt | src/main/java/ru/stqa/trier/CounterBasedTrier.java:53-66 | a run that returns or rethrows ends on its final attempt: an accepted value, a throwable that is not tolerated, or an interrupted pause; the number of pauses follows |
| AttemptLoop.LimitReached | src/main/java/ru/stqa/trier/CounterBasedTrier.java:53-69 | a run ending in `LimitExceededException` used up all n attempts, tolerated each, paused between every two, and reports the last throwable among them |
| AttemptLoop.ReturnedIsAccepted | src/main/java/ru/stqa/trier/CounterBasedTrier.java:77-79 | a returned value came from the final attempt and is one the result predicate does not reject |
| AttemptLoop.ExhaustionReportsLastThrowable | src/main/java/ru/stqa/trier/CounterBasedTrier.java:61-69 | an exhausted call made max(n, 0) attempts and max(n - 1, 0) pauses, tolerated every attempt, and its cause is the last throwable of them all |
| AttemptLoop.NetworkErrorScenario | src/main/java/ru/stqa/trier/CounterBasedTrier.java:75-93 | with limit 3, two tolerated network errors and then a value, the value comes back after three attempts and two pauses |
| CounterBased.CounterBasedTrier.constructor | src/main/java/ru/stqa/trier/CounterBasedTrier.java:29-38 | `CounterBasedTrier(n)` uses interval 500 and a sleeper that is never interrupted, and both slots start null |
| CounterBased.CounterBasedTrier.WithInterval | src/main/java/ru/stqa/trier/CounterBasedTrier.java:40-42 | the given limit and interval, with a sleeper that is never interrupted |
| CounterBased.CounterBasedTrier.WithSleeper | src/main/java/ru/stqa/trier/CounterBasedTrier.java:44-48 | the given limit, sleeper and interval |
| CounterBased.CounterBasedTrier.Times | src/main/java/ru/stqa/trier/CounterBasedTrier.java:25-27 | `times(n)` is `CounterBasedTrier(n)` |
| CounterBased.CounterBasedTrier.TryToRun | src/main/java/ru/stqa/trier/CounterBasedTrier.java:50-70 | the `Runnable` loop ends as the specification run ends, after as many attempts, and the sleeper's log grows by one entry of the interval for each of its pauses |
| CounterBased.CounterBasedTrier.TryToGet | src/main/java/ru/stqa/trier/CounterBasedTrier.java:72-94 | the same for the `Supplier` loop, whose results are judged by the result slot |
| CounterBased.CounterBasedTrier.TryToAccept | src/main/java/ru/stqa/trier/CounterBasedTrier.java:96-116 | the `Consumer` loop is the `Runnable` loop with the same `par` given to every attempt |
| CounterBased.CounterBasedTrier.TryToApply | src/main/java/ru/stqa/trier/CounterBasedTrier.java:118-140 | the `Function` loop is the `Supplier` loop with the same `par` given to every attempt |
| CounterBased.NetworkRecovers | src/main/java/ru/stqa/trier/CounterBasedTrier.java:72-94 | a client that tolerates a network error class and whose action fails twice gets its value, and the sleeper logged two pauses of 10 |
| CounterBased.InterruptionEndsTheCall | src/main/java/ru/stqa/trier/CounterBasedTrier.java:63-65 | with every throwable tolerated, a sleeper interrupted in its first pause ends the call with the interruption after one pause of 500 |

## Left out

- Real time: `Sleeper.sleep` is a scripted log of intervals, and the default anonymous sleeper is modelled as never interrupted. Its real pause lives in an interface that is not part of this model.
- Reflection: a throwable class is its chain of superclass names, and `isAssignableFrom` is the prefix relation on chains. Interfaces play no part, because throwable classes form a tree.
- A null element in the array given to `ignoring(Class...)` is not modelled. In the source it makes `isExceptionIgnored` throw `NullPointerException`.
- The action, the result predicate and the sleeper's script are total functions.
  - An action's outcome depends only on the attempt index (and on `par` for the shapes with an argument), not on hidden state.
  - A result predicate that throws is not modelled. In the source it throws inside the `try`, so the filter would judge it like a throwable from the action.
- The text of the `LimitExceededException` message and the action's `toString` are left out. The completion records n and the cause.
- Generics: `CounterBasedTrier<X>` extends a non-generic `Trier` in the source. The model gives both one result type parameter.
- `checkNotNull` is not part of this model. Its arguments are non-null typed parameters: a `Sleeper` reference and an `int64` interval.
- Concurrency: the setters and the loops run on one thread, and nothing changes the configuration while a loop runs.
- The interrupt status of the thread is not modelled. A throwable from a pause is simply let out.
- CounterBased.CounterBasedTrier.TryToAccept: this delegates to the `Runnable` loop rather than repeating its own copy of it. The source's `Consumer` loop is line for line the `Runnable` loop with `c.accept(par)` as the action.
- CounterBased.CounterBasedTrier.TryToApply: likewise, this delegates to the `Supplier` loop.
- The attempt count returned by the `tryTo` methods is ghost. The source does not return it; it exists only to state the contract.

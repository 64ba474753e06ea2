/** The configuration part of a retrier (`Trier`): which throwables are
    tolerated and which results are rejected. Each of the two slots may be set
    once; both are read by the attempt loop. */
module TrierConfig {
  import opened Base
  import opened Throwables

  const EXCEPTIONS_SET_TWICE: string := "Ignored exceptions can be set once only"
  const PREDICATE_SET_TWICE: string := "Predicate to ignore unwanted results can be set once only"

  /** What a configuration setter does: return its receiver for chaining, or
      throw IllegalStateException (with its message) or NullPointerException. */
  datatype Chained<T> = Chained(receiver: T) | IllegalState(message: string) | NullPointer

  /** Some class among `cs` is assignable from c. */
  predicate AnyAssignable(cs: seq<ClassName>, c: ClassName)
    decreases |cs|
  {
    |cs| > 0 && (AnyAssignable(cs[..|cs| - 1], c) || IsAssignableFrom(cs[|cs| - 1], c))
  }

  /** AnyAssignable holds exactly when one of the classes is assignable from c. */
  lemma {:induction false} AnyAssignableMeaning(cs: seq<ClassName>, c: ClassName)
    ensures AnyAssignable(cs, c) <==> exists k :: 0 <= k < |cs| && IsAssignableFrom(cs[k], c)
    decreases |cs|
  {
    if |cs| > 0 {
      var front := cs[..|cs| - 1];
      AnyAssignableMeaning(front, c);
      if exists k :: 0 <= k < |front| && IsAssignableFrom(front[k], c) {
        var k :| 0 <= k < |front| && IsAssignableFrom(front[k], c);
        assert cs[k] == front[k];
      }
      if exists k :: 0 <= k < |cs| && IsAssignableFrom(cs[k], c) {
        var k :| 0 <= k < |cs| && IsAssignableFrom(cs[k], c);
        if k < |cs| - 1 {
          assert front[k] == cs[k];
        }
      }
    }
  }

  /** Whether a throwable is tolerated, given the contents of the
      ignored-classes slot (None while the slot is null). */
  predicate ExceptionIgnoredBy(classes: Option<seq<ClassName>>, t: Throwable) {
    classes.Some? && AnyAssignable(classes.value, t.cls)
  }

  /** Whether a result is rejected, given the ignored-result slot. */
  predicate ResultIgnoredBy<R>(slot: Option<R -> bool>, result: R) {
    slot.Some? && slot.value(result)
  }

  /** A class that tolerates some throwable class tolerates every subclass of
      it as well. */
  lemma SubclassOfIgnoredIsIgnored(classes: Option<seq<ClassName>>, t: Throwable, u: Throwable)
    requires ExceptionIgnoredBy(classes, t)
    requires IsAssignableFrom(t.cls, u.cls)
    ensures ExceptionIgnoredBy(classes, u)
  {
    AnyAssignableMeaning(classes.value, t.cls);
    var k :| 0 <= k < |classes.value| && IsAssignableFrom(classes.value[k], t.cls);
    AssignabilityIsPreorder(classes.value[k], t.cls, u.cls);
    AnyAssignableMeaning(classes.value, u.cls);
  }

  /** Tolerating java.lang.Exception (or Throwable) also tolerates an
      InterruptedException thrown by the action itself: the filter makes no
      exception for interruption. */
  lemma IgnoringExceptionCoversInterruption(id: nat)
    ensures ExceptionIgnoredBy(Some([EXCEPTION]), Throwable(INTERRUPTED_EXCEPTION, id))
    ensures ExceptionIgnoredBy(Some([THROWABLE]), Throwable(INTERRUPTED_EXCEPTION, id))
  {
  }

  /** Shared configuration of every retrier. R is the type of the results the
      result predicate judges (Object in the source). */
  class Trier<R(!new)> {
    /** The tolerated throwable classes; null until set. The array given by the
        caller is stored itself, not copied. */
    var ignoredExceptions: array?<ClassName>
    /** The predicate that rejects a result; None while null. */
    var ignoredResult: Option<R -> bool>

    constructor ()
      ensures ignoredExceptions == null && ignoredResult == None
    {
      ignoredExceptions := null;
      ignoredResult := None;
    }

    /** The contents of the ignored-classes slot. */
    ghost function IgnoredClasses(): Option<seq<ClassName>>
      reads this, ignoredExceptions
    {
      if ignoredExceptions == null then None else Some(ignoredExceptions[..])
    }

    /** `ignoring(Class...)`: set the tolerated classes, once. A null array
        leaves the slot unset; an empty array sets it. */
    method IgnoringExceptions(classes: array?<ClassName>) returns (r: Chained<Trier<R>>)
      modifies this`ignoredExceptions
      ensures old(ignoredExceptions) != null ==>
        r == IllegalState(EXCEPTIONS_SET_TWICE) && ignoredExceptions == old(ignoredExceptions)
      ensures old(ignoredExceptions) == null ==> r == Chained(this) && ignoredExceptions == classes
    {
      if ignoredExceptions != null {
        return IllegalState(EXCEPTIONS_SET_TWICE);
      }
      ignoredExceptions := classes;
      r := Chained(this);
    }

    /** `ignoring(Predicate)`: set the predicate that rejects results, once. */
    method IgnoringResults(p: Option<R -> bool>) returns (r: Chained<Trier<R>>)
      modifies this`ignoredResult
      ensures old(ignoredResult).Some? ==>
        r == IllegalState(PREDICATE_SET_TWICE) && ignoredResult == old(ignoredResult)
      ensures old(ignoredResult).None? ==> r == Chained(this) && ignoredResult == p
    {
      if ignoredResult.Some? {
        return IllegalState(PREDICATE_SET_TWICE);
      }
      ignoredResult := p;
      r := Chained(this);
    }

    /** `until(Predicate)`: accept only results the predicate holds of, by
        storing its negation in the same slot as `ignoring(Predicate)`. */
    method Until(p: Option<R -> bool>) returns (r: Chained<Trier<R>>)
      modifies this`ignoredResult
      ensures old(ignoredResult).Some? ==>
        r == IllegalState(PREDICATE_SET_TWICE) && ignoredResult == old(ignoredResult)
      ensures old(ignoredResult).None? && p.None? ==> r == NullPointer && ignoredResult == None
      ensures old(ignoredResult).None? && p.Some? ==>
        r == Chained(this) && ignoredResult.Some? && forall x :: IsResultIgnored(x) == !p.value(x)
    {
      if ignoredResult.Some? {
        return IllegalState(PREDICATE_SET_TWICE);
      }
      if p.None? {
        return NullPointer;
      }
      ignoredResult := Some(r => !p.value(r));
      r := Chained(this);
    }

    /** `isExceptionIgnored`: scan the tolerated classes for one the thrown
        object's class is assignable to. */
    method IsExceptionIgnored(t: Throwable) returns (b: bool)
      ensures b <==> (ignoredExceptions != null &&
        exists k :: 0 <= k < ignoredExceptions.Length && IsAssignableFrom(ignoredExceptions[k], t.cls))
      ensures b == ExceptionIgnoredBy(IgnoredClasses(), t)
    {
      if ignoredExceptions != null {
        for k := 0 to ignoredExceptions.Length
          invariant !AnyAssignable(ignoredExceptions[..k], t.cls)
        {
          if IsAssignableFrom(ignoredExceptions[k], t.cls) {
            assert ignoredExceptions[..k + 1][..k] == ignoredExceptions[..k];
            AnyAssignableMeaning(ignoredExceptions[..], t.cls);
            return true;
          }
          assert ignoredExceptions[..k + 1][..k] == ignoredExceptions[..k];
        }
        assert ignoredExceptions[..ignoredExceptions.Length] == ignoredExceptions[..];
        AnyAssignableMeaning(ignoredExceptions[..], t.cls);
      }
      return false;
    }

    /** `isResultIgnored`. */
    function IsResultIgnored(result: R): (b: bool)
      reads this
      ensures ignoredResult.None? ==> !b
    {
      ResultIgnoredBy(ignoredResult, result)
    }
  }

  /** The two ways of setting the result slot exclude each other: whichever
      comes second throws, and the first one's predicate stays. */
  method MixedResultSetters<R(!new)>(p: R -> bool, q: R -> bool, r: R)
    returns (first: Chained<Trier<R>>, second: Chained<Trier<R>>, ignored: bool)
    ensures first.Chained? && second == IllegalState(PREDICATE_SET_TWICE)
    ensures ignored == p(r)
  {
    var t := new Trier<R>();
    first := t.IgnoringResults(Some(p));
    second := t.Until(Some(q));
    ignored := t.IsResultIgnored(r);
  }

  /** The same in the other order: after `until(p)`, `ignoring(q)` throws and
      the stored negation of p stays. */
  method UntilThenIgnoring<R(!new)>(p: R -> bool, q: R -> bool, r: R)
    returns (first: Chained<Trier<R>>, second: Chained<Trier<R>>, ignored: bool)
    ensures first.Chained? && second == IllegalState(PREDICATE_SET_TWICE)
    ensures ignored == !p(r)
  {
    var t := new Trier<R>();
    first := t.Until(Some(p));
    second := t.IgnoringResults(Some(q));
    ignored := t.IsResultIgnored(r);
  }

  /** A first `ignoring()` with no classes already uses up the slot, and
      tolerates nothing. */
  method EmptyClassListSetsSlot(t: Throwable)
    returns (first: Chained<Trier<int>>, second: Chained<Trier<int>>, ignored: bool)
    ensures first.Chained? && second == IllegalState(EXCEPTIONS_SET_TWICE) && !ignored
  {
    var tr := new Trier<int>();
    var none := new ClassName[0];
    first := tr.IgnoringExceptions(none);
    var all := new ClassName[1] [THROWABLE];
    second := tr.IgnoringExceptions(all);
    ignored := tr.IsExceptionIgnored(t);
  }
}

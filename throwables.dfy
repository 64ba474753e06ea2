/** Java's throwable classes and throwable objects, as far as the retry core
    looks at them: it only ever asks whether a configured class is assignable
    from the runtime class of a thrown object. */
module Throwables {

  /** A throwable class, written as the chain of class names from
      java.lang.Throwable down to the class itself. Throwable classes form a
      single-inheritance tree (no interface extends a class), so the chain
      determines both the class and its place in the tree. */
  type ClassName = s: seq<string> | |s| >= 1 && s[0] == "java.lang.Throwable" witness ["java.lang.Throwable"]

  const THROWABLE: ClassName := ["java.lang.Throwable"]
  const EXCEPTION: ClassName := THROWABLE + ["java.lang.Exception"]
  const RUNTIME_EXCEPTION: ClassName := EXCEPTION + ["java.lang.RuntimeException"]
  const INTERRUPTED_EXCEPTION: ClassName := EXCEPTION + ["java.lang.InterruptedException"]

  /** `c.isAssignableFrom(d)`: d is c itself or one of its subclasses. */
  predicate IsAssignableFrom(c: ClassName, d: ClassName) {
    c <= d
  }

  /** Assignability is a preorder: every class is assignable from itself,
      and from the subclasses of its subclasses. */
  lemma AssignabilityIsPreorder(a: ClassName, b: ClassName, c: ClassName)
    ensures IsAssignableFrom(a, a)
    ensures IsAssignableFrom(a, b) && IsAssignableFrom(b, c) ==> IsAssignableFrom(a, c)
  {
  }

  /** A throwable object raised by code outside the model (the action being
      retried, or the sleeper): its runtime class, and an identity that tells
      two objects of one class apart. */
  datatype Throwable = Throwable(cls: ClassName, id: nat)
}

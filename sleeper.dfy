/** The delay capability the attempt loop calls between attempts. Its real
    pausing is not modelled: a sleeper records every interval it is asked to
    pause for, and follows a script that says, call by call, whether the pause
    ends normally or is interrupted by a throwable. */
module Sleepers {
  import opened Base
  import opened Throwables

  class Sleeper {
    /** What the k-th call overall does: None returns after the pause,
        Some(t) throws t (an InterruptedException, typically). */
    const script: nat -> Option<Throwable>
    /** Every interval passed to Sleep so far, oldest first. */
    var log: seq<int>

    constructor (script: nat -> Option<Throwable>)
      ensures this.script == script && log == []
    {
      this.script := script;
      log := [];
    }

    /** The sleeper a retrier builds for itself when none is given; it is
        never interrupted. */
    constructor Uninterrupted()
      ensures (forall k :: script(k) == None) && log == []
    {
      script := _ => None;
      log := [];
    }

    /** `sleep(ms)`. */
    method Sleep(ms: int64) returns (interrupt: Option<Throwable>)
      modifies this`log
      ensures log == old(log) + [ms as int]
      ensures interrupt == script(|old(log)|)
    {
      interrupt := script(|log|);
      log := log + [ms as int];
    }
  }
}

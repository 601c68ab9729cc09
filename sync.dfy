/** The two exclusion primitives, as seen by workers that take them one at a time:
    the monitor behind a C# `lock` statement, and `SemaphoreSlim`. */
module Sync {
  import opened Wrappers

  /** The monitor of the object used in `lock (l) { ... }`. */
  class Monitor {
    var held: bool

    constructor ()
      ensures !held
    {
      held := false;
    }

    /** Enter the monitor. When the guarded sections run one after another, as modelled
        here, the monitor is always free on entry. */
    method Enter()
      requires !held
      modifies this
      ensures held
    {
      held := true;
    }

    /** Exit the monitor; the `lock` statement does this on every exit path. */
    method Exit()
      requires held
      modifies this
      ensures !held
    {
      held := false;
    }
  }

  /** `SemaphoreSlim(initialCount, maxCount)`. */
  class SemaphoreSlim {
    var count: nat
    const maxCount: nat

    ghost predicate Valid()
      reads this
    {
      0 < maxCount && count <= maxCount
    }

    constructor (initialCount: nat, maxCount: nat)
      requires 0 < maxCount && initialCount <= maxCount
      ensures Valid() && count == initialCount && this.maxCount == maxCount
    {
      count := initialCount;
      this.maxCount := maxCount;
    }

    /** `Wait()`: take one permit. Run one worker at a time, a permit is always free. */
    method Wait()
      requires Valid() && count > 0
      modifies this
      ensures Valid() && count == old(count) - 1
    {
      count := count - 1;
    }

    /** `Release()`: return one permit and report the previous count, or throw
        SemaphoreFullException when the count is already at its maximum. */
    method Release() returns (r: Result<nat>)
      requires Valid()
      modifies this
      ensures Valid()
      ensures old(count) < maxCount ==> r == Success(old(count)) && count == old(count) + 1
      ensures old(count) == maxCount ==> r == Failure(SemaphoreFull) && count == old(count)
    {
      if count == maxCount {
        return Failure(SemaphoreFull);
      }
      r := Success(count);
      count := count + 1;
    }
  }
}

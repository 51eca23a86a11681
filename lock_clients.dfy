/** The SetLockState extension: maps a boolean "should be locked" onto at most one
    handle held in a caller's field. The `ref` field is passed in and its new value
    returned. */
module LockableNavigationExtensions {
  import opened NavigationSpec
  import opened LockableNavigation

  /** `lock` is a field of the caller that only ever holds handles this call issued. */
  method SetLockState(locker: LockableNavigationManager, lock: Unlocker?, shouldLock: bool) returns (newLock: Unlocker?)
    requires locker.Valid()
    requires lock != null ==> lock.owner == locker && lock.Valid()
    modifies locker, lock
    ensures locker.Valid() && (newLock != null) == shouldLock
    ensures newLock != null ==> newLock.owner == locker && newLock.Valid()
    ensures locker.browserExitHandler == old(locker.browserExitHandler)
    ensures SetLockAction(lock != null, shouldLock) == Acquire ==>
      var s := NavigationSpec.LockNavigation(old(locker.State()));
      fresh(newLock) && newLock.action == locker && newLock.index == old(|locker.Handles|) &&
      locker.State() == s.next && locker.Events == old(locker.Events) + s.events &&
      locker.ParentCalls == old(locker.ParentCalls)
    ensures SetLockAction(lock != null, shouldLock) == Release ==>
      var s := DisposeUnlocker(old(locker.State()), lock.index);
      newLock == null && lock.action == null &&
      locker.State() == s.next && locker.Events == old(locker.Events) + s.events &&
      locker.ParentCalls == old(locker.ParentCalls)
    ensures SetLockAction(lock != null, shouldLock) == Keep ==>
      newLock == lock && locker.State() == old(locker.State()) &&
      locker.Events == old(locker.Events) && locker.ParentCalls == old(locker.ParentCalls)
  {
    newLock := lock;
    if lock == null && shouldLock {
      newLock := locker.LockNavigation();
    } else if lock != null && !shouldLock {
      lock.Dispose();
      newLock := null;
    }
  }
}

/** The PageLocker component: while its IsLocked parameter is true it holds exactly one
    navigation lock. */
module Components {
  import opened NavigationSpec
  import opened LockableNavigation

  class PageLocker {
    /** The injected navigation manager. */
    const lockableNav: LockableNavigationManager
    /** The IsLocked parameter, set by the renderer before OnParametersSet. */
    var isLocked: bool
    var lock: Unlocker?

    ghost predicate Valid()
      reads this, lockableNav, lock
    {
      lockableNav.Valid() && (lock != null ==> lock.owner == lockableNav && lock.Valid())
    }

    constructor (nav: LockableNavigationManager)
      requires nav.Valid()
      ensures Valid() && lockableNav == nav && !isLocked && lock == null
    {
      lockableNav := nav;
      isLocked := false;
      lock := null;
    }

    method OnParametersSet()
      requires Valid()
      modifies this, lockableNav, lock
      ensures Valid() && isLocked == old(isLocked) && (lock != null) == isLocked
      ensures lockableNav.browserExitHandler == old(lockableNav.browserExitHandler)
      ensures SetLockAction(old(lock) != null, isLocked) == Acquire ==>
        var s := NavigationSpec.LockNavigation(old(lockableNav.State()));
        fresh(lock) && lock.action == lockableNav && lock.index == old(|lockableNav.Handles|) &&
        lockableNav.State() == s.next && lockableNav.Events == old(lockableNav.Events) + s.events &&
        lockableNav.ParentCalls == old(lockableNav.ParentCalls)
      ensures SetLockAction(old(lock) != null, isLocked) == Release ==>
        var s := DisposeUnlocker(old(lockableNav.State()), old(lock).index);
        lock == null && old(lock).action == null &&
        lockableNav.State() == s.next && lockableNav.Events == old(lockableNav.Events) + s.events &&
        lockableNav.ParentCalls == old(lockableNav.ParentCalls)
      ensures SetLockAction(old(lock) != null, isLocked) == Keep ==>
        lock == old(lock) &&
        lockableNav.State() == old(lockableNav.State()) &&
        lockableNav.Events == old(lockableNav.Events) && lockableNav.ParentCalls == old(lockableNav.ParentCalls)
    {
      if lock == null && isLocked {
        lock := lockableNav.LockNavigation();
      } else if lock != null && !isLocked {
        lock.Dispose();
        lock := null;
      }
    }

    /** Releases the held lock, if any. The field keeps the (now spent) handle. */
    method Dispose()
      requires Valid()
      modifies lockableNav, lock
      ensures Valid() && (lock != null ==> lock.action == null)
      ensures lockableNav.lockCount == old(lockableNav.lockCount) - (if lock != null && old(lock.action) != null then 1 else 0)
      ensures lockableNav.browserExitHandler == old(lockableNav.browserExitHandler)
      ensures lock != null ==>
        var s := DisposeUnlocker(old(lockableNav.State()), lock.index);
        lockableNav.State() == s.next && lockableNav.Events == old(lockableNav.Events) + s.events &&
        lockableNav.ParentCalls == old(lockableNav.ParentCalls)
      ensures lock == null ==>
        lockableNav.State() == old(lockableNav.State()) &&
        lockableNav.Events == old(lockableNav.Events) && lockableNav.ParentCalls == old(lockableNav.ParentCalls)
    {
      if lock != null {
        lock.Dispose();
      }
    }
  }
}

/** The lockable navigation manager as an object: the fields the source updates in place,
    the unlock handles it issues, and ghost logs of the events it raises and of the calls
    it makes on its parent navigation manager. Every method is proved to follow the
    matching function of NavigationSpec, and to keep the reference count equal to the
    number of handles not yet disposed. */
module LockableNavigation {
  import opened NavigationSpec

  /** A browser-exit handler; only its identity matters here. */
  class BrowserExitHandler {
    constructor () {}
  }

  /** The single-use handle returned by LockNavigation. Its `action` stands for the
      `_Action` delegate, which is bound to the issuing manager's UnlockNavigation and
      becomes null once it has run. */
  class Unlocker {
    var action: LockableNavigationManager?
    ghost const owner: LockableNavigationManager
    ghost const index: nat

    constructor (manager: LockableNavigationManager, ghost index: nat)
      ensures action == manager && owner == manager && this.index == index
    {
      action := manager;
      owner := manager;
      this.index := index;
    }

    /** The handle owns slot `index` of its manager: the slot is live exactly while the
        action is bound, and a bound action is the owner's UnlockNavigation. */
    ghost predicate Valid()
      reads this, owner
    {
      owner.Valid() && index < |owner.Handles| &&
      owner.Handles[index] == (action != null) && (action == null || action == owner)
    }

    /** Runs the unlock action if it has not run yet, then drops it. */
    method Dispose()
      requires Valid()
      modifies this, owner
      ensures Valid() && action == null
      ensures owner.browserExitHandler == old(owner.browserExitHandler)
      ensures var s := DisposeUnlocker(old(owner.State()), index);
        owner.State() == s.next && owner.Events == old(owner.Events) + s.events &&
        owner.ParentCalls == old(owner.ParentCalls) + s.calls
    {
      ghost var before := owner.Handles;
      if action != null {
        action.UnlockNavigation();
        LiveCountClear(before, index);
      } else {
        assert before[index := false] == before;
      }
      action := null;
      owner.Handles := before[index := false];
    }
  }

  class LockableNavigationManager {
    var lockCount: int
    var isBlindNavigation: bool
    var uri: string
    var browserExitHandler: Option<BrowserExitHandler>
    /** Slot i tells whether the i-th handle issued by LockNavigation is still live. */
    ghost var Handles: seq<bool>
    ghost var Events: seq<Event>
    ghost var ParentCalls: seq<ParentCall>

    ghost function State(): ManagerState
      reads `lockCount, `isBlindNavigation, `uri, `Handles
    {
      ManagerState(lockCount, isBlindNavigation, uri, Handles)
    }

    /** The lock count is the number of live handles. */
    ghost predicate Valid()
      reads `lockCount, `Handles
    {
      lockCount == LiveCount(Handles)
    }

    /** `uri` is the parent's Uri when the manager is initialised. */
    constructor (uri: string)
      ensures Valid() && State() == Initial(uri)
      ensures browserExitHandler == None && Events == [] && ParentCalls == []
    {
      lockCount := 0;
      isBlindNavigation := false;
      this.uri := uri;
      browserExitHandler := None;
      Handles := [];
      Events := [];
      ParentCalls := [];
    }

    /** Locked exactly while some issued handle has not been disposed. */
    predicate IsLocked()
      reads `lockCount, `Handles
      ensures Valid() ==> (IsLocked() <==> exists i :: 0 <= i < |Handles| && Handles[i])
    {
      LiveCountPositive(Handles);
      lockCount > 0
    }

    method RegisterBrowserExitHandler(handler: BrowserExitHandler) returns (error: Option<ExitHandlerError>)
      modifies this
      ensures var r := RegisterExitHandler(old(browserExitHandler), handler);
        (r.Success? ==> error == None && browserExitHandler == r.value) &&
        (r.Failure? ==> error == Some(r.error) && browserExitHandler == old(browserExitHandler))
      ensures lockCount == old(lockCount) && isBlindNavigation == old(isBlindNavigation) && uri == old(uri)
      ensures Handles == old(Handles) && Events == old(Events) && ParentCalls == old(ParentCalls)
    {
      if browserExitHandler.Some? {
        return Some(HandlerAlreadyRegistered);
      }
      browserExitHandler := Some(handler);
      error := None;
    }

    method UnregisterBrowserExitHandler(handler: BrowserExitHandler) returns (error: Option<ExitHandlerError>)
      modifies this
      ensures var r := UnregisterExitHandler(old(browserExitHandler), handler);
        (r.Success? ==> error == None && browserExitHandler == r.value) &&
        (r.Failure? ==> error == Some(r.error) && browserExitHandler == old(browserExitHandler))
      ensures lockCount == old(lockCount) && isBlindNavigation == old(isBlindNavigation) && uri == old(uri)
      ensures Handles == old(Handles) && Events == old(Events) && ParentCalls == old(ParentCalls)
    {
      if browserExitHandler.None? {
        return None;
      }
      if browserExitHandler.value != handler {
        return Some(OtherHandlerRegistered);
      }
      browserExitHandler := None;
      error := None;
    }

    /** The registered handler reported that the user chose to stay on the page: the
        manager re-raises it. A handler that is not registered is not subscribed. */
    method BrowserExitBlockedBy(sender: BrowserExitHandler)
      modifies this
      ensures Events == old(Events) + (if old(browserExitHandler) == Some(sender) then [BrowserExitBlocked] else [])
      ensures lockCount == old(lockCount) && isBlindNavigation == old(isBlindNavigation) && uri == old(uri)
      ensures browserExitHandler == old(browserExitHandler) && Handles == old(Handles) && ParentCalls == old(ParentCalls)
    {
      if browserExitHandler == Some(sender) {
        Events := Events + [BrowserExitBlocked];
      }
    }

    method LockNavigation() returns (unlocker: Unlocker)
      requires Valid()
      modifies this
      ensures Valid() && fresh(unlocker) && unlocker.Valid()
      ensures unlocker.owner == this && unlocker.index == old(|Handles|) && unlocker.action == this
      ensures browserExitHandler == old(browserExitHandler)
      ensures var s := NavigationSpec.LockNavigation(old(State()));
        State() == s.next && Events == old(Events) + s.events && ParentCalls == old(ParentCalls) + s.calls
    {
      LiveCountAppend(Handles, true);
      lockCount := lockCount + 1;
      if lockCount == 1 {
        Events := Events + [IsLockedChanged];
      }
      unlocker := new Unlocker(this, |Handles|);
      Handles := Handles + [true];
    }

    /** The action bound into every Unlocker. On its own it leaves the count one below the
        live handles; Unlocker.Dispose, its only caller, clears the handle's slot right after. */
    method UnlockNavigation()
      modifies this
      ensures browserExitHandler == old(browserExitHandler)
      ensures var s := NavigationSpec.UnlockNavigation(old(State()));
        State() == s.next && Events == old(Events) + s.events && ParentCalls == old(ParentCalls) + s.calls
    {
      lockCount := lockCount - 1;
      if lockCount == 0 {
        Events := Events + [IsLockedChanged];
      }
    }

    /** The handler subscribed to the parent's LocationChanged event. */
    method ParentLocationChanged(e: LocationChangedEventArgs)
      requires Valid()
      modifies this
      ensures Valid() && Handles == old(Handles) && browserExitHandler == old(browserExitHandler)
      ensures var s := NavigationSpec.ParentLocationChanged(old(State()), e);
        State() == s.next && Events == old(Events) + s.events && ParentCalls == old(ParentCalls) + s.calls
    {
      if isBlindNavigation {
        isBlindNavigation := false;
        return;
      }
      if e.isNavigationIntercepted && IsLocked() {
        isBlindNavigation := true;
        ParentCalls := ParentCalls + [NavigateTo(uri, false, true)];
        Events := Events + [NavigationBlocked(e)];
        return;
      }
      isBlindNavigation := false;
      uri := e.location;
      Events := Events + [LocationChanged(LocationChangedEventArgs(uri, e.isNavigationIntercepted))];
    }

    method NavigateToCore(target: string, options: NavigationOptions)
      requires Valid()
      modifies this
      ensures Valid() && Handles == old(Handles) && browserExitHandler == old(browserExitHandler)
      ensures var s := NavigationSpec.NavigateToCore(old(State()), target, options);
        State() == s.next && Events == old(Events) + s.events && ParentCalls == old(ParentCalls) + s.calls
    {
      if IsLocked() {
        Events := Events + [NavigationBlocked(LocationChangedEventArgs(target, false))];
        return;
      }
      ParentCalls := ParentCalls + [NavigateToWithOptions(target, options)];
    }
  }

  /** Two locks taken, then both handles disposed, the first one twice: the manager ends
      unlocked, having raised IsLockedChanged exactly twice and called its parent never. */
  method LockLockUnlockUnlockScenario(uri: string) returns (m: LockableNavigationManager)
    ensures fresh(m) && m.Valid() && !m.IsLocked() && m.uri == uri
    ensures m.Events == [IsLockedChanged, IsLockedChanged] && m.ParentCalls == []
  {
    m := new LockableNavigationManager(uri);
    var first := m.LockNavigation();
    var second := m.LockNavigation();
    first.Dispose();
    first.Dispose();
    assert m.lockCount == 1 && m.Events == [IsLockedChanged];
    second.Dispose();
    assert m.Events == [IsLockedChanged] + [IsLockedChanged];
  }
}

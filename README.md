# Lockable navigation manager, in Dafny

This project models the lockable navigation manager of Mirality.Blazor.Routing. The manager is a
decorator over the framework's navigation manager. It holds four pieces of state:

- a reference-counted navigation lock;
- single-use unlock handles (`Unlocker`);
- one slot for a browser-exit handler;
- a "blind navigation" flag that lets the echo of its own corrective navigation pass unseen.

The project also models the two clients that map a boolean "should be locked" onto at most one
held handle: the `SetLockState` extension and the `PageLocker` component.

The project has three parts:

- `navigation_spec.dfy` (module `NavigationSpec`) is the specification. It is a value-level state
  machine: a `ManagerState` holds the count, the flag, the current Uri and the liveness of every
  handle issued so far. Each operation is a function from a state to a `Step`: the next state, the
  events raised, and the calls made on the parent manager. `Replay` runs a whole trace of inputs.
  The lemmas state what the operations promise, for one call and for every trace.
- `lockable_navigation_manager.dfy` (module `LockableNavigation`) holds the manager and its
  `Unlocker` as classes whose methods update their fields in place. Ghost logs record the events
  raised and the parent calls made. A ghost `Handles` sequence records which issued handles are
  still live. The `ensures` of `LockNavigation`, `UnlockNavigation`, `Unlocker.Dispose`,
  `ParentLocationChanged` and `NavigateToCore` tie the new state and the log suffixes to the
  matching specification function. The register and unregister methods tie the handler slot to
  theirs. All of these except `UnlockNavigation` keep the invariant that the lock count equals the
  number of live handles. `UnlockNavigation` is only ever run by `Unlocker.Dispose`. On its own it
  leaves the count one below the live handles, and `Dispose` then clears the handle's slot.
  `BrowserExitBlockedBy` has no specification function: its `ensures` states the event it appends
  directly.
- `lock_clients.dfy` holds two modules. `LockableNavigationExtensions.SetLockState` takes the
  caller's `ref` field as a parameter and returns its new value. `Components.PageLocker` is a class
  with the `_Lock` field.

Each upstream `LocationChanged` notification is a method parameter
`LocationChangedEventArgs(location, isNavigationIntercepted)`. Each parent `NavigateTo` is an entry
appended to the parent-call log. An echo is a later, separate call of the handler.

## Model

| member | source | states |
|---|---|---|
| NavigationSpec.LockNavigation | Internals/LockableNavigationManager.cs:57-64 | Appends one live handle and keeps the count equal to the live handles, leaving the manager locked. IsLockedChanged is raised exactly when IsLocked flips. The Uri, the flag and the parent are untouched. |
| NavigationSpec.UnlockNavigation | Internals/LockableNavigationManager.cs:66-72 | Count - 1. IsLockedChanged is raised exactly when IsLocked flips. The handles, Uri, flag and parent are untouched. |
| NavigationSpec.DisposeUnlocker | Internals/LockableNavigationManager.cs:31-35 | Marks the handle disposed and keeps the count equal to the live handles. IsLockedChanged is raised exactly when IsLocked flips. An unknown handle changes nothing. |
| NavigationSpec.ParentLocationChanged | Internals/LockableNavigationManager.cs:83-103 | The count and handles are untouched, and the Uri changes only to the notified location when not blind. A notification that is not swallowed and makes no parent call raises LocationChanged(e). The flag is set exactly when a parent call is made: the one replace-navigation to the old Uri. That happens only when intercepted while locked, and raises NavigationBlocked(e). |
| NavigationSpec.NavigateToCore | Internals/LockableNavigationManager.cs:112-123 | The state never changes. Exactly one of an event or a parent call happens, and the call is made exactly when unlocked. Any call forwards uri and options unchanged. |
| NavigationSpec.RegisterExitHandler | Internals/LockableNavigationManager.cs:42-47 | Registering fails, with HandlerAlreadyRegistered, exactly when a handler is already registered; otherwise the slot holds the new handler. |
| NavigationSpec.UnregisterExitHandler | Internals/LockableNavigationManager.cs:49-55 | Unregistering fails, with OtherHandlerRegistered, exactly when a different handler is registered; otherwise the slot ends empty. That covers the no-op on an empty slot. |
| NavigationSpec.SetLockAction | ILockableNavigationManager.cs:41-52 | After the toggle a handle is held exactly when the lock is wanted. A lock is taken only when none was held and released only when one was. |
| NavigationSpec.LiveCountAppend | Internals/LockableNavigationManager.cs:57-64 | Issuing a live handle adds exactly one to the number of outstanding handles. |
| NavigationSpec.LiveCountClear | Internals/LockableNavigationManager.cs:31-35 | Disposing one live handle removes exactly one from the number of outstanding handles. |
| NavigationSpec.LiveCountPositive | Internals/LockableNavigationManager.cs:40 | The number of outstanding handles is positive exactly when some issued handle is still live. |
| NavigationSpec.LockedChangedCountAppend | Internals/LockableNavigationManager.cs:57-72 | IsLockedChanged events in two concatenated logs add up. |
| NavigationSpec.StepKeepsConsistent | Internals/LockableNavigationManager.cs:57-72 | Every lock, dispose, notification or navigation keeps the count equal to the outstanding handles. It raises IsLockedChanged once when IsLocked flips and never otherwise. |
| NavigationSpec.ReplayKeepsConsistent | Internals/LockableNavigationManager.cs:40 | Over any trace, the count stays equal to the outstanding handles and never goes negative. IsLocked holds exactly while some handle is undisposed. |
| NavigationSpec.ReplayLockedChangedParity | Internals/LockableNavigationManager.cs:57-72 | Over any trace, the number of IsLockedChanged events is odd exactly when IsLocked differs between start and end. |
| NavigationSpec.LockLockUnlockUnlock | Internals/LockableNavigationManager.cs:57-72 | Lock, lock, dispose both: the manager is unlocked, with exactly two IsLockedChanged events and no parent call. |
| NavigationSpec.DisposeTwiceIsDisposeOnce | Internals/LockableNavigationManager.cs:31-35 | A second dispose of the same handle changes nothing and raises nothing. |
| NavigationSpec.LockThenDisposeRestoresCount | Internals/LockableNavigationManager.cs:57-72 | A lock leaves the manager locked. Disposing the handle it issued restores the count. The pair raises two IsLockedChanged events from unlocked and none from locked. |
| NavigationSpec.EchoIsSwallowed | Internals/LockableNavigationManager.cs:85-89 | With the blind flag set, a notification only clears the flag: no Uri change, no event, no parent call. |
| NavigationSpec.InterceptedWhileLockedIsReverted | Internals/LockableNavigationManager.cs:91-98 | An intercepted notification while locked sets the flag and makes one NavigateTo(old Uri, false, true). It raises NavigationBlocked with the notification and keeps the Uri. |
| NavigationSpec.OtherNotificationIsAccepted | Internals/LockableNavigationManager.cs:100-102 | Any other notification sets the Uri to its location and clears the flag. It raises LocationChanged with the same location and interception flag, and makes no parent call. |
| NavigationSpec.RevertThenEchoRestoresState | Internals/LockableNavigationManager.cs:85-98 | A revert followed by its echo returns the manager to exactly its previous state, with one NavigationBlocked and one replace call. |
| NavigationSpec.NavigateToCoreOutcomes | Internals/LockableNavigationManager.cs:112-123 | While locked: NavigationBlocked(uri, false) and no parent call. While unlocked: uri and options are forwarded unchanged with no event. The state never changes. |
| NavigationSpec.LockedReplayKeepsLocation | Internals/LockableNavigationManager.cs:83-123 | While a lock is held and every upstream change is intercepted, the Uri never changes and the manager stays locked. No LocationChanged is raised, and every parent call is a replace-navigation to the locked Uri. |
| NavigationSpec.UnregisterThenRegister | Internals/LockableNavigationManager.cs:42-55 | After an unregistration that did not fail, any handler can be registered. |
| NavigationSpec.SetLockActionIdempotent | ILockableNavigationManager.cs:41-52 | Repeating the toggle with the same wish takes and releases nothing. |
| LockableNavigation.LockableNavigationManager.constructor | Internals/LockableNavigationManager.cs:8-12 | A new manager is unlocked and not blind. It has the parent's Uri, an empty handler slot, and empty logs. |
| LockableNavigation.LockableNavigationManager.IsLocked | Internals/LockableNavigationManager.cs:40 | Locked exactly when some issued handle has not been disposed. |
| LockableNavigation.LockableNavigationManager.RegisterBrowserExitHandler | Internals/LockableNavigationManager.cs:42-47 | Fills an empty slot, or reports HandlerAlreadyRegistered and keeps the old one; nothing else changes. |
| LockableNavigation.LockableNavigationManager.UnregisterBrowserExitHandler | Internals/LockableNavigationManager.cs:49-55 | Empties the slot for its own handler, does nothing on an empty slot, and reports OtherHandlerRegistered otherwise. |
| LockableNavigation.LockableNavigationManager.BrowserExitBlockedBy | Internals/LockableNavigationManager.cs:78-81 | A blocked browser exit reported by the registered handler is re-raised once; one from any other handler is not heard. |
| LockableNavigation.LockableNavigationManager.LockNavigation | Internals/LockableNavigationManager.cs:57-64 | Count + 1, with IsLockedChanged only when it becomes 1. Returns a fresh live handle for the next slot and keeps the count equal to the live handles. |
| LockableNavigation.LockableNavigationManager.UnlockNavigation | Internals/LockableNavigationManager.cs:66-72 | Follows the UnlockNavigation specification step: count - 1, with IsLockedChanged only when IsLocked flips. Nothing else changes. |
| LockableNavigation.Unlocker.Dispose | Internals/LockableNavigationManager.cs:31-35 | The first dispose unlocks once and clears the handle; later ones change nothing. The count stays equal to the live handles. |
| LockableNavigation.LockableNavigationManager.ParentLocationChanged | Internals/LockableNavigationManager.cs:83-103 | Follows the swallow / revert / accept decision of the specification. It keeps the handles, the handler slot and the count invariant. |
| LockableNavigation.LockableNavigationManager.NavigateToCore | Internals/LockableNavigationManager.cs:112-123 | Reports NavigationBlocked while locked, otherwise appends the forwarded call; the state is unchanged. |
| LockableNavigation.LockLockUnlockUnlockScenario | Internals/LockableNavigationManager.cs:31-72 | On objects: two locks, a double dispose of the first handle, then the second. The manager ends unlocked, with exactly two IsLockedChanged events and no parent call. |
| LockableNavigationExtensions.SetLockState | ILockableNavigationManager.cs:41-52 | Afterwards the field is non-null exactly when the lock is wanted. A null field and a wanted lock take exactly one new lock. A live field and an unwanted lock dispose that handle once. Otherwise nothing changes. |
| Components.PageLocker.constructor | PageLocker.cs:5-11 | A new component holds no lock. |
| Components.PageLocker.OnParametersSet | PageLocker.cs:18-31 | Acquires exactly one lock when IsLocked is set and none is held, and disposes and clears a held lock when IsLocked is clear. Otherwise it changes nothing. Afterwards a lock is held exactly when IsLocked is set. |
| Components.PageLocker.Dispose | PageLocker.cs:13-16 | Disposes the held handle if any. The manager's count drops by one exactly when that handle was still live, and by nothing otherwise. |

## Left out

- The manager's own `Dispose` (unsubscribing from the parent's LocationChanged event) is not modelled, because the model has no event subscription list.
- `EnsureInitialized` and the framework's Uri handling (base Uri, `ToAbsoluteUri`, `NotifyLocationChanged` internals) are framework code and are not part of this model. The Uri is a plain string that the constructor takes from the parent.
- The `Interlocked` increment and decrement are modelled as plain sequential updates, so thread-safety is not captured.
- NavigationSpec.ReplayKeepsConsistent: the lock count is an unbounded integer. In the source, `_NavigationLockCount` is a 32-bit `int` that wraps to `int.MinValue` after 2^31 - 1 outstanding locks, and then `IsLocked` is false while handles are still live. So "IsLocked exactly while some handle is live" holds of the source only below that many outstanding locks.
- LockableNavigation.LockableNavigationManager.LockNavigation: does not model the 32-bit wrap-around of the count, for the same reason.
- Events are modelled as entries appended to a ghost log, not as multicast delegates with subscribers. The log is appended even when no subscriber exists.
- Events and parent calls go to two separate logs. Their relative order within one call is not recorded. The parent's `NavigateTo` is not re-entrant: its echo is a later, separate notification.
- The browser-exit subscription made on registration is modelled by `BrowserExitBlockedBy`, which re-raises only for the registered handler.
- `BrowserExitLock.cs`, `wwwroot/browserexit.js`, `Internals/HotReloadManager.cs`, `NavigationManagerExtensions.cs`, `Internals/DefaultNavigationManager.cs`, `Internals/NullLockableNavigationManager.cs` and `ICustomNavigationManager.cs` are not part of this model. They are JavaScript interop, hot-reload plumbing, dependency-injection registration, pass-through wrappers and an interface without logic.
- Thrown `InvalidOperationException`s are returned as an `ExitHandlerError` value; the exception message text is not modelled.
- LockableNavigationExtensions.SetLockState: requires the handle in the field to have been issued by the same manager. The source accepts any `IDisposable` there.
- Components.PageLocker.Dispose: like the source, leaves the spent handle in `_Lock`. Only that handle's action is cleared.
- `Unlocker.Dispose`: a second dispose does nothing, because `_Action` is cleared after the first invoke (Internals/LockableNavigationManager.cs:33-34).

/**
 * The session manager of src/auth.js. The object keeps whether the session is
 * active and the handle of its lock timer. The host's timer queue is
 * represented by the set of lock-timer handles still pending and the next
 * handle `setTimeout` will give out; a timer firing is an explicit event
 * (`FireLockTimer`). The first login's five-second deferred step, which
 * activates the session after the new password is stored, is a second kind of
 * pending event (`FireActivation`).
 */
module Auth {
  import opened Common
  import opened Storage
  import Text
  import Utils

  /** The timers `clearTimeout(t)` cancels: none for `null`. */
  function Handles(t: Option<nat>): (hs: set<nat>)
    ensures |hs| <= 1
  {
    if t.Some? then {t.value} else {}
  }

  /** When the pending lock timers are among those the `lockTimer` field names, at most one is pending. */
  lemma AtMostOnePending(pending: set<nat>, t: Option<nat>)
    requires pending <= Handles(t)
    ensures |pending| <= 1
    ensures pending != {} ==> pending == {t.value}
  {
    if t.Some? && t.value in pending {
      assert pending == {t.value};
    } else {
      assert pending == {};
    }
  }

  /** What `loginHandler` reports to the user. */
  datatype LoginOutcome =
    | EmptyPassword      // "Password cannot be empty!"
    | StorageError       // the write of the first password failed
    | PasswordSet        // "Password set successfully!"; the session opens five seconds later
    | Unlocked           // the password matched the stored hash
    | IncorrectPassword  // "Incorrect password!"

  class Auth {
    /** The `chrome.storage.sync` area the manager reads and writes. */
    const store: Store
    var sessionActive: bool
    /** The handle of the last lock timer scheduled, `null` before the first. */
    var lockTimer: Option<nat>
    /** The lock timers scheduled and neither cleared nor fired. */
    var pendingTimers: set<nat>
    /** The handle the next `setTimeout` returns. */
    var nextHandle: nat
    /** The deferred unlock steps that a first login scheduled and that have not run yet. */
    var pendingActivations: nat

    /** Only the timer named by `lockTimer` can be pending, and handles are never reused. */
    ghost predicate Valid()
      reads this
    {
      && pendingTimers <= Handles(lockTimer)
      && (lockTimer.Some? ==> lockTimer.value < nextHandle)
    }

    /** `new Auth()`: the session is inactive and no lock timer is set. */
    constructor (store: Store)
      ensures Valid()
      ensures this.store == store
      ensures !sessionActive && lockTimer == None && pendingTimers == {} && pendingActivations == 0
    {
      this.store := store;
      lockTimer := None;
      sessionActive := false;
      pendingTimers := {};
      nextHandle := 1;
      pendingActivations := 0;
    }

    /** `startLockTimer()`: cancels the pending lock timer, if any, and schedules a new one, which
      * is then the only one pending. */
    method StartLockTimer()
      requires Valid()
      modifies this
      ensures Valid()
      ensures old(nextHandle) !in old(pendingTimers)
      ensures lockTimer == Some(old(nextHandle)) && pendingTimers == {old(nextHandle)}
      ensures nextHandle == old(nextHandle) + 1
      ensures sessionActive == old(sessionActive) && pendingActivations == old(pendingActivations)
    {
      pendingTimers := pendingTimers - Handles(lockTimer);
      var handle := nextHandle;
      nextHandle := nextHandle + 1;
      pendingTimers := pendingTimers + {handle};
      lockTimer := Some(handle);
    }

    /** `lockExtension()`: cancels the lock timer and stores `sessionActive: false`; the session
      * becomes inactive only once that write succeeds. */
    method LockExtension(ok: bool)
      requires Valid()
      modifies this, store
      ensures Valid()
      ensures pendingTimers == {}
      ensures lockTimer == old(lockTimer) && nextHandle == old(nextHandle)
      ensures pendingActivations == old(pendingActivations)
      ensures ok ==> store.items == old(store.items) + map[SessionActiveKey := Bool(false)] && !sessionActive
      ensures !ok ==> store.items == old(store.items) && sessionActive == old(sessionActive)
    {
      AtMostOnePending(pendingTimers, lockTimer);
      pendingTimers := pendingTimers - Handles(lockTimer);
      store.Set(map[SessionActiveKey := Bool(false)], ok);
      if ok {
        sessionActive := false;
      }
    }

    /** The pending lock timer runs out: the host drops it and calls `lockExtension()`. Only the
      * timer that `lockTimer` names can be the one that fires. */
    method FireLockTimer(handle: nat, ok: bool)
      requires Valid() && handle in pendingTimers
      modifies this, store
      ensures Valid()
      ensures old(lockTimer) == Some(handle)
      ensures pendingTimers == {}
      ensures lockTimer == old(lockTimer) && nextHandle == old(nextHandle)
      ensures pendingActivations == old(pendingActivations)
      ensures ok ==> store.items == old(store.items) + map[SessionActiveKey := Bool(false)] && !sessionActive
      ensures !ok ==> store.items == old(store.items) && sessionActive == old(sessionActive)
    {
      pendingTimers := pendingTimers - {handle};
      LockExtension(ok);
    }

    /** `checkSession()`: reads the stored flag, absent meaning false, and when the session is
      * active restarts the lock timer. */
    method CheckSession()
      requires Valid()
      modifies this
      ensures Valid()
      ensures sessionActive == Truthy(Get(store.items, SessionActiveKey))
      ensures sessionActive ==> lockTimer == Some(old(nextHandle)) && pendingTimers == {old(nextHandle)}
      ensures !sessionActive ==> lockTimer == old(lockTimer) && pendingTimers == old(pendingTimers) && nextHandle == old(nextHandle)
      ensures pendingActivations == old(pendingActivations)
    {
      sessionActive := Truthy(Get(store.items, SessionActiveKey));
      if sessionActive {
        StartLockTimer();
      }
    }

    /** `loginHandler()` on the text of the password field. An empty password (after trimming)
      * changes nothing. When the stored hash is exactly `null` the hash of the password is stored
      * together with `sessionActive: true`, and the session opens in a deferred step. Otherwise
      * the session opens, and the lock timer restarts, exactly when the hash of the password
      * equals the stored one; nothing is written. */
    method LoginHandler(input: string, c: Utils.Crypto, ok: bool) returns (outcome: LoginOutcome)
      requires Valid()
      modifies this, store
      ensures Valid()
      ensures outcome == EmptyPassword <==> Text.Trim(input) == []
      ensures outcome == PasswordSet ==> Get(old(store.items), HashKey) == Some(Null) && ok
      ensures outcome == PasswordSet ==>
        store.items == old(store.items) + map[HashKey := Text(Utils.HashPassword(c, Text.Trim(input))), SessionActiveKey := Bool(true)]
      ensures outcome == PasswordSet <==> pendingActivations == old(pendingActivations) + 1
      ensures outcome != PasswordSet ==> store.items == old(store.items) && pendingActivations == old(pendingActivations)
      ensures Text.Trim(input) != [] && Get(old(store.items), HashKey) == Some(Null) ==>
        outcome == (if ok then PasswordSet else StorageError)
      ensures Text.Trim(input) != [] && Get(old(store.items), HashKey) != Some(Null) ==>
        (outcome == Unlocked <==> Get(old(store.items), HashKey) == Some(Text(Utils.HashPassword(c, Text.Trim(input)))))
      ensures Text.Trim(input) != [] && Get(old(store.items), HashKey) != Some(Null) ==>
        outcome in {Unlocked, IncorrectPassword}
      ensures outcome == Unlocked ==>
        sessionActive && lockTimer == Some(old(nextHandle)) && pendingTimers == {old(nextHandle)}
      ensures outcome != Unlocked ==>
        sessionActive == old(sessionActive) && lockTimer == old(lockTimer) && pendingTimers == old(pendingTimers)
    {
      var password := Text.Trim(input);
      var hash := Utils.HashPassword(c, password);
      if password == [] {
        return EmptyPassword;
      }
      var storedHash := Get(store.items, HashKey);
      if storedHash == Some(Null) {
        store.Set(map[HashKey := Text(hash), SessionActiveKey := Bool(true)], ok);
        if !ok {
          return StorageError;
        }
        pendingActivations := pendingActivations + 1;
        return PasswordSet;
      } else if storedHash == Some(Text(hash)) {
        sessionActive := true;
        StartLockTimer();
        return Unlocked;
      } else {
        return IncorrectPassword;
      }
    }

    /** The deferred step of a first login runs: the session opens and the lock timer starts. */
    method FireActivation()
      requires Valid() && pendingActivations > 0
      modifies this
      ensures Valid()
      ensures sessionActive && pendingActivations == old(pendingActivations) - 1
      ensures lockTimer == Some(old(nextHandle)) && pendingTimers == {old(nextHandle)}
    {
      pendingActivations := pendingActivations - 1;
      sessionActive := true;
      StartLockTimer();
    }
  }
}

/**
 * `useAuth`: unlocking against the SHA-256 verifier kept in the
 * master-hash slot, enrolling the first password, and locking. The React
 * state is a plain record and `localStorage` a map.
 */
module Auth {
  import opened Types
  import opened Platform
  import opened Storage
  import opened Validation
  import opened Encryption

  datatype AuthState = AuthState(isUnlocked: bool, masterPassword: string, error: string, isLoading: bool)

  /** The hook's initial `useState` values. */
  const Initial := AuthState(false, "", "", false)

  const IncorrectMessage: string := "Incorrect master password"

  /** The state after `unlock`, the storage after it, and the boolean it resolves to. */
  datatype Unlocked = Unlocked(state: AuthState, store: Store, ok: bool)

  /**
   * `unlock(password)`: the password is validated first; with an empty
   * master-hash slot its verifier is stored and the vault opens; otherwise
   * it opens only when the verifiers agree.
   */
  function Unlock(p: Platform, s: AuthState, store: Store, password: string): (r: Unlocked)
    ensures !r.state.isLoading
    ensures r.ok ==> r.state.isUnlocked && r.state.masterPassword == password && r.state.error == ""
    ensures !r.ok ==> r.state.isUnlocked == s.isUnlocked && r.state.masterPassword == s.masterPassword
  {
    var check := ValidateMasterPassword(password);
    if !check.Valid? then
      Unlocked(s.(error := check.message, isLoading := false), store, false)
    else
      var current := HashPassword(p, password);
      if SlotEmpty(store, MasterHashKey) then
        Unlocked(s.(isUnlocked := true, masterPassword := password, error := "", isLoading := false),
                 SetItem(store, MasterHashKey, current), true)
      else if GetItem(store, MasterHashKey) == Some(current) then
        Unlocked(s.(isUnlocked := true, masterPassword := password, error := "", isLoading := false), store, true)
      else
        Unlocked(s.(error := IncorrectMessage, isLoading := false), store, false)
  }

  /** `unlock` succeeds exactly for a valid password that is enrolled now or matches the stored verifier. */
  lemma UnlockOkIff(p: Platform, s: AuthState, store: Store, password: string)
    ensures Unlock(p, s, store, password).ok <==>
      |password| >= RecommendedLength
      && (SlotEmpty(store, MasterHashKey) || GetItem(store, MasterHashKey) == Some(HashPassword(p, password)))
  {}

  /** A password the validator refuses changes nothing but the error, which is the validator's message. */
  lemma UnlockRejectsInvalid(p: Platform, s: AuthState, store: Store, password: string)
    requires |password| < RecommendedLength
    ensures var r := Unlock(p, s, store, password);
      && !r.ok && r.store == store
      && r.state == s.(error := ValidateMasterPassword(password).message, isLoading := false)
  {}

  /** With no verifier stored, a valid password is enrolled: its verifier is written and the vault opens. */
  lemma UnlockEnrols(p: Platform, s: AuthState, store: Store, password: string)
    requires |password| >= RecommendedLength && SlotEmpty(store, MasterHashKey)
    ensures var r := Unlock(p, s, store, password);
      && r.ok && r.state.isUnlocked && r.state.masterPassword == password
      && GetItem(r.store, MasterHashKey) == Some(HashPassword(p, password))
      && forall k :: k != MasterHashKey ==> GetItem(r.store, k) == GetItem(store, k)
  {}

  /** A wrong password leaves the vault as it was and reports the mismatch. */
  lemma UnlockMismatch(p: Platform, s: AuthState, store: Store, password: string)
    requires |password| >= RecommendedLength && !SlotEmpty(store, MasterHashKey)
    requires GetItem(store, MasterHashKey) != Some(HashPassword(p, password))
    ensures var r := Unlock(p, s, store, password);
      && !r.ok && r.store == store && r.state.error == IncorrectMessage
      && r.state.isUnlocked == s.isUnlocked
  {}

  /** Once a verifier is stored, no `unlock` writes storage. */
  lemma StoredHashKept(p: Platform, s: AuthState, store: Store, password: string)
    requires !SlotEmpty(store, MasterHashKey)
    ensures Unlock(p, s, store, password).store == store
  {}

  /** `lock()`: closes the vault and forgets the password; storage is not touched. */
  function Lock(s: AuthState): (r: AuthState)
    ensures !r.isUnlocked && r.masterPassword == "" && r.error == ""
    ensures r.isLoading == s.isLoading
  {
    s.(isUnlocked := false, masterPassword := "", error := "")
  }

  /** What the hook can be asked to do. */
  datatype Action = DoUnlock(password: string) | DoLock

  /** One action; only the master-hash slot can change, and only while it is empty. */
  function Step(p: Platform, s: AuthState, store: Store, a: Action): (r: (AuthState, Store))
    ensures forall k :: k != MasterHashKey ==> GetItem(r.1, k) == GetItem(store, k)
    ensures !SlotEmpty(store, MasterHashKey) ==> r.1 == store
  {
    match a
    case DoUnlock(password) =>
      var r := Unlock(p, s, store, password);
      (r.state, r.store)
    case DoLock => (Lock(s), store)
  }

  /** Runs actions in order from a state and storage. */
  function Run(p: Platform, s: AuthState, store: Store, actions: seq<Action>): (r: (AuthState, Store))
    ensures forall k :: k != MasterHashKey ==> GetItem(r.1, k) == GetItem(store, k)
    ensures !SlotEmpty(store, MasterHashKey) ==> r.1 == store
    decreases |actions|
  {
    if |actions| == 0 then (s, store)
    else
      var next := Step(p, s, store, actions[0]);
      Run(p, next.0, next.1, actions[1..])
  }

  /**
   * The vault is open only with a password whose verifier is the stored
   * one, and that password passed validation.
   */
  predicate Consistent(p: Platform, s: AuthState, store: Store)
  {
    s.isUnlocked ==>
      && GetItem(store, MasterHashKey) == Some(HashPassword(p, s.masterPassword))
      && |s.masterPassword| >= RecommendedLength
  }

  /** `unlock` keeps the state consistent with storage. */
  lemma UnlockConsistent(p: Platform, s: AuthState, store: Store, password: string)
    requires Consistent(p, s, store)
    ensures Consistent(p, Unlock(p, s, store, password).state, Unlock(p, s, store, password).store)
  {
    var r := Unlock(p, s, store, password);
    if !r.ok {
      assert r.store == store && r.state.masterPassword == s.masterPassword && r.state.isUnlocked == s.isUnlocked;
    }
  }

  /** Every action keeps the state consistent with storage. */
  lemma StepConsistent(p: Platform, s: AuthState, store: Store, a: Action)
    requires Consistent(p, s, store)
    ensures Consistent(p, Step(p, s, store, a).0, Step(p, s, store, a).1)
  {
    match a
    case DoLock =>
    case DoUnlock(password) =>
      UnlockConsistent(p, s, store, password);
  }

  /** From the initial state, any run of unlocks and locks leaves the state consistent with storage. */
  lemma {:induction false} RunConsistent(p: Platform, s: AuthState, store: Store, actions: seq<Action>)
    requires Consistent(p, s, store)
    ensures Consistent(p, Run(p, s, store, actions).0, Run(p, s, store, actions).1)
    decreases |actions|
  {
    if |actions| > 0 {
      StepConsistent(p, s, store, actions[0]);
      var next := Step(p, s, store, actions[0]);
      RunConsistent(p, next.0, next.1, actions[1..]);
    }
  }

  /** The initial state is consistent with any storage. */
  lemma InitialConsistent(p: Platform, store: Store)
    ensures Consistent(p, Initial, store)
  {}
}

/**
 * `usePasswordManager`: the record list kept in memory and, encrypted under
 * the master password, in the encrypted-data slot. Every change builds a
 * new list and saves it whole; the in-memory list follows only when the
 * save went through.
 */
module Vault {
  import opened Types
  import opened Platform
  import opened Records
  import opened Storage
  import opened Validation
  import Encryption

  datatype VaultState = VaultState(passwords: seq<Record>, store: Store)

  /**
   * What a save needs from its surroundings: the salt and IV `encrypt`
   * draws, and whether encrypting and `setItem` went through (`false` when
   * either throws, for instance on a full storage quota).
   */
  datatype SaveEnv = SaveEnv(salt: Encryption.Salt, iv: Encryption.Iv, writeOk: bool)

  /** The encrypted-data slot's content for a list. */
  function Sealed(p: Platform, masterPassword: string, list: seq<Record>, env: SaveEnv): string
  {
    Encryption.Encrypt(p, p.jsonStringify(ToJson(list)), masterPassword, env.salt, env.iv)
  }

  /** `savePasswords(updated)`: the new state and the boolean it resolves to. */
  function Save(p: Platform, st: VaultState, masterPassword: string, list: seq<Record>, env: SaveEnv): (r: (VaultState, bool))
    ensures r.1 ==> r.0.passwords == list
    ensures r.1 ==> GetItem(r.0.store, EncryptedDataKey) == Some(Sealed(p, masterPassword, list, env))
    ensures r.1 ==> forall k :: k != EncryptedDataKey ==> GetItem(r.0.store, k) == GetItem(st.store, k)
    ensures !r.1 ==> r.0 == st
  {
    if env.writeOk then
      (VaultState(list, SetItem(st.store, EncryptedDataKey, Sealed(p, masterPassword, list, env))), true)
    else
      (st, false)
  }

  /** What `addPassword` resolves to; `Threw` is the rejection of a validator `TypeError`. */
  datatype AddResult = Added(success: bool) | Rejected(error: string) | Threw

  /** `{...entry, id: Date.now(), createdAt: new Date().toISOString()}`. */
  function Stamp(entry: Record, id: int, createdAt: string): (r: Record)
    ensures HasId(r, id) && Field(r, "createdAt") == Some(Str(createdAt))
    ensures forall k :: k != "id" && k != "createdAt" ==> Field(r, k) == Field(entry, k)
  {
    Merge(entry, map["id" := Num(id), "createdAt" := Str(createdAt)])
  }

  /** `addPassword(entry)` at clock reading `id` and time stamp `createdAt`. */
  function Add(p: Platform, st: VaultState, masterPassword: string, entry: Record, id: int, createdAt: string, env: SaveEnv)
    : (r: (VaultState, AddResult))
    ensures r.1.Added? <==> EntryFilled(entry)
    ensures r.1 != Added(true) ==> r.0 == st
    ensures r.1.Rejected? ==> r.1.error in {SiteMessage, UsernameMessage, PasswordMessage}
  {
    ValidatePasswordEntryIff(entry);
    match ValidatePasswordEntry(entry)
    case Invalid(message) =>
      InvalidEntryMessage(entry);
      (st, Rejected(message))
    case Throws => (st, Threw)
    case Valid =>
      var saved := Save(p, st, masterPassword, st.passwords + [Stamp(entry, id, createdAt)], env);
      (saved.0, Added(saved.1))
  }

  /** An entry the validator refuses leaves list and storage as they were and reports its message. */
  lemma AddRejects(p: Platform, st: VaultState, masterPassword: string, entry: Record, id: int, createdAt: string, env: SaveEnv)
    requires !EntryFilled(entry)
    ensures Add(p, st, masterPassword, entry, id, createdAt, env).0 == st
    ensures Add(p, st, masterPassword, entry, id, createdAt, env).1.Rejected?
            || Add(p, st, masterPassword, entry, id, createdAt, env).1.Threw?
  {
    ValidatePasswordEntryIff(entry);
  }

  /**
   * A filled entry that is saved is appended, stamped with `id` and
   * `createdAt`, after the earlier records, which stay as they were.
   */
  lemma AddAppends(p: Platform, st: VaultState, masterPassword: string, entry: Record, id: int, createdAt: string, env: SaveEnv)
    requires EntryFilled(entry) && env.writeOk
    ensures var r := Add(p, st, masterPassword, entry, id, createdAt, env);
      && r.1 == Added(true)
      && |r.0.passwords| == |st.passwords| + 1
      && r.0.passwords[..|st.passwords|] == st.passwords
      && HasId(r.0.passwords[|st.passwords|], id)
      && forall k :: k != "id" && k != "createdAt" ==> Field(r.0.passwords[|st.passwords|], k) == Field(entry, k)
  {
    ValidatePasswordEntryIff(entry);
  }

  /** `passwords.filter(p => p.id !== id)`. */
  function Without(list: seq<Record>, id: int): (r: seq<Record>)
    ensures |r| <= |list|
  {
    if |list| == 0 then []
    else if HasId(list[|list| - 1], id) then Without(list[..|list| - 1], id)
    else Without(list[..|list| - 1], id) + [list[|list| - 1]]
  }

  /** The records kept are exactly the listed ones without the id. */
  lemma {:induction false} WithoutMembers(list: seq<Record>, id: int)
    ensures forall r :: r in Without(list, id) <==> r in list && !HasId(r, id)
  {
    if |list| > 0 {
      WithoutMembers(list[..|list| - 1], id);
      FrontLast(list);
    }
  }

  /** Removing distributes over concatenation, so the kept records stay in their order. */
  lemma {:induction false} WithoutAppend(xs: seq<Record>, ys: seq<Record>, id: int)
    ensures Without(xs + ys, id) == Without(xs, id) + Without(ys, id)
    decreases |ys|
  {
    if |ys| == 0 {
      assert xs + ys == xs;
    } else {
      var front := ys[..|ys| - 1];
      assert (xs + ys)[..|xs + ys| - 1] == xs + front;
      assert (xs + ys)[|xs + ys| - 1] == ys[|ys| - 1];
      WithoutAppend(xs, front, id);
    }
  }

  /** A list in which no record has the id is left as it is. */
  lemma {:induction false} WithoutAbsent(list: seq<Record>, id: int)
    requires forall k :: 0 <= k < |list| ==> !HasId(list[k], id)
    ensures Without(list, id) == list
  {
    if |list| > 0 {
      WithoutAbsent(list[..|list| - 1], id);
      FrontLast(list);
    }
  }

  /** `deletePassword(id)`. */
  function Delete(p: Platform, st: VaultState, masterPassword: string, id: int, env: SaveEnv): (r: VaultState)
    ensures forall x :: x in r.passwords ==> x in st.passwords
    ensures forall k :: k != EncryptedDataKey ==> GetItem(r.store, k) == GetItem(st.store, k)
  {
    WithoutMembers(st.passwords, id);
    Save(p, st, masterPassword, Without(st.passwords, id), env).0
  }

  /**
   * A saved deletion leaves in memory exactly the records without the id,
   * in their order (the filter `Without`, which `WithoutAppend` shows keeps
   * the order); a failed one leaves the state as it was.
   */
  lemma DeleteRemoves(p: Platform, st: VaultState, masterPassword: string, id: int, env: SaveEnv)
    ensures var after := Delete(p, st, masterPassword, id, env);
      && (env.writeOk ==> after.passwords == Without(st.passwords, id))
      && (env.writeOk ==> forall r :: r in after.passwords <==> r in st.passwords && !HasId(r, id))
      && (!env.writeOk ==> after == st)
  {
    WithoutMembers(st.passwords, id);
  }

  /** `passwords.map(p => p.id === id ? {...p, ...updated} : p)`. */
  function Updated(list: seq<Record>, id: int, u: Record): (r: seq<Record>)
    ensures |r| == |list|
  {
    seq(|list|, k requires 0 <= k < |list| => if HasId(list[k], id) then Merge(list[k], u) else list[k])
  }

  /** Updating twice with the same fields is updating once. */
  lemma UpdatedIdempotent(list: seq<Record>, id: int, u: Record)
    ensures Updated(Updated(list, id, u), id, u) == Updated(list, id, u)
  {
    var once := Updated(list, id, u);
    forall k | 0 <= k < |list|
      ensures Updated(once, id, u)[k] == once[k]
    {
      if HasId(once[k], id) && HasId(list[k], id) {
        assert Merge(Merge(list[k], u), u) == Merge(list[k], u);
      }
    }
  }

  /**
   * An update that does not set `id` touches only records a deletion of
   * that id removes: deleting afterwards gives the same list as deleting
   * alone.
   */
  lemma {:induction false} UpdateThenDelete(list: seq<Record>, id: int, u: Record)
    requires "id" !in u
    ensures Without(Updated(list, id, u), id) == Without(list, id)
  {
    if |list| > 0 {
      var front := list[..|list| - 1];
      var last := list[|list| - 1];
      UpdateThenDelete(front, id, u);
      assert Updated(list, id, u)[..|list| - 1] == Updated(front, id, u);
      assert HasId(Updated(list, id, u)[|list| - 1], id) <==> HasId(last, id);
    }
  }

  /** `updatePassword(id, updated)`. */
  function Update(p: Platform, st: VaultState, masterPassword: string, id: int, u: Record, env: SaveEnv): (r: VaultState)
    ensures |r.passwords| == |st.passwords|
    ensures forall k :: k != EncryptedDataKey ==> GetItem(r.store, k) == GetItem(st.store, k)
    ensures !env.writeOk ==> r == st
  {
    Save(p, st, masterPassword, Updated(st.passwords, id, u), env).0
  }

  /**
   * A saved update keeps the length; a record without the id stays as it
   * was, and one with the id takes every field `u` sets and keeps the rest.
   */
  lemma UpdateChanges(p: Platform, st: VaultState, masterPassword: string, id: int, u: Record, env: SaveEnv)
    requires env.writeOk
    ensures var after := Update(p, st, masterPassword, id, u, env).passwords;
      && |after| == |st.passwords|
      && (forall k :: 0 <= k < |after| && !HasId(st.passwords[k], id) ==> after[k] == st.passwords[k])
      && (forall k, f :: 0 <= k < |after| && HasId(st.passwords[k], id) ==>
            Field(after[k], f) == if f in u then Some(u[f]) else Field(st.passwords[k], f))
  {
  }

  /** What `loadPasswords` leads to; `NotAList` is a plaintext that parses to something other than a record list. */
  datatype Loaded = Loaded(state: VaultState) | NotAList(value: Json)

  /**
   * `loadPasswords()`: nothing happens without stored data and a master
   * password, or when decryption gives `null` or the empty string; text
   * that does not parse empties the list.
   */
  function Load(p: Platform, st: VaultState, masterPassword: string): (r: Loaded)
    ensures r.Loaded? ==> r.state.store == st.store
    ensures r.NotAList? ==> AsRecords(r.value).None?
    ensures SlotEmpty(st.store, EncryptedDataKey) || masterPassword == "" ==> r == Loaded(st)
  {
    var encrypted := GetItem(st.store, EncryptedDataKey);
    if SlotEmpty(st.store, EncryptedDataKey) || masterPassword == "" then Loaded(st)
    else
      match Encryption.Decrypt(p, encrypted.value, masterPassword)
      case None => Loaded(st)
      case Some(text) =>
        if text == "" then Loaded(st)
        else
          match p.jsonParse(text)
          case None => Loaded(st.(passwords := []))
          case Some(v) =>
            match AsRecords(v)
            case None => NotAList(v)
            case Some(list) => Loaded(st.(passwords := list))
  }

  /** A password that cannot open the stored data leaves the list as it was. */
  lemma LoadKeepsOnFailure(p: Platform, st: VaultState, masterPassword: string)
    requires !SlotEmpty(st.store, EncryptedDataKey) && masterPassword != ""
    requires Encryption.Decrypt(p, GetItem(st.store, EncryptedDataKey).value, masterPassword).None?
    ensures Load(p, st, masterPassword) == Loaded(st)
  {}

  /** Decrypted text that is not JSON empties the list; storage is not touched. */
  lemma LoadUnparsable(p: Platform, st: VaultState, masterPassword: string)
    requires !SlotEmpty(st.store, EncryptedDataKey) && masterPassword != ""
    requires var text := Encryption.Decrypt(p, GetItem(st.store, EncryptedDataKey).value, masterPassword);
      text.Some? && text.value != "" && p.jsonParse(text.value).None?
    ensures Load(p, st, masterPassword) == Loaded(VaultState([], st.store))
  {}

  /** A list saved under a non-empty master password is loaded back under it, whatever was in memory. */
  lemma SaveThenLoad(p: Platform, st: VaultState, other: seq<Record>, masterPassword: string, list: seq<Record>, env: SaveEnv)
    requires p.Valid() && masterPassword != "" && env.writeOk
    ensures var saved := Save(p, st, masterPassword, list, env).0;
      Load(p, saved.(passwords := other), masterPassword) == Loaded(saved)
  {
    var saved := Save(p, st, masterPassword, list, env).0;
    var json := p.jsonStringify(ToJson(list));
    var sealed := Sealed(p, masterPassword, list, env);
    assert |sealed| > 0;
    Encryption.DecryptEncrypt(p, json, masterPassword, env.salt, env.iv);
    assert |json| > 0;
    assert p.jsonParse(json) == Some(ToJson(list));
    AsRecordsToJson(list);
  }
}

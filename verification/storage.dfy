/**
 * `storageService`: the two `localStorage` slots the application uses,
 * with `localStorage` itself a map from key to stored string.
 */
module Storage {
  import opened Types

  type Store = map<string, string>

  const MasterHashKey: string := "pm_master_hash_v2"
  const EncryptedDataKey: string := "pm_encrypted_passwords_v2"

  /** `localStorage.getItem(key)`: `None` is `null`. */
  function GetItem(s: Store, key: string): Option<string>
  {
    if key in s then Some(s[key]) else None
  }

  /** `localStorage.setItem(key, value)`. */
  function SetItem(s: Store, key: string, value: string): (r: Store)
    ensures GetItem(r, key) == Some(value)
    ensures forall k :: k != key ==> GetItem(r, k) == GetItem(s, k)
  {
    s[key := value]
  }

  /** `null` and the empty string are both falsy: the slot counts as empty. */
  predicate SlotEmpty(s: Store, key: string)
  {
    GetItem(s, key).None? || GetItem(s, key) == Some("")
  }
}

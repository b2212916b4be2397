/**
 * `recovery.js`: a random base64 recovery key, the master hash sealed
 * under it with the vault envelope, and the recovery-key format check.
 */
module Recovery {
  import opened Types
  import opened Platform
  import opened Records
  import Encryption

  const RecoveryKeyBytes: nat := 32
  const MinimumKeyLength: nat := 40

  /** The 32 bytes `generateRecoveryKey` draws from `crypto.getRandomValues`. */
  type KeyBytes = s: seq<byte> | |s| == RecoveryKeyBytes witness seq(32, _ => 0 as byte)

  /** `generateRecoveryKey()`: the random bytes in base64, 44 characters. */
  function GenerateRecoveryKey(p: Platform, random: KeyBytes): (r: string)
    ensures p.Valid() ==> |r| == 44
  {
    p.base64Encode(random)
  }

  /**
   * `encryptMasterHash(masterHash, recoveryKey)`: the vault envelope with
   * the recovery key as passphrase. The `catch` returning `null` guards an
   * `encrypt` that the model treats as total, so the answer is always present.
   */
  function EncryptMasterHash(p: Platform, masterHash: string, recoveryKey: string,
                             salt: Encryption.Salt, iv: Encryption.Iv): (r: Option<string>)
    ensures r.Some?
  {
    Some(Encryption.Encrypt(p, masterHash, recoveryKey, salt, iv))
  }

  /** `decryptMasterHash(sealed, recoveryKey)`: `None` is the `null` of any failure. */
  function DecryptMasterHash(p: Platform, sealed: string, recoveryKey: string): (r: Option<string>)
    ensures r.Some? ==> p.base64Decode(sealed).Some?
    ensures p.Valid() && r.Some? ==> |p.base64Decode(sealed).value| >= Encryption.HeaderLength + GcmTagLength
  {
    Encryption.Decrypt(p, sealed, recoveryKey)
  }

  /** The sealed master hash opens under the same recovery key. */
  lemma MasterHashRoundTrip(p: Platform, masterHash: string, recoveryKey: string,
                            salt: Encryption.Salt, iv: Encryption.Iv)
    requires p.Valid()
    ensures DecryptMasterHash(p, EncryptMasterHash(p, masterHash, recoveryKey, salt, iv).value, recoveryKey)
            == Some(masterHash)
  {
    Encryption.DecryptEncrypt(p, masterHash, recoveryKey, salt, iv);
  }

  const RequiredMessage: string := "recovery key is required"
  const TooShortMessage: string := "Recovery key is too short"
  const FormatMessage: string := "Invalid recovery key format:"

  /** What the `error` property of a rejection holds: a message, or the exception `atob` threw. */
  datatype ErrorValue = Message(text: string) | AtobException

  /** `{valid, error}`; `error` is absent (`None`) on a valid key. */
  datatype KeyCheck = KeyCheck(valid: bool, error: Option<ErrorValue>)

  /** The format check all three rules agree on: a string of 40 or more characters that `atob` accepts. */
  predicate WellFormedKey(p: Platform, key: Option<Json>)
  {
    Truthy(key) && key.value.Str? && |key.value.s| >= MinimumKeyLength && p.base64Decode(key.value.s).Some?
  }

  /**
   * `validateRecoveryKey(key)` as written. The rejection for a key `atob`
   * refuses is `{valid: false, error: "Invalid recovery key format:", error}`:
   * the shorthand `error` repeats the property, so the exception replaces
   * the message.
   */
  function ValidateRecoveryKeyAsWritten(p: Platform, key: Option<Json>): (r: KeyCheck)
    ensures r.valid <==> WellFormedKey(p, key)
  {
    if !Truthy(key) || !key.value.Str? then KeyCheck(false, Some(Message(RequiredMessage)))
    else if |key.value.s| < MinimumKeyLength then KeyCheck(false, Some(Message(TooShortMessage)))
    else if p.base64Decode(key.value.s).None? then KeyCheck(false, Some(AtobException))
    else KeyCheck(true, None)
  }

  /** As written, a long key that `atob` refuses is rejected without any message. */
  lemma FormatMessageLost(p: Platform, key: string)
    requires |key| >= MinimumKeyLength && p.base64Decode(key).None?
    ensures !ValidateRecoveryKeyAsWritten(p, Some(Str(key))).valid
    ensures ValidateRecoveryKeyAsWritten(p, Some(Str(key))).error == Some(AtobException)
    ensures ValidateRecoveryKeyAsWritten(p, Some(Str(key))).error != Some(Message(FormatMessage))
  {}

  /** `validateRecoveryKey(key)` with the format rejection carrying its message. */
  function ValidateRecoveryKey(p: Platform, key: Option<Json>): (r: KeyCheck)
    ensures r.valid <==> WellFormedKey(p, key)
    ensures r.valid <==> r.error.None?
  {
    if !Truthy(key) || !key.value.Str? then KeyCheck(false, Some(Message(RequiredMessage)))
    else if |key.value.s| < MinimumKeyLength then KeyCheck(false, Some(Message(TooShortMessage)))
    else if p.base64Decode(key.value.s).None? then KeyCheck(false, Some(Message(FormatMessage)))
    else KeyCheck(true, None)
  }

  /**
   * Every rejection carries one of the three messages, the first rule the
   * key breaks: not a non-empty string, shorter than 40, refused by `atob`.
   */
  lemma RejectionMessages(p: Platform, key: Option<Json>)
    ensures var r := ValidateRecoveryKey(p, key);
      && (!Truthy(key) || !key.value.Str? <==> r.error == Some(Message(RequiredMessage)))
      && (Truthy(key) && key.value.Str? && |key.value.s| < MinimumKeyLength <==> r.error == Some(Message(TooShortMessage)))
      && (Truthy(key) && key.value.Str? && |key.value.s| >= MinimumKeyLength && p.base64Decode(key.value.s).None? <==>
            r.error == Some(Message(FormatMessage)))
  {}

  /** A key shorter than 40 characters is rejected before `atob` sees it: the decoder cannot change the answer. */
  lemma ShortKeyNotDecoded(p: Platform, q: Platform, key: string)
    requires |key| < MinimumKeyLength
    ensures ValidateRecoveryKey(p, Some(Str(key))) == ValidateRecoveryKey(q, Some(Str(key)))
    ensures ValidateRecoveryKeyAsWritten(p, Some(Str(key))) == ValidateRecoveryKeyAsWritten(q, Some(Str(key)))
  {}

  /** The two rules agree on everything except the content of the format rejection. */
  lemma CorrectionOnlyTouchesFormat(p: Platform, key: Option<Json>)
    ensures ValidateRecoveryKey(p, key).valid == ValidateRecoveryKeyAsWritten(p, key).valid
    ensures ValidateRecoveryKeyAsWritten(p, key).error != Some(AtobException) ==>
      ValidateRecoveryKey(p, key) == ValidateRecoveryKeyAsWritten(p, key)
  {}

  /** A generated key always passes the check. */
  lemma GeneratedKeyValid(p: Platform, random: KeyBytes)
    requires p.Valid()
    ensures ValidateRecoveryKey(p, Some(Str(GenerateRecoveryKey(p, random)))) == KeyCheck(true, None)
  {
    assert p.base64Decode(p.base64Encode(random)) == Some(random);
  }
}

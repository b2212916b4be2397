# PasswordManager core in Dafny

A model of the logic behind a browser password manager. The model covers:

- its TOTP engine: the base32 secret codec, the HOTP counter block and dynamic truncation, code formatting, the ±window verifier and the `otpauth://` provisioning URI;
- the vault envelope, `salt(16) ‖ iv(12) ‖ AES-GCM ciphertext` in base64, and the hex SHA-256 verifier of the master password;
- the k-anonymity breach check against the Pwned Passwords range API;
- the recovery-key helpers;
- the master-password and entry validators;
- the random password generator and its strength score;
- the two React hooks: `useAuth`, which unlocks, enrols and locks against a stored verifier, and `usePasswordManager`, which adds, deletes, updates, saves and loads the record list.

Everything is stated with immutable datatypes and pure functions. The base32 accumulator loops, the verifier's window loop, the password generator's loop and the batch breach check are methods, each proved against a definition of what it computes; the `for…of` scan over the breach-check response lines is the recursive function `BreachCheck.ScanLines`.

The model uses these parameters and abstractions:

- **WebCrypto and text codecs.** SHA-1, SHA-256, HMAC-SHA1, PBKDF2, AES-GCM, `TextEncoder`/`TextDecoder`, `btoa`/`atob`, `encodeURIComponent`/`URLSearchParams` and `JSON.stringify`/`JSON.parse` are uninterpreted function fields of a `Platform` value. Their correctness facts are collected in `Platform.Valid()` and are only ever *required*:
  - AEAD decrypt undoes encrypt, and the tag adds 16 bytes;
  - AEAD decrypt rejects a ciphertext shorter than the 16-byte tag;
  - base64, UTF-8 and JSON round-trip;
  - `JSON.stringify` output is never empty;
  - base64 gives `4⌈n/3⌉` characters;
  - both URL encoders emit no `&`, `=` or `?`.
- **Randomness.** Salts, IVs, the TOTP secret bytes, the recovery-key bytes and the `Uint32Array` words of the generator are parameters.
- **Time.** The `Date.now()` reading (a natural number of milliseconds) is a parameter.
- **Network.** The HTTP endpoint is a function from URL to an optional response.
- **Saves.** Whether a vault save's encryption and `setItem` went through is a parameter.
- **React state and `localStorage`.** The state is a record, and `localStorage` is a `map<string, string>`.

| module | file | source |
|---|---|---|
| Types, Bits | types.dfy, bits.dfy | Option, bit strings, powers of two, the accumulator arithmetic of the codec loops |
| JsString | jsstring.dfy | `trim`, `indexOf`, `split`/`join`, `padStart`, `toUpperCase`, `Number#toString`, `parseInt` |
| Base32 | base32.dfy | src/utils/totp.js `base32Encode`, `base32Decode` |
| Totp | totp.dfy | src/utils/totp.js `generateSecret`, `generateTOTP`, `generateQRCodeURL`, `verifyTOTPCode` |
| Hex | hex.dfy | the `toString(16).padStart(2, '0')` digest renderings |
| Platform | platform.dfy | WebCrypto and codec primitives, abstract |
| Encryption | encryption.dfy | src/utils/encryption.js |
| BreachCheck | breach_check.dfy | src/utils/breachCheck.js |
| Recovery | recovery.dfy | src/utils/recovery.js |
| Validation | validation.dfy | src/utils/validation.js |
| PasswordGenerator | password_generator.dfy | src/utils/passwordGenerator.js |
| Records, Storage | records.dfy, storage.dfy | JSON values and records; src/services/storage.js as a map |
| Auth | auth.dfy | src/hooks/useAuth.js |
| Vault | vault.dfy | src/hooks/usePasswordManager.js |

## Model

| member | source | states |
|---|---|---|
| Base32.Encode | src/utils/totp.js:7-28 | n bytes encode to exactly ⌈8n/5⌉ characters, every one from `A–Z2–7`, with no padding |
| Base32.EncodeSpellsBits | src/utils/totp.js:7-28 | the symbols spell the input's bits followed by fewer than five zero bits |
| Base32.EncodeBuffer | src/utils/totp.js:7-28 | the shift loop, with its 32-bit `value` and pending `bits`, produces the same string as the bit-chunking definition |
| Base32.Decode | src/utils/totp.js:30-51 | the output has ⌊5k/8⌋ bytes, where k is the number of input characters whose upper case is found in the alphabet |
| Base32.DecodeString | src/utils/totp.js:30-51 | the decoding loop with its `index` cursor produces the bytes of the bit-level definition and stays within the ⌈5·len/8⌉ buffer |
| Base32.DecodeEncode | src/utils/totp.js:7-51 | decoding an encoding gives back the original bytes, for every byte string |
| Base32.DecodeIgnoresCase | src/utils/totp.js:38 | for input whose every character upper-cases to a single character, upper-casing the input first does not change what it decodes to |
| Base32.SharpSUpperCased | src/utils/totp.js:38 | the exception: `ß` alone decodes to no bytes, while its upper case `SS` decodes to one byte |
| Base32.DecodeSkipsInvalid | src/utils/totp.js:38-41 | a character whose upper case is not found in the alphabet, at any position, does not change the decoded bytes |
| Base32.SymbolValueIsIndexOf | src/utils/totp.js:38 | a character's 5-bit value is the alphabet `indexOf` of its full upper-case text (which may be several characters, as `ﬅ` gives `ST`, found at 18), -1 when absent |
| Base32.SymbolValueDomain | src/utils/totp.js:31-41 | a character counts exactly when it is an alphabet character, a lower-case ASCII letter, dotless `ı`, long `ſ`, or one of the ligatures `ﬅ`, `ﬆ` |
| JsString.IndexOfOneChar | src/utils/totp.js:38 | `indexOf` of a one-character string is the position of that character's first occurrence |
| Base32.SecretLength | src/utils/totp.js:2-5 | a 20-byte secret encodes to 32 characters |
| Totp.GenerateSecret | src/utils/totp.js:2-5 | the secret has 32 alphabet characters and decodes back to the 20 random bytes |
| Totp.CounterBlockValue | src/utils/totp.js:70-75 | the counter block's first four bytes are zero, and the block read big-endian is the counter mod 2^32 |
| Totp.CounterBlockInjective | src/utils/totp.js:70-75 | two counters give the same block exactly when they agree mod 2^32 |
| Totp.Truncate | src/utils/totp.js:79-85 | the dynamically truncated value is below 2^31 |
| Totp.TruncateReadsOffset | src/utils/totp.js:79-85 | truncation reads the four bytes at the low nibble of the last MAC byte, which lie within bytes 0..18, and clears the top bit |
| Totp.TruncateValue | src/utils/totp.js:80-85 | masking with 0x7f before the 24-bit shift gives the big-endian value mod 2^31, with no sign wrap-around |
| Totp.FormatCode | src/utils/totp.js:87 | the code has max(digits, 1) decimal characters whose value is the truncated number mod 10^digits |
| Totp.FormatCodeParses | src/utils/totp.js:87 | `parseInt` of the rendered code gives back the number mod 10^digits |
| Totp.FormatCodeEqual | src/utils/totp.js:87 | two numbers render to the same code exactly when they agree mod 10^digits |
| Totp.HotpCode | src/utils/totp.js:53-87 | HOTP fails exactly when the key is empty (WebCrypto refuses a zero-length HMAC key), and otherwise yields max(digits, 1) characters |
| Totp.GenerateTotp | src/utils/totp.js:66-96 | the error result `{"000000", 0, error}` appears exactly when the secret decodes to no bytes; otherwise the code is the HOTP of ⌊⌊now/1000⌋/step⌋, and `timeRemaining` lies in [1, step] and counts the seconds to the end of the step |
| Totp.RemainingEndsStep | src/utils/totp.js:89 | `step - time % step` seconds from now is the start of the next step |
| Totp.GenerateTotpStable | src/utils/totp.js:66-96 | a later reading taken before `timeRemaining` runs out shows the same code |
| Totp.CompareCode | src/utils/totp.js:120-133 | the per-counter comparison fails exactly for an empty key, and is true exactly when the candidate textually equals the 6-digit code |
| Totp.SixDigitCodeIff | src/utils/totp.js:131-133 | a candidate equals the rendered code iff it is six decimal digits whose value is the HOTP value mod 10^6 |
| Totp.Round | src/utils/totp.js:113-133 | one iteration at offset i answers whether the candidate is the code of counter ⌊now/30⌋ + i |
| Totp.VerifyTotp | src/utils/totp.js:111-138 | the verifier rejects (throws) exactly when the window is non-negative and the key is empty; otherwise it answers true iff some i in [-window, window] has the candidate equal to the code of counter ⌊now/30⌋ + i; a candidate not of length 6 is never accepted |
| Totp.SkewAccepted | src/utils/totp.js:66-138 | a code `generateTOTP` showed up to `window` steps before or after the check is accepted |
| Totp.ShownCodeAccepted | src/utils/totp.js:112-134 | the six-digit code of any counter within `window` steps of the check's counter is accepted |
| Totp.ProvisioningUri | src/utils/totp.js:98-108 | the URI starts with `otpauth://totp/` and the encoded label, followed by a `?`; with a valid platform the path holds no other `?`; the issuer defaults to `Password Manager` |
| Totp.DefaultIssuerUri | src/utils/totp.js:98-108 | called with two arguments, the label is the encoded `Password Manager:<account>`, and the query's five parameters start with the secret and `issuer=Password Manager` (form-encoded) |
| Totp.ProvisioningUriReads | src/utils/totp.js:98-108 | the URI splits at its single `?` into the `otpauth://totp/` path with the encoded `issuer:account` label, and a query that reads back as secret, issuer, algorithm=SHA1, digits=6, period=30 in that order |
| Totp.ParamsSafe | src/utils/totp.js:100-106 | the parameter names and form-encoded values contain no separator character |
| Encryption.UnframeFrame | src/utils/encryption.js:41-56 | splitting a frame at offsets 16 and 28 gives back the salt, IV and ciphertext it was built from |
| Encryption.FrameUnframe | src/utils/encryption.js:41-56 | every byte string of at least 28 bytes is the frame of its own split, with a 16-byte salt and a 12-byte IV |
| Encryption.Encrypt | src/utils/encryption.js:28-47 | the envelope is the base64 of 28 + len(utf8(text)) + 16 bytes |
| Encryption.DecryptEncrypt | src/utils/encryption.js:28-72 | decrypting with the same password gives back the text, for any salt and IV |
| Encryption.DecryptRejectsMalformed | src/utils/encryption.js:52-71 | input `atob` refuses decrypts to `null` |
| Encryption.DecryptRejectsShort | src/utils/encryption.js:52-71 | an envelope shorter than header plus tag (44 bytes) decrypts to `null` |
| Encryption.Decrypt | src/utils/encryption.js:50-72 | a non-`null` answer needs input `atob` accepts and, given the platform facts, at least 44 decoded bytes (header plus tag); the rest is defined by its body, and `DecryptEncrypt` and `DecryptReadsFrame` relate it to `encrypt` |
| Encryption.DecryptReadsFrame | src/utils/encryption.js:52-67 | for any bytes of the form salt(16) ‖ iv(12) ‖ c, the answer is AES-GCM's decryption of c under that IV and the PBKDF2 key (100000 iterations, SHA-256, 256 bits) re-derived from that salt, UTF-8 decoded; it is `null` exactly when AES-GCM rejects |
| Encryption.HashPassword | src/utils/encryption.js:75-82 | the verifier has 64 characters |
| Encryption.HashPasswordReads | src/utils/encryption.js:75-82 | every character is a lower-case hex digit, and the string parses back to the SHA-256 digest of the UTF-8 password |
| Encryption.HashPasswordEqual | src/utils/encryption.js:75-82 | two passwords have the same verifier exactly when their SHA-256 digests agree |
| Hex.ParseLowerHex | src/utils/encryption.js:79-81 | the two-digit lower-case rendering of a byte string parses back to it |
| Hex.UpperHexDigits | src/utils/breachCheck.js:8 | the upper-cased rendering consists of upper-case hex digits with the same digit values |
| Hex.ParseUpperHex | src/utils/breachCheck.js:8 | the upper-cased rendering also parses back to the bytes |
| Hex.UpperHexIsToUpper | src/utils/breachCheck.js:8 | the digit-wise upper-case rendering is `toUpperCase` applied to the lower-case one |
| BreachCheck.Sha1Hash | src/utils/breachCheck.js:3-9 | the SHA-1 rendering has 40 characters |
| BreachCheck.Sha1HashReads | src/utils/breachCheck.js:3-9 | it consists of upper-case hex digits and parses back to the SHA-1 digest of the UTF-8 password |
| BreachCheck.PrefixSuffixSplit | src/utils/breachCheck.js:18-19 | the prefix has 5 characters, the suffix 35, and together they are the hash |
| BreachCheck.OnlyPrefixSent | src/utils/breachCheck.js:22 | the outcome depends on the network only through the one request for the 5-character prefix URL |
| BreachCheck.FailureIsError | src/utils/breachCheck.js:24-26 | a failed fetch or a non-ok response gives the error outcome and its fixed message |
| BreachCheck.SplitLines | src/utils/breachCheck.js:31 | `split(/\r?\n/)` gives at least one line, and no line contains a line feed |
| BreachCheck.SplitCrlfText | src/utils/breachCheck.js:31 | splitting on `\r?\n` recovers the lines of a CRLF-terminated body |
| BreachCheck.LineOutcome | src/utils/breachCheck.js:36-45 | a matching line reports "breached" unless it has no `:`; then `count.trim()` throws and the check fails |
| BreachCheck.ScanLines | src/utils/breachCheck.js:33-52 | any answer other than "not found" is the report of some non-blank line that names the suffix |
| BreachCheck.ScanNotFound | src/utils/breachCheck.js:33-52 | the scan answers "not found" exactly when no non-blank line's trimmed text before `:` is the suffix |
| BreachCheck.ScanFindsFirst | src/utils/breachCheck.js:33-45 | the first such line decides the outcome |
| BreachCheck.DigitsLine | src/utils/breachCheck.js:36-45 | a `SUFFIX:digits` line names the suffix and reports the digits' value as the count |
| BreachCheck.CheckPassword | src/utils/breachCheck.js:12-62 | any answer other than the error needs an ok response to the prefix request; "breached" is the report of a line of that response naming the hash suffix |
| BreachCheck.ReportsListedCount | src/utils/breachCheck.js:12-45 | when the first line naming the password's suffix is `SUFFIX:count`, the check reports "breached" with that count |
| BreachCheck.CheckMultiplePasswords | src/utils/breachCheck.js:65-82 | one result per entry, in order, each carrying that entry's id, site and username and the check of its password |
| Validation.ValidateMasterPassword | src/utils/validation.js:2-10 | valid iff at least 12 characters; under 8 gives the "at least 8" message and 8 to 11 the "at least 12" message |
| Validation.CheckFieldFilled | src/utils/validation.js:13-21 | one field passes iff it is a string that is not blank after `trim`; a truthy non-string throws |
| Validation.ValidatePasswordEntryIff | src/utils/validation.js:12-23 | an entry is valid iff site, username and password are all filled, and the result is decided by the first unfilled field in that order |
| Validation.InvalidEntryMessage | src/utils/validation.js:13-21 | a rejection carries one of the three field messages, the site one exactly when the site is unfilled |
| Recovery.GenerateRecoveryKey | src/utils/recovery.js:6-10 | the key is 44 characters |
| Recovery.GeneratedKeyValid | src/utils/recovery.js:6-55 | a generated key passes the recovery-key check |
| Recovery.EncryptMasterHash | src/utils/recovery.js:12-22 | sealing always yields an envelope |
| Recovery.DecryptMasterHash | src/utils/recovery.js:24-34 | unsealing is the vault decryption with the recovery key as password, so a non-`null` answer needs valid base64 of at least 44 bytes; `MasterHashRoundTrip` relates it to sealing |
| Recovery.MasterHashRoundTrip | src/utils/recovery.js:12-34 | the sealed master hash opens under the same recovery key |
| Recovery.ValidateRecoveryKeyAsWritten | src/utils/recovery.js:36-55 | as written, a key is valid iff it is a string of 40 or more characters that `atob` accepts |
| Recovery.FormatMessageLost | src/utils/recovery.js:53 | as written, the format rejection's `error` is the exception, not the format message |
| Recovery.ValidateRecoveryKey | src/utils/recovery.js:36-55 | with the format message kept, a key is valid iff well formed, and an error is present iff it is invalid |
| Recovery.RejectionMessages | src/utils/recovery.js:38-54 | on the corrected `ValidateRecoveryKey` (the written code loses the format message, see Findings), each rejection message corresponds exactly to the first rule the key breaks: required, too short, bad format |
| Recovery.ShortKeyNotDecoded | src/utils/recovery.js:44-47 | for a key under 40 characters the answer does not depend on the base64 decoder |
| Recovery.CorrectionOnlyTouchesFormat | src/utils/recovery.js:48-54 | the corrected check agrees with the written one on validity and on every other rejection |
| PasswordGenerator.DefaultCharsetLength | src/utils/passwordGenerator.js:10-14 | with every class enabled the charset has 88 characters |
| PasswordGenerator.CharsetClasses | src/utils/passwordGenerator.js:10-14 | a character is in the charset iff its class is enabled |
| PasswordGenerator.Generate | src/utils/passwordGenerator.js:2-24 | with a non-empty charset the password has the requested length and character i is `charset[r_i mod len(charset)]`; every character is in the charset; an empty charset yields "" |
| PasswordGenerator.CalculateStrength | src/utils/passwordGenerator.js:26-35 | the score lies in 0..5 |
| PasswordGenerator.StrengthZeroIff | src/utils/passwordGenerator.js:26-35 | the score is 0 exactly for the empty password |
| PasswordGenerator.ShortStrength | src/utils/passwordGenerator.js:28-34 | below 8 characters the score is the number of character classes present |
| PasswordGenerator.FullStrengthIff | src/utils/passwordGenerator.js:26-35 | the top score needs 12 characters and three classes, or 8 characters and all four classes |
| Records.Merge | src/hooks/usePasswordManager.js:59-63 | object spread keeps every key of both records, and on a shared key the right-hand value wins |
| Records.AsRecordsToJson | src/hooks/usePasswordManager.js:18-41 | a record list read back from its JSON array is the same list |
| Storage.SetItem | src/services/storage.js:7-21 | a write changes the written slot and no other |
| Auth.Unlock | src/hooks/useAuth.js:12-48 | `unlock` always ends not loading; success opens the vault with the password and no error; failure leaves the lock state and the password as they were |
| Auth.UnlockOkIff | src/hooks/useAuth.js:17-42 | `unlock` succeeds iff the password is valid and either no verifier is stored or the stored one is this password's |
| Auth.UnlockRejectsInvalid | src/hooks/useAuth.js:17-22 | a password the validator refuses changes only the error, to the validator's message, and leaves storage alone |
| Auth.UnlockEnrols | src/hooks/useAuth.js:27-32 | with no verifier stored, a valid password's verifier is written to the master-hash slot only, and the vault opens |
| Auth.UnlockMismatch | src/hooks/useAuth.js:38-42 | a wrong password reports "Incorrect master password" and changes neither the lock state nor storage |
| Auth.StoredHashKept | src/hooks/useAuth.js:24-42 | once a verifier is stored, `unlock` never writes storage |
| Auth.Lock | src/hooks/useAuth.js:50-54 | `lock` closes the vault and clears the password and the error |
| Auth.UnlockConsistent | src/hooks/useAuth.js:12-48 | `unlock` keeps this invariant: an open vault holds a valid password whose verifier is the stored one |
| Auth.StepConsistent | src/hooks/useAuth.js:12-54 | each unlock or lock keeps that invariant |
| Auth.RunConsistent | src/hooks/useAuth.js:12-54 | any sequence of unlocks and locks keeps that invariant |
| Auth.InitialConsistent | src/hooks/useAuth.js:7-10 | the initial state satisfies the invariant |
| Auth.Step | src/hooks/useAuth.js:12-54 | one unlock or lock writes no slot but the master hash, and that one only while it is empty |
| Auth.Run | src/hooks/useAuth.js:12-54 | any sequence of unlocks and locks writes no slot but the master hash, and once a verifier is stored it changes no storage at all |
| Vault.Save | src/hooks/usePasswordManager.js:38-51 | a successful save puts the new list in memory and its encryption in the data slot, and touches no other slot; a failed save changes nothing |
| Vault.Stamp | src/hooks/usePasswordManager.js:59-63 | the stamped entry has the given id and `createdAt` and keeps every other field |
| Vault.Add | src/hooks/usePasswordManager.js:53-67 | `addPassword` reports success or a save failure exactly for a filled entry; only a successful save changes the state; a rejection carries one of the three field messages |
| Vault.AddRejects | src/hooks/usePasswordManager.js:54-57 | an entry with an unfilled field changes neither the list nor storage and reports a rejection |
| Vault.AddAppends | src/hooks/usePasswordManager.js:59-66 | a filled entry that is saved is appended, stamped, after the unchanged earlier records |
| Vault.WithoutMembers | src/hooks/usePasswordManager.js:69-71 | the filter keeps exactly the records without the id |
| Vault.WithoutAppend | src/hooks/usePasswordManager.js:69-71 | filtering distributes over concatenation, so the kept records keep their order |
| Vault.WithoutAbsent | src/hooks/usePasswordManager.js:69-71 | a list with no record of that id is unchanged |
| Vault.Delete | src/hooks/usePasswordManager.js:69-71 | `deletePassword` never adds a record and writes no slot but the encrypted data |
| Vault.DeleteRemoves | src/hooks/usePasswordManager.js:69-71 | a saved deletion leaves exactly the records without the id, in their original order (the `filter`); a failed one changes nothing |
| Vault.Update | src/hooks/usePasswordManager.js:73-77 | `updatePassword` keeps the number of records, writes no slot but the encrypted data, and changes nothing when the save fails |
| Vault.UpdateChanges | src/hooks/usePasswordManager.js:73-77 | a saved update keeps the length, leaves records without the id unchanged, and gives records with the id every field of the update and their other fields |
| Vault.UpdatedIdempotent | src/hooks/usePasswordManager.js:73-77 | applying the same update twice equals applying it once |
| Vault.UpdateThenDelete | src/hooks/usePasswordManager.js:69-77 | an update that does not set `id`, followed by deleting that id, equals deleting it alone |
| Vault.Load | src/hooks/usePasswordManager.js:10-30 | `loadPasswords` never writes storage; without stored data or a master password it changes nothing; a parsed value it reports as not a list is indeed not a record list |
| Vault.LoadKeepsOnFailure | src/hooks/usePasswordManager.js:13-16 | when decryption fails, loading leaves the list as it was |
| Vault.LoadUnparsable | src/hooks/usePasswordManager.js:17-21 | decrypted text that is not JSON empties the list |
| Vault.SaveThenLoad | src/hooks/usePasswordManager.js:10-51 | a list saved under a non-empty master password loads back under it, whatever the in-memory list was |

## Left out

- WebCrypto (SHA-1, SHA-256, HMAC-SHA1, PBKDF2, AES-GCM, `getRandomValues`) and the library codecs (`btoa`/`atob`, `TextEncoder`/`TextDecoder`, `encodeURIComponent`, `URLSearchParams`, `JSON`) are not re-verified. They are abstract functions, and their correctness is assumed only as the requires `Platform.Valid()`.
- The React components and `src/App.js` are rendering only and are not part of this model.
- `storage.js` `clearAll` is not called by the modelled hooks.
- Recovery and reset transitions are not modelled, because the hooks contain none.
- Asynchrony, the `console.error` logging and the 200 ms delay between batch checks (breachCheck.js:78) have no effect on the results, and are omitted.
- The network is a stateless function from URL to response. Repeated queries therefore answer alike.
- Totp.GenerateTotp: `timeStep` is required to be at least 1. The source only ever passes the default 30. With a zero step, `time / 0` is `Infinity` for a positive `time` (and `NaN` at `time = 0`); `setUint32` writes either as counter 0, and `timeRemaining = 0 - (time % 0)` is `NaN`.
- Totp.VerifyTotp: `Date.now()` is read once rather than once per iteration. A check that straddles a second boundary is not modelled.
- Totp.VerifyTotp: the step length is fixed at 30 and the code length at 6, as in the source.
- Totp.HotpCode: the MAC is assumed to be 20 bytes, as SHA-1 gives.
- Time is a natural number of milliseconds. Negative clock readings are not modelled.
- JsString.UpperText: maps the ASCII letters and every character whose JavaScript upper case contains an ASCII letter (`ı`, `ſ`, `ß`, `ŉ`, `ǰ`, `ẖ`, `ẗ`, `ẘ`, `ẙ`, `ẚ`, the ligatures U+FB00–U+FB06). Every other non-ASCII character is kept as it is, where JavaScript would upper-case it. The kept characters upper-case to text with no ASCII letter or digit, so neither an alphabet lookup nor a hex-digit reading can tell the difference.
- Base32.DecodeIgnoresCase: stated only for input whose characters each upper-case to one character. The characters that expand (`ß`, `ﬁ` and the others above) can decode differently once upper-cased, as Base32.SharpSUpperCased shows.
- Totp.GenerateTotp: `timeStep` and `digits` are plain parameters rather than parameters with the defaults 30 and 6 (totp.js:66). `SkewAccepted` passes 30 and 6 explicitly, and the other lemmas about it hold for any step and width. `VerifyTotp`'s `window := 1` and `Generate`'s `length := 16` and `o := DefaultOptions` are Dafny defaults.
- JsString: strings count characters rather than UTF-16 code units. `key.length` on non-BMP text is not modelled.
- BreachCheck.CheckPassword: the "breached" outcome keeps the count, not the `toLocaleString` message built from it.
- BreachCheck.CheckPassword: an unparsable count is `None`, which is JavaScript's `NaN`.
- BreachCheck.PasswordText: how a non-string `entry.password` is turned into text is left abstract.
- Auth.Unlock: the `catch` branch ("Authentication failed. Please try again.") is not modelled. The hashing and storage primitives it guards are total here.
- Auth.Unlock: the intermediate `isLoading := true` / `error := ""` renders are not modelled. Only the final state is.
- Validation.ValidateMasterPassword: the password is a string. A non-string argument is not modelled.
- Vault.Load: when decrypted JSON is not a list of records, the model reports `NotAList` instead of following what React does with a non-array state.
- Vault.Add: record ids come from `Date.now()`. They are taken as a parameter, and their uniqueness is not assumed.
- Records: JavaScript numbers are modelled as integers, and `p.id === id` as equality of `Num` values.
- PasswordGenerator.Generate: accepts any length. `crypto.getRandomValues` throws a `QuotaExceededError` above 65536 bytes, that is 16384 `Uint32` words; that throw is not modelled. Every caller passes 16.
- Encryption.Encrypt: total. `String.fromCharCode(...combined)` throws a `RangeError` once the frame has more bytes than the engine accepts as call arguments, a limit that differs between engines; that throw is not modelled. In `Vault.Save` it is one of the failures the `writeOk` parameter stands for.
- Recovery.EncryptMasterHash: the `catch` returning `null` is not modelled, because the model's `encrypt` never throws (see the Encryption.Encrypt line above). The only throw it could catch for a 64-character master hash is a platform failure.

## Findings

| source | as written | input that shows it | evidently intended | confidence | as-written member | corrected member |
|---|---|---|---|---|---|---|
| src/utils/recovery.js:53 | `{valid:false, error:"Invalid recovery key format:", error}`: the shorthand `error` repeats the key, so the caught exception replaces the message | a key of 40 or more characters that `atob` refuses, for example 40 `!` characters | the rejection carries the message "Invalid recovery key format:" | not executed | Recovery.ValidateRecoveryKeyAsWritten (shown by Recovery.FormatMessageLost) | Recovery.ValidateRecoveryKey |

/**
 * The vault envelope of `encryption.js`: a password-derived AES-256-GCM key,
 * the `salt ‖ iv ‖ ciphertext` frame written as base64, the collapse of
 * every decryption failure into `null`, and the hex SHA-256 verifier that
 * `hashPassword` stores.
 */
module Encryption {
  import opened Types
  import opened Platform
  import Hex

  const SaltLength: nat := 16
  const IvLength: nat := 12
  /** Where the ciphertext starts in a frame. */
  const HeaderLength: nat := SaltLength + IvLength

  /** The salt and IV `encrypt` draws from `crypto.getRandomValues`. */
  type Salt = s: seq<byte> | |s| == SaltLength witness seq(16, _ => 0 as byte)
  type Iv = s: seq<byte> | |s| == IvLength witness seq(12, _ => 0 as byte)

  /** PBKDF2 with 100000 iterations of HMAC-SHA-256, asked for a 256-bit AES-GCM key. */
  const VaultKdf := KdfParams(100000, Sha256, 256)

  /** `deriveKey(password, salt)`: the key depends only on the password's UTF-8 bytes and the salt. */
  function DeriveKey(p: Platform, password: string, salt: seq<byte>): seq<byte>
  {
    p.pbkdf2(VaultKdf, p.utf8Encode(password), salt)
  }

  /** The three parts of an envelope. */
  datatype Envelope = Envelope(salt: seq<byte>, iv: seq<byte>, body: seq<byte>)

  /** `combined.set(salt, 0); combined.set(iv, 16); combined.set(ct, 28)`. */
  function Frame(e: Envelope): seq<byte>
  {
    e.salt + e.iv + e.body
  }

  /** `Uint8Array.prototype.slice(from, to)` for non-negative bounds: both are clamped to the length. */
  function Slice(s: seq<byte>, from: nat, to: nat): (r: seq<byte>)
    ensures |r| == if to <= |s| then Max(to - from, 0) else Max(|s| - from, 0)
  {
    var hi := Min(to, |s|);
    var lo := Min(from, hi);
    s[lo..hi]
  }

  /** `decrypt`'s split of the decoded bytes at offsets 0, 16 and 28. */
  function Unframe(combined: seq<byte>): Envelope
  {
    Envelope(Slice(combined, 0, SaltLength), Slice(combined, SaltLength, HeaderLength),
             Slice(combined, HeaderLength, |combined|))
  }

  /** Splitting a frame built from a 16-byte salt and a 12-byte IV gives back its three parts. */
  lemma UnframeFrame(salt: Salt, iv: Iv, body: seq<byte>)
    ensures Unframe(Frame(Envelope(salt, iv, body))) == Envelope(salt, iv, body)
  {
    var c := Frame(Envelope(salt, iv, body));
    assert c[..16] == salt;
    assert c[16..28] == iv;
    assert c[28..] == body;
  }

  /** Every input of at least 28 bytes is the frame of its own split, so no byte is lost or reordered. */
  lemma FrameUnframe(combined: seq<byte>)
    requires |combined| >= HeaderLength
    ensures Frame(Unframe(combined)) == combined
    ensures |Unframe(combined).salt| == SaltLength && |Unframe(combined).iv| == IvLength
  {
    var e := Unframe(combined);
    assert e.salt + e.iv + e.body == combined[..16] + combined[16..28] + combined[28..];
    assert combined[..16] + combined[16..28] + combined[28..] == combined;
  }

  /**
   * `encrypt(text, masterPassword)` with the salt and IV it draws: the
   * base64 text of the frame, so four characters for every three bytes of
   * the 28-byte header, the plaintext and the 16-byte tag.
   */
  function Encrypt(p: Platform, text: string, password: string, salt: Salt, iv: Iv): (r: string)
    ensures p.Valid() ==> |r| == 4 * ((HeaderLength + |p.utf8Encode(text)| + GcmTagLength + 2) / 3)
  {
    var key := DeriveKey(p, password, salt);
    var ct := p.aesGcmEncrypt(key, iv, p.utf8Encode(text));
    p.base64Encode(Frame(Envelope(salt, iv, ct)))
  }

  /**
   * `decrypt(encryptedBase64, masterPassword)`: `None` is the `null` the
   * `catch` returns when `atob` throws or AES-GCM rejects the ciphertext.
   * The key is derived again from the salt found in the envelope.
   */
  function Decrypt(p: Platform, encoded: string, password: string): (r: Option<string>)
    ensures r.Some? ==> p.base64Decode(encoded).Some?
    ensures p.Valid() && r.Some? ==> |p.base64Decode(encoded).value| >= HeaderLength + GcmTagLength
  {
    var combined :- p.base64Decode(encoded);
    var e := Unframe(combined);
    var pt :- p.aesGcmDecrypt(DeriveKey(p, password, e.salt), e.iv, e.body);
    Some(p.utf8Decode(pt))
  }

  /** Decrypting with the password used to encrypt gives the text back, whatever the salt and IV. */
  lemma DecryptEncrypt(p: Platform, text: string, password: string, salt: Salt, iv: Iv)
    requires p.Valid()
    ensures Decrypt(p, Encrypt(p, text, password, salt, iv), password) == Some(text)
  {
    var key := DeriveKey(p, password, salt);
    var ct := p.aesGcmEncrypt(key, iv, p.utf8Encode(text));
    var frame := Frame(Envelope(salt, iv, ct));
    assert p.base64Decode(p.base64Encode(frame)) == Some(frame);
    UnframeFrame(salt, iv, ct);
    assert p.aesGcmDecrypt(key, iv, ct) == Some(p.utf8Encode(text));
  }

  /** Text that `atob` rejects decrypts to `null`. */
  lemma DecryptRejectsMalformed(p: Platform, encoded: string, password: string)
    requires p.base64Decode(encoded).None?
    ensures Decrypt(p, encoded, password).None?
  {}

  /**
   * An envelope too short to hold the header and a tag decrypts to `null`:
   * whatever the slices give, the ciphertext is shorter than a tag.
   */
  lemma DecryptRejectsShort(p: Platform, encoded: string, password: string)
    requires p.Valid()
    requires p.base64Decode(encoded).Some? && |p.base64Decode(encoded).value| < HeaderLength + GcmTagLength
    ensures Decrypt(p, encoded, password).None?
  {
    var e := Unframe(p.base64Decode(encoded).value);
    assert |e.body| < GcmTagLength;
  }

  /**
   * Whatever follows the base64 decoding, the first 16 bytes are the salt
   * the key is derived from, the next 12 the IV, and the rest the
   * ciphertext: the answer is AES-GCM's under those, and `null` exactly
   * when AES-GCM rejects them.
   */
  lemma DecryptReadsFrame(p: Platform, encoded: string, password: string, salt: Salt, iv: Iv, body: seq<byte>)
    requires p.base64Decode(encoded) == Some(Frame(Envelope(salt, iv, body)))
    ensures Decrypt(p, encoded, password) == p.aesGcmDecrypt(DeriveKey(p, password, salt), iv, body).Map(p.utf8Decode)
  {
    UnframeFrame(salt, iv, body);
  }

  /** `hashPassword(password)`: the SHA-256 of the UTF-8 bytes as 64 lower-case hex digits. */
  function HashPassword(p: Platform, password: string): (r: string)
    ensures |r| == 64
  {
    Hex.LowerHex(p.sha256(p.utf8Encode(password)))
  }

  /** The verifier is lower-case hex that reads back as the digest. */
  lemma HashPasswordReads(p: Platform, password: string)
    ensures forall k :: 0 <= k < |HashPassword(p, password)| ==> Hex.IsLowerHexDigit(HashPassword(p, password)[k])
    ensures Hex.ParseHex(HashPassword(p, password)) == Some(p.sha256(p.utf8Encode(password)))
  {
    Hex.LowerHexDigits(p.sha256(p.utf8Encode(password)));
    Hex.ParseLowerHex(p.sha256(p.utf8Encode(password)));
  }

  /** Two passwords get the same verifier exactly when their digests agree. */
  lemma HashPasswordEqual(p: Platform, a: string, b: string)
    ensures HashPassword(p, a) == HashPassword(p, b) <==> p.sha256(p.utf8Encode(a)) == p.sha256(p.utf8Encode(b))
  {
    HashPasswordReads(p, a);
    HashPasswordReads(p, b);
  }
}

/**
 * The primitives the application borrows from the browser: WebCrypto digests,
 * HMAC, PBKDF2 and AES-GCM, and the text codecs `TextEncoder`/`TextDecoder`,
 * `btoa`/`atob`, `encodeURIComponent`, the `URLSearchParams` serialiser and
 * `JSON.stringify`/`JSON.parse`.
 *
 * None of them is re-implemented. A `Platform` value carries one function per
 * primitive, and `Valid` states the few facts the application relies on.
 */
module Platform {
  import opened Types
  import opened Records

  type Digest20 = s: seq<byte> | |s| == 20 witness seq(20, _ => 0 as byte)
  type Digest32 = s: seq<byte> | |s| == 32 witness seq(32, _ => 0 as byte)

  datatype HashName = Sha1 | Sha256

  /** The PBKDF2 parameters of a `deriveKey` call and the AES key length it asks for. */
  datatype KdfParams = KdfParams(iterations: nat, hash: HashName, keyBits: nat)

  /** Length in bytes of the authentication tag AES-GCM appends by default. */
  const GcmTagLength: nat := 16

  datatype Platform = Platform(
    /** `crypto.subtle.digest('SHA-1', ·)` */
    sha1: seq<byte> -> Digest20,
    /** `crypto.subtle.digest('SHA-256', ·)` */
    sha256: seq<byte> -> Digest32,
    /** HMAC-SHA1 `sign` under a raw key (importing an empty key fails, see `HmacKeyRejected`) */
    hmacSha1: (seq<byte>, seq<byte>) -> Digest20,
    /** `deriveKey` with PBKDF2 from password bytes and a salt */
    pbkdf2: (KdfParams, seq<byte>, seq<byte>) -> seq<byte>,
    /** AES-GCM `encrypt(key, iv, plaintext)` */
    aesGcmEncrypt: (seq<byte>, seq<byte>, seq<byte>) -> seq<byte>,
    /** AES-GCM `decrypt(key, iv, ciphertext)`; `None` when the operation is rejected */
    aesGcmDecrypt: (seq<byte>, seq<byte>, seq<byte>) -> Option<seq<byte>>,
    /** `new TextEncoder().encode` */
    utf8Encode: string -> seq<byte>,
    /** `new TextDecoder().decode` */
    utf8Decode: seq<byte> -> string,
    /** `btoa(String.fromCharCode(...bytes))` */
    base64Encode: seq<byte> -> string,
    /** `atob` followed by `charCodeAt` per character; `None` when `atob` throws */
    base64Decode: string -> Option<seq<byte>>,
    /** `encodeURIComponent` */
    uriComponent: string -> string,
    /** the `application/x-www-form-urlencoded` serialisation of one name or value */
    formEncode: string -> string,
    /** `JSON.stringify` */
    jsonStringify: Json -> string,
    /** `JSON.parse`; `None` when it throws a `SyntaxError` */
    jsonParse: string -> Option<Json>,
    /** `String(v)` for a value that is not already a string */
    toJsString: Json -> string)
  {
    /**
     * The facts the application depends on: AES-GCM decryption under the key
     * and IV used to encrypt gives the plaintext back and rejects anything
     * shorter than a tag; base64 and UTF-8 round-trip and base64 writes four
     * characters per three bytes; the URL encoders escape `?`, `&` and `=`;
     * `JSON.parse` reads back what `JSON.stringify` writes, which is never empty.
     */
    ghost predicate Valid()
    {
      && (forall k, iv, pt :: |iv| == 12 ==> aesGcmDecrypt(k, iv, aesGcmEncrypt(k, iv, pt)) == Some(pt))
      && (forall k, iv, pt :: |aesGcmEncrypt(k, iv, pt)| == |pt| + GcmTagLength)
      && (forall k, iv, ct :: |ct| < GcmTagLength ==> aesGcmDecrypt(k, iv, ct) == None)
      && (forall b :: base64Decode(base64Encode(b)) == Some(b))
      && (forall b :: |base64Encode(b)| == 4 * ((|b| + 2) / 3))
      && (forall s :: utf8Decode(utf8Encode(s)) == s)
      && (forall s :: UrlSafe(uriComponent(s)))
      && (forall s :: UrlSafe(formEncode(s)))
      && (forall v :: jsonParse(jsonStringify(v)) == Some(v))
      && (forall v :: |jsonStringify(v)| > 0)
    }
  }

  /** No character that delimits a URL's query or its parameters. */
  predicate UrlSafe(s: string)
  {
    '?' !in s && '&' !in s && '=' !in s
  }

  /** `importKey('raw', key, HMAC)` throws a `DataError` for an empty key. */
  predicate HmacKeyRejected(key: seq<byte>)
  {
    |key| == 0
  }
}

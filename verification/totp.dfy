/**
 * Time-based one-time passwords as `totpUtils` computes them: the HOTP value
 * of section 5 of RFC 4226 (HMAC-SHA-1 over an 8-byte big-endian counter,
 * then dynamic truncation to 31 bits) for the time-step counter of section 4
 * of RFC 6238, under a key decoded from base32.
 *
 * The clock is the parameter `nowMs` (`Date.now()`, milliseconds since the
 * epoch), HMAC is the platform's, and the random secret bytes are a parameter.
 */
module Totp {
  import opened Types
  import opened JsString
  import opened Platform
  import Bits
  import Base32

  const Int31Modulus: nat := 0x8000_0000

  /** The number a big-endian byte string denotes. */
  function BigEndian(bs: seq<byte>): nat
  {
    if |bs| == 0 then 0 else 256 * BigEndian(bs[..|bs| - 1]) + bs[|bs| - 1] as nat
  }

  lemma BigEndian4(w: seq<byte>)
    requires |w| == 4
    ensures BigEndian(w) == ((w[0] as nat * 256 + w[1] as nat) * 256 + w[2] as nat) * 256 + w[3] as nat
  {
    var w3, w2, w1 := w[..3], w[..2], w[..1];
    assert w3[..2] == w2 && w2[..1] == w1 && w1[..0] == [];
    assert BigEndian(w1) == w[0] as nat;
    assert BigEndian(w2) == 256 * BigEndian(w1) + w[1] as nat;
    assert BigEndian(w3) == 256 * BigEndian(w2) + w[2] as nat;
  }

  /** Leading zero bytes do not change the value. */
  lemma {:induction false} BigEndianLeadingZeros(z: nat, s: seq<byte>)
    ensures BigEndian(seq(z, _ => 0 as byte) + s) == BigEndian(s)
    decreases |s|
  {
    var t := seq(z, _ => 0 as byte) + s;
    if |s| == 0 {
      assert t == seq(z, _ => 0 as byte);
      ZeroBytes(z);
    } else {
      assert t[..|t| - 1] == seq(z, _ => 0 as byte) + s[..|s| - 1];
      BigEndianLeadingZeros(z, s[..|s| - 1]);
    }
  }

  lemma {:induction false} ZeroBytes(z: nat)
    ensures BigEndian(seq(z, _ => 0 as byte)) == 0
  {
    if z > 0 {
      assert seq(z, _ => 0 as byte)[..z - 1] == seq(z - 1, _ => 0 as byte);
      ZeroBytes(z - 1);
    }
  }

  /**
   * The HMAC message: an 8-byte buffer whose first four bytes stay zero and
   * whose last four hold `setUint32(4, counter, false)`, that is `counter`
   * taken modulo 2^32 and written most significant byte first.
   */
  function CounterBlock(counter: int): (r: seq<byte>)
    ensures |r| == 8
  {
    var c := counter % Bits.Uint32Modulus;
    var q1, b3 := c / 256, c % 256;
    var q2, b2 := q1 / 256, q1 % 256;
    var b0, b1 := q2 / 256, q2 % 256;
    [0, 0, 0, 0, b0 as byte, b1 as byte, b2 as byte, b3 as byte]
  }

  /** The message is four zero bytes and then the counter modulo 2^32, big-endian. */
  lemma CounterBlockValue(counter: int)
    ensures CounterBlock(counter)[..4] == [0, 0, 0, 0]
    ensures BigEndian(CounterBlock(counter)) == counter % Bits.Uint32Modulus
  {
    var r := CounterBlock(counter);
    var w := r[4..];
    BigEndian4(w);
    BigEndianLeadingZeros(4, w);
    assert seq(4, _ => 0 as byte) + w == r;
  }

  /** Counters that agree modulo 2^32, and only those, give the same message. */
  lemma CounterBlockInjective(a: int, b: int)
    ensures CounterBlock(a) == CounterBlock(b) <==> a % Bits.Uint32Modulus == b % Bits.Uint32Modulus
  {
    CounterBlockValue(a);
    CounterBlockValue(b);
  }

  /**
   * Dynamic truncation: the low nibble of the last MAC byte picks an offset,
   * and the four bytes there are read big-endian with the top bit cleared.
   * `(x & 0x7f) << 24` stays below 2^31, so the 32-bit `|` of the four
   * disjoint shifted bytes is their sum and the result is non-negative.
   */
  function Truncate(mac: Digest20): (code: nat)
    ensures code < Int31Modulus
  {
    var o := mac[19] as nat % 16;
    (mac[o] as nat % 128) * 0x100_0000 + mac[o + 1] as nat * 0x1_0000 + mac[o + 2] as nat * 256 + mac[o + 3] as nat
  }

  /** `Truncate` reads the 31 low bits of the four bytes at the offset, as section 5.3 of RFC 4226 asks. */
  lemma TruncateReadsOffset(mac: Digest20)
    ensures var o := mac[19] as nat % 16; Truncate(mac) == BigEndian(mac[o..o + 4]) % Int31Modulus
  {
    var o := mac[19] as nat % 16;
    TruncateValue(mac[o..o + 4]);
  }

  lemma TruncateValue(w: seq<byte>)
    requires |w| == 4
    ensures BigEndian(w) % Int31Modulus
            == (w[0] as nat % 128) * 0x100_0000 + w[1] as nat * 0x1_0000 + w[2] as nat * 256 + w[3] as nat
  {
    BigEndian4(w);
    var rest := w[1] as nat * 0x1_0000 + w[2] as nat * 256 + w[3] as nat;
    var hi, lo := w[0] as nat / 128, w[0] as nat % 128;
    assert BigEndian(w) == hi * Int31Modulus + (lo * 0x100_0000 + rest);
    Bits.DivModUnique(BigEndian(w), Int31Modulus, hi, lo * 0x100_0000 + rest);
  }

  /** `(code % Math.pow(10, digits)).toString().padStart(digits, '0')`. */
  function FormatCode(code: nat, digits: nat): (r: string)
    ensures |r| == Max(digits, 1)
    ensures IsDigitString(r, 10)
    ensures DigitsValue(r, 10) == code % Pow(10, digits)
  {
    var s := NumberToString(code % Pow(10, digits), 10);
    assert |s| <= Max(digits, 1) by {
      if digits >= 1 {
        NumberToStringLength(code % Pow(10, digits), 10, digits);
      }
    }
    PadDigits(s, digits, 10);
    PadStart(s, digits, '0')
  }

  /** `parseInt` reads back the number a code shows. */
  lemma FormatCodeParses(code: nat, digits: nat)
    ensures ParseInt(FormatCode(code, digits)) == Some(code % Pow(10, digits))
  {
    ParseIntDigits(FormatCode(code, digits));
  }

  /** Two codes of the same width are equal exactly when the numbers agree modulo `10^digits`. */
  lemma FormatCodeEqual(a: nat, b: nat, digits: nat)
    ensures FormatCode(a, digits) == FormatCode(b, digits) <==> a % Pow(10, digits) == b % Pow(10, digits)
  {
    if a % Pow(10, digits) == b % Pow(10, digits) {
      assert Pow(10, digits) >= 1;
    }
  }

  /**
   * `hmacSha1(key, message)`: importing an empty raw key throws, which is
   * `None` here; otherwise the platform's HMAC-SHA-1.
   */
  function HmacSha1(p: Platform, key: seq<byte>, message: seq<byte>): Option<Digest20>
  {
    if HmacKeyRejected(key) then None else Some(p.hmacSha1(key, message))
  }

  /** The `digits`-digit code of `counter` under `key`. */
  function HotpCode(p: Platform, key: seq<byte>, counter: int, digits: nat): (r: Option<string>)
    ensures r.None? <==> |key| == 0
    ensures r.Some? ==> |r.value| == Max(digits, 1)
  {
    match HmacSha1(p, key, CounterBlock(counter))
    case None => None
    case Some(mac) => Some(FormatCode(Truncate(mac), digits))
  }

  /** Equal counters give equal codes (stated apart so the solver need not find it through arithmetic). */
  lemma SameCounter(p: Platform, key: seq<byte>, a: int, b: int, digits: nat)
    requires a == b
    ensures HotpCode(p, key, a, digits) == HotpCode(p, key, b, digits)
  {}

  lemma SameValue(p: Platform, key: seq<byte>, a: int, b: int)
    requires a == b
    ensures SixDigitValue(p, key, a) == SixDigitValue(p, key, b)
  {}

  /** What `generateTOTP` resolves to; `error` is absent, hence false, on success. */
  datatype TotpDisplay = TotpDisplay(code: string, timeRemaining: nat, error: bool)

  const FailedDisplay := TotpDisplay("000000", 0, true)

  /**
   * `generateTOTP(secret, timeStep, digits)` at clock reading `nowMs`: the
   * code of counter `floor(floor(nowMs / 1000) / timeStep)` and the seconds
   * left until that counter moves on; a secret that decodes to no bytes makes
   * HMAC key import throw, and the caught error gives the fixed failure result.
   */
  function GenerateTotp(p: Platform, secret: string, nowMs: nat, timeStep: nat, digits: nat): (r: TotpDisplay)
    requires timeStep >= 1
    ensures r.error <==> |Base32.Decode(secret)| == 0
    ensures r.error ==> r == FailedDisplay
    ensures !r.error ==> Some(r.code) == HotpCode(p, Base32.Decode(secret), nowMs / 1000 / timeStep, digits)
    ensures !r.error ==> |r.code| == Max(digits, 1)
    ensures !r.error ==> 1 <= r.timeRemaining <= timeStep
    ensures !r.error ==> StepEndsAfter(nowMs / 1000, timeStep, r.timeRemaining)
  {
    var key := Base32.Decode(secret);
    var time := nowMs / 1000;
    match HotpCode(p, key, time / timeStep, digits)
    case None => FailedDisplay
    case Some(code) =>
      var remaining := timeStep - time % timeStep;
      RemainingEndsStep(time, timeStep);
      TotpDisplay(code, remaining, false)
  }

  /**
   * After `time` the counter `time / timeStep` keeps its value for exactly
   * `remaining` seconds.
   */
  predicate StepEndsAfter(time: nat, timeStep: nat, remaining: nat)
    requires timeStep >= 1
  {
    && (time + remaining - 1) / timeStep == time / timeStep
    && (time + remaining) / timeStep == time / timeStep + 1
  }

  lemma RemainingEndsStep(time: nat, timeStep: nat)
    requires timeStep >= 1
    ensures 1 <= timeStep - time % timeStep <= timeStep
    ensures StepEndsAfter(time, timeStep, timeStep - time % timeStep)
  {
    var q, m := time / timeStep, time % timeStep;
    var remaining := timeStep - m;
    assert time == q * timeStep + m;
    Bits.DivModUnique(time + remaining - 1, timeStep, q, timeStep - 1);
    assert time + remaining == (q + 1) * timeStep;
    Bits.DivModUnique(time + remaining, timeStep, q + 1, 0);
  }

  /** Within one time step the displayed code does not change. */
  lemma GenerateTotpStable(p: Platform, secret: string, nowMs: nat, laterMs: nat, timeStep: nat, digits: nat)
    requires timeStep >= 1
    requires nowMs <= laterMs
    requires !GenerateTotp(p, secret, nowMs, timeStep, digits).error
    requires laterMs / 1000 < nowMs / 1000 + GenerateTotp(p, secret, nowMs, timeStep, digits).timeRemaining
    ensures GenerateTotp(p, secret, laterMs, timeStep, digits).code == GenerateTotp(p, secret, nowMs, timeStep, digits).code
  {
    var key := Base32.Decode(secret);
    var g := GenerateTotp(p, secret, nowMs, timeStep, digits);
    var t, u := nowMs / 1000, laterMs / 1000;
    StepStable(t, u, timeStep, g.timeRemaining);
    SameCounter(p, key, u / timeStep, t / timeStep, digits);
  }

  /** A time less than `remaining` seconds later is in the same step. */
  lemma StepStable(t: nat, u: nat, timeStep: nat, remaining: nat)
    requires timeStep >= 1
    requires StepEndsAfter(t, timeStep, remaining)
    requires t <= u < t + remaining
    ensures u / timeStep == t / timeStep
  {
    DivMono(t, u, timeStep);
    DivMono(u, t + remaining - 1, timeStep);
  }

  lemma DivMono(a: nat, b: nat, n: nat)
    requires n >= 1 && a <= b
    ensures a / n <= b / n
  {
    if a / n > b / n {
      Bits.MulLe(b / n + 1, a / n, n);
      assert false;
    }
  }

  /** What `verifyTOTPCode` settles to: an answer, or a rejected promise. */
  datatype Verdict = Answer(ok: bool) | Threw

  /** The number a six-digit code shows for `counter`: the truncated HMAC modulo 10^6. */
  function SixDigitValue(p: Platform, key: seq<byte>, counter: int): Option<nat>
  {
    match HmacSha1(p, key, CounterBlock(counter))
    case None => None
    case Some(mac) => Some(Truncate(mac) % SixDigitModulus)
  }

  const SixDigitModulus: nat := 1_000_000

  /**
   * `code` is the code of `counter`: six decimal digits spelling that
   * counter's value, as section 5.3 of RFC 4226 defines it.
   */
  predicate ShowsCode(p: Platform, key: seq<byte>, code: string, counter: int)
  {
    |code| == 6 && IsDigitString(code, 10) && SixDigitValue(p, key, counter) == Some(DigitsValue(code, 10))
  }

  /** `code` is the code of the counter `i` steps from `base`. */
  predicate AcceptedAt(p: Platform, key: seq<byte>, code: string, base: int, i: int)
  {
    ShowsCode(p, key, code, base + i)
  }

  /**
   * The comparison one round of `verifyTOTPCode` makes: the rendered code
   * of `counter` against `code`; `None` when the key import throws.
   */
  function CompareCode(p: Platform, key: seq<byte>, code: string, counter: int): (r: Option<bool>)
    ensures r.None? <==> |key| == 0
    ensures r.Some? ==> (r.value <==> ShowsCode(p, key, code, counter))
  {
    match HmacSha1(p, key, CounterBlock(counter))
    case None => None
    case Some(mac) =>
      SixDigitCodeIff(Truncate(mac), code);
      Some(FormatCode(Truncate(mac), 6) == code)
  }

  /** A rendered six-digit code is `code` exactly when `code` spells the same number in six digits. */
  lemma SixDigitCodeIff(n: nat, code: string)
    ensures FormatCode(n, 6) == code <==> |code| == 6 && IsDigitString(code, 10) && DigitsValue(code, 10) == n % SixDigitModulus
  {
    assert Pow(10, 6) == SixDigitModulus;
    var f := FormatCode(n, 6);
    if |code| == 6 && IsDigitString(code, 10) && DigitsValue(code, 10) == n % SixDigitModulus {
      DecimalInjective(f, code);
    }
  }

  /** Decimal strings of one length that denote the same number are equal. */
  lemma {:induction false} DecimalInjective(s: string, t: string)
    requires |s| == |t| && IsDigitString(s, 10) && IsDigitString(t, 10)
    requires DigitsValue(s, 10) == DigitsValue(t, 10)
    ensures s == t
  {
    if |s| > 0 {
      var n := |s|;
      var s', t' := s[..n - 1], t[..n - 1];
      var a, b := DigitValue(s[n - 1]), DigitValue(t[n - 1]);
      assert IsDigitString(s', 10) && IsDigitString(t', 10);
      assert DigitsValue(s, 10) == 10 * DigitsValue(s', 10) + a;
      assert DigitsValue(t, 10) == 10 * DigitsValue(t', 10) + b;
      Bits.DivModUnique(DigitsValue(s, 10), 10, DigitsValue(s', 10), a);
      Bits.DivModUnique(DigitsValue(t, 10), 10, DigitsValue(t', 10), b);
      DecimalInjective(s', t');
      assert s[n - 1] == t[n - 1];
      FrontLast(s);
      FrontLast(t);
    }
  }

  /** Some counter at most `window` steps from `base` shows `code`. */
  predicate AcceptedWithin(p: Platform, key: seq<byte>, code: string, base: int, window: int)
  {
    exists i :: -window <= i <= window && AcceptedAt(p, key, code, base, i)
  }

  /**
   * `verifyTOTPCode(secret, code, window)`: tries the counters from `window`
   * steps back to `window` steps ahead and answers whether one of them shows
   * `code`. A negative window tries nothing; a secret that decodes to no
   * bytes makes the first HMAC key import throw, and nothing catches it.
   */
  method VerifyTotp(p: Platform, secret: string, code: string, nowMs: nat, window: int := 1) returns (r: Verdict)
    ensures r.Threw? <==> window >= 0 && |Base32.Decode(secret)| == 0
    ensures r.Answer? ==> r.ok == AcceptedWithin(p, Base32.Decode(secret), code, nowMs / 1000 / 30, window)
    ensures |code| != 6 ==> r != Answer(true)
  {
    ghost var key := Base32.Decode(secret);
    var now := nowMs / 1000;
    ghost var base := now / 30;
    var i := -window;
    while i <= window
      invariant window >= 0 ==> -window <= i <= window + 1
      invariant window < 0 ==> i == -window
      invariant i > -window ==> |key| > 0
      invariant forall j :: -window <= j < i ==> !AcceptedAt(p, key, code, base, j)
    {
      var hit := Round(p, secret, code, now, i, key, base);
      if hit.None? {
        return Threw;
      }
      if hit.value {
        HitAccepted(p, key, code, base, window, i);
        return Answer(true);
      }
      i := i + 1;
    }
    NoneAccepted(p, key, code, base, window, i);
    r := Answer(false);
  }

  lemma HitAccepted(p: Platform, key: seq<byte>, code: string, base: int, window: int, i: int)
    requires -window <= i <= window && AcceptedAt(p, key, code, base, i)
    ensures AcceptedWithin(p, key, code, base, window)
  {}

  /** Having tried every step up to `i`, which is past the window, none remain. */
  lemma NoneAccepted(p: Platform, key: seq<byte>, code: string, base: int, window: int, i: int)
    requires i > window
    requires forall j :: -window <= j < i ==> !AcceptedAt(p, key, code, base, j)
    ensures !AcceptedWithin(p, key, code, base, window)
  {}

  /**
   * One round of `verifyTOTPCode`: computes the six-digit code `i` steps
   * from the current time and compares it with `code`; `None` when the key
   * import throws.
   */
  method Round(p: Platform, secret: string, code: string, now: int, i: int, ghost key: seq<byte>, ghost base: int)
    returns (hit: Option<bool>)
    requires key == Base32.Decode(secret) && base == now / 30
    ensures hit.None? <==> |key| == 0
    ensures hit.Some? ==> (hit.value <==> AcceptedAt(p, key, code, base, i))
    ensures hit == Some(true) ==> |code| == 6
  {
    var time := now + i * 30;
    var counter := time / 30;
    StepCounter(now, i, time);
    var k := Base32.DecodeString(secret);
    hit := CompareCode(p, k, code, counter);
    RoundAnswer(p, k, code, counter, base, i, hit);
  }

  /** Moving the clock by `i` whole steps moves the counter by `i`. */
  lemma StepCounter(now: int, i: int, time: int)
    requires time == now + i * 30
    ensures time / 30 == now / 30 + i
  {
    Bits.DivModUnique(time, 30, now / 30 + i, now % 30);
  }

  /** The answer of one comparison, read as acceptance at step `i` from `base`. */
  lemma RoundAnswer(p: Platform, key: seq<byte>, code: string, counter: int, base: int, i: int, hit: Option<bool>)
    requires counter == base + i
    requires hit.None? <==> |key| == 0
    requires hit.Some? ==> (hit.value <==> ShowsCode(p, key, code, counter))
    ensures hit.None? <==> |key| == 0
    ensures hit.Some? ==> (hit.value <==> AcceptedAt(p, key, code, base, i))
    ensures hit == Some(true) ==> |code| == 6
  {}

  /**
   * A code shown by `generateTOTP` with the default step and width is
   * accepted by `verifyTOTPCode` at any time up to `window` steps away.
   */
  lemma SkewAccepted(p: Platform, secret: string, shownMs: nat, nowMs: nat, window: int)
    requires !GenerateTotp(p, secret, shownMs, 30, 6).error
    requires -window <= shownMs / 1000 / 30 - nowMs / 1000 / 30 <= window
    ensures AcceptedWithin(p, Base32.Decode(secret), GenerateTotp(p, secret, shownMs, 30, 6).code, nowMs / 1000 / 30, window)
  {
    ShownCodeAccepted(p, Base32.Decode(secret), GenerateTotp(p, secret, shownMs, 30, 6).code, shownMs / 1000 / 30, nowMs / 1000 / 30, window);
  }

  /** The six-digit code of counter `shown` is accepted around any `base` at most `window` steps away. */
  lemma ShownCodeAccepted(p: Platform, key: seq<byte>, code: string, shown: int, base: int, window: int)
    requires Some(code) == HotpCode(p, key, shown, 6)
    requires -window <= shown - base <= window
    ensures AcceptedWithin(p, key, code, base, window)
  {
    var i := shown - base;
    assert ShowsCode(p, key, code, shown) by {
      var mac := p.hmacSha1(key, CounterBlock(shown));
      assert Some(code) == Some(FormatCode(Truncate(mac), 6));
      SixDigitCodeIff(Truncate(mac), code);
    }
    assert AcceptedAt(p, key, code, base, i) by {
      SameValue(p, key, shown, base + i);
    }
  }

  /** The `otpauth://totp/` path: the encoded `issuer:account` label. */
  function UriPath(p: Platform, accountName: string, issuer: string): string
  {
    "otpauth://totp/" + p.uriComponent(issuer + ":" + accountName)
  }

  /** One serialised `name=value` entry. */
  function Entry(name: string, value: string): string
  {
    name + "=" + value
  }

  /** Serialised entries, one per name and value. */
  function Entries(names: seq<string>, values: seq<string>): (r: seq<string>)
    requires |names| == |values|
    ensures |r| == |names|
  {
    seq(|names|, k requires 0 <= k < |names| => Entry(names[k], values[k]))
  }

  const ParamNames: seq<string> := ["secret", "issuer", "algorithm", "digits", "period"]

  /**
   * The values of the `URLSearchParams` entries, in insertion order, each
   * form-encoded; the three constant values are letters and digits, which
   * the encoding leaves as they are.
   */
  function ParamValues(p: Platform, secret: string, issuer: string): seq<string>
  {
    [p.formEncode(secret), p.formEncode(issuer), "SHA1", "6", "30"]
  }

  /** The issuer `generateQRCodeURL` falls back on when its caller names none. */
  const DefaultIssuer: string := "Password Manager"

  /**
   * `generateQRCodeURL(secret, accountName, issuer = "Password Manager")`:
   * the path with the label, a `?`, then the serialised query. Only the
   * separator is a `?`, so the path is everything before the first one.
   */
  function ProvisioningUri(p: Platform, secret: string, accountName: string, issuer: string := DefaultIssuer): (r: string)
    ensures |r| > |UriPath(p, accountName, issuer)| && r[..|UriPath(p, accountName, issuer)|] == UriPath(p, accountName, issuer)
    ensures r[|UriPath(p, accountName, issuer)|] == '?'
    ensures r[..15] == "otpauth://totp/"
    ensures p.Valid() ==> '?' !in r[..|UriPath(p, accountName, issuer)|]
  {
    UriPath(p, accountName, issuer) + "?" + Join(Entries(ParamNames, ParamValues(p, secret, issuer)), '&')
  }

  /** One `name=value` query entry read back. */
  function ReadParam(entry: string): (string, string)
  {
    var kv := Split(entry, '=');
    (kv[0], if |kv| > 1 then kv[1] else "")
  }

  /** The entries of a query string read back, in order. */
  function ReadQuery(query: string): seq<(string, string)>
  {
    var entries := Split(query, '&');
    seq(|entries|, k requires 0 <= k < |entries| => ReadParam(entries[k]))
  }

  /**
   * The provisioning URI reads back: everything before `?` is the path with
   * the encoded label, and the query gives the five parameters in order,
   * each with its encoded value.
   */
  lemma ProvisioningUriReads(p: Platform, secret: string, accountName: string, issuer: string)
    requires p.Valid()
    ensures var parts := Split(ProvisioningUri(p, secret, accountName, issuer), '?');
      && |parts| == 2
      && parts[0] == UriPath(p, accountName, issuer)
      && ReadQuery(parts[1]) == Pairs(ParamNames, ParamValues(p, secret, issuer))
  {
    var path := UriPath(p, accountName, issuer);
    var values := ParamValues(p, secret, issuer);
    var query := Join(Entries(ParamNames, values), '&');
    assert '?' !in path by {
      PathAvoids(p, accountName, issuer);
    }
    assert AllUrlSafe(ParamNames) && AllUrlSafe(values) by {
      ParamsSafe(p, secret, issuer);
    }
    assert '?' !in query by {
      EntriesAvoid(ParamNames, values);
      JoinAvoids(Entries(ParamNames, values), '&', '?');
    }
    assert Join([path, query], '?') == ProvisioningUri(p, secret, accountName, issuer);
    SplitJoin([path, query], '?');
    ReadEntries(ParamNames, values);
  }

  /**
   * The call with the issuer left out, as the TOTP setup dialog makes it:
   * the label is the encoded `Password Manager:<account>`, and the query
   * carries the secret and `Password Manager` as its first two values.
   */
  lemma DefaultIssuerUri(p: Platform, secret: string, accountName: string)
    requires p.Valid()
    ensures var parts := Split(ProvisioningUri(p, secret, accountName), '?');
      && |parts| == 2
      && parts[0] == "otpauth://totp/" + p.uriComponent(DefaultIssuer + ":" + accountName)
      && |ReadQuery(parts[1])| == 5
      && ReadQuery(parts[1])[0] == ("secret", p.formEncode(secret))
      && ReadQuery(parts[1])[1] == ("issuer", p.formEncode(DefaultIssuer))
  {
    ProvisioningUriReads(p, secret, accountName, DefaultIssuer);
    FirstPairs(p, secret, DefaultIssuer);
  }

  lemma FirstPairs(p: Platform, secret: string, issuer: string)
    ensures var pairs := Pairs(ParamNames, ParamValues(p, secret, issuer));
      |pairs| == 5 && pairs[0] == ("secret", p.formEncode(secret)) && pairs[1] == ("issuer", p.formEncode(issuer))
  {}

  lemma PathAvoids(p: Platform, accountName: string, issuer: string)
    requires p.Valid()
    ensures '?' !in UriPath(p, accountName, issuer)
  {
    assert UrlSafe(p.uriComponent(issuer + ":" + accountName));
    assert '?' !in "otpauth://totp/";
  }

  predicate AllUrlSafe(ss: seq<string>)
  {
    forall k :: 0 <= k < |ss| ==> UrlSafe(ss[k])
  }

  lemma ParamsSafe(p: Platform, secret: string, issuer: string)
    requires p.Valid()
    ensures AllUrlSafe(ParamNames) && AllUrlSafe(ParamValues(p, secret, issuer))
  {
    assert UrlSafe(p.formEncode(secret)) && UrlSafe(p.formEncode(issuer));
    forall k | 0 <= k < |ParamNames|
      ensures UrlSafe(ParamNames[k]) && UrlSafe(ParamValues(p, secret, issuer)[k])
    {
      LettersUrlSafe(ParamNames[k]);
      if k >= 2 {
        LettersUrlSafe(ParamValues(p, secret, issuer)[k]);
      }
    }
  }

  /** Letters and digits are none of the query delimiters. */
  lemma LettersUrlSafe(s: string)
    requires forall c :: c in s ==> 'a' <= c <= 'z' || 'A' <= c <= 'Z' || '0' <= c <= '9'
    ensures UrlSafe(s)
  {}

  /** Names paired with values. */
  function Pairs(names: seq<string>, values: seq<string>): (r: seq<(string, string)>)
    requires |names| == |values|
  {
    seq(|names|, k requires 0 <= k < |names| => (names[k], values[k]))
  }

  /** Serialised entries whose names and values avoid `?`, `&` and `=` read back as the pairs. */
  lemma ReadEntries(names: seq<string>, values: seq<string>)
    requires |names| == |values| >= 1
    requires AllUrlSafe(names) && AllUrlSafe(values)
    ensures ReadQuery(Join(Entries(names, values), '&')) == Pairs(names, values)
  {
    var es := Entries(names, values);
    EntriesAvoid(names, values);
    SplitJoin(es, '&');
    forall k | 0 <= k < |names|
      ensures ReadParam(es[k]) == (names[k], values[k])
    {
      ReadEntry(names[k], values[k]);
    }
  }

  lemma EntriesAvoid(names: seq<string>, values: seq<string>)
    requires |names| == |values|
    requires AllUrlSafe(names) && AllUrlSafe(values)
    ensures forall k :: 0 <= k < |names| ==> '&' !in Entries(names, values)[k] && '?' !in Entries(names, values)[k]
  {
    forall k | 0 <= k < |names|
      ensures '&' !in Entries(names, values)[k] && '?' !in Entries(names, values)[k]
    {
      assert UrlSafe(names[k]) && UrlSafe(values[k]);
    }
  }

  lemma ReadEntry(name: string, value: string)
    requires '=' !in name && '=' !in value
    ensures ReadParam(Entry(name, value)) == (name, value)
  {
    assert Join([name, value], '=') == Entry(name, value);
    SplitJoin([name, value], '=');
  }

  /** A character in no part, other than the separator, is not in the joined string. */
  lemma {:induction false} JoinAvoids(parts: seq<string>, sep: char, c: char)
    requires c != sep
    requires forall k :: 0 <= k < |parts| ==> c !in parts[k]
    ensures c !in Join(parts, sep)
  {
    if |parts| > 1 {
      JoinAvoids(parts[1..], sep, c);
    }
  }

  /**
   * `generateSecret()` given the 20 bytes `getRandomValues` draws: 32
   * base32 symbols from which `base32Decode` recovers the bytes.
   */
  method GenerateSecret(random: seq<byte>) returns (secret: string)
    requires |random| == 20
    ensures |secret| == 32
    ensures forall j :: 0 <= j < |secret| ==> secret[j] in Base32.Alphabet
    ensures Base32.Decode(secret) == random
  {
    secret := Base32.EncodeBuffer(random);
    Base32.SecretLength(random);
    Base32.DecodeEncode(random);
  }
}

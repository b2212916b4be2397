/**
 * `breachCheck.js`: the k-anonymity range query of the Pwned Passwords
 * service. Only the first five hex digits of the password's SHA-1 leave
 * the browser; the response lists `SUFFIX:COUNT` lines for that range and
 * is scanned for the remaining 35 digits. The network is a function from
 * request URL to response.
 */
module BreachCheck {
  import opened Types
  import opened JsString
  import opened Platform
  import opened Records
  import Hex

  /** `sha1Hash(password)`: the SHA-1 of the UTF-8 bytes as 40 upper-case hex digits. */
  function Sha1Hash(p: Platform, password: string): (r: string)
    ensures |r| == 40
  {
    Hex.UpperHex(p.sha1(p.utf8Encode(password)))
  }

  /** The hash is upper-case hex that reads back as the digest. */
  lemma Sha1HashReads(p: Platform, password: string)
    ensures forall k :: 0 <= k < |Sha1Hash(p, password)| ==> Hex.IsUpperHexDigit(Sha1Hash(p, password)[k])
    ensures Hex.ParseHex(Sha1Hash(p, password)) == Some(p.sha1(p.utf8Encode(password)))
  {
    Hex.UpperHexDigits(p.sha1(p.utf8Encode(password)));
    Hex.ParseUpperHex(p.sha1(p.utf8Encode(password)));
  }

  const PrefixLength: nat := 5

  /** `hash.substring(0, 5)`. */
  function Prefix(hash: string): string
  {
    hash[..Min(PrefixLength, |hash|)]
  }

  /** `hash.substring(5)`. */
  function Suffix(hash: string): string
  {
    hash[Min(PrefixLength, |hash|)..]
  }

  /** A 40-digit hash splits into a 5-digit prefix and a 35-digit suffix that put back together give the hash. */
  lemma PrefixSuffixSplit(hash: string)
    requires |hash| == 40
    ensures |Prefix(hash)| == 5 && |Suffix(hash)| == 35
    ensures Prefix(hash) + Suffix(hash) == hash
  {}

  const RangeEndpoint: string := "https://api.pwnedpasswords.com/range/"

  /** The request URL: the endpoint followed by the prefix. */
  function RangeUrl(prefix: string): string
  {
    RangeEndpoint + prefix
  }

  /** A `fetch` that resolved: its `ok` flag and the body `text()` gives. */
  datatype Response = Response(ok: bool, body: string)

  /** The network: `None` when `fetch` rejects. Equal URLs get equal answers. */
  type Network = string -> Option<Response>

  /**
   * The three results: `breached: true` with the parsed count (`None` for
   * `NaN`), `breached: false, count: 0`, and `breached: null, error: true`.
   */
  datatype Outcome = Breached(count: Option<int>) | NotFound | CheckFailed

  const NotFoundMessage: string := "This password has not been found in any known data breaches"
  const FailedMessage: string := "Unable to check password against breach database"

  /** The `message` of the results whose text does not depend on the locale. */
  function FixedMessage(o: Outcome): Option<string>
  {
    match o
    case Breached(_) => None
    case NotFound => Some(NotFoundMessage)
    case CheckFailed => Some(FailedMessage)
  }

  /** A line without the one `\r` that precedes its `\n`. */
  function DropCr(line: string): string
  {
    if |line| > 0 && line[|line| - 1] == '\r' then line[..|line| - 1] else line
  }

  /** `text.split(/\r?\n/)`: a `\r` just before a `\n` goes with the separator; the last line keeps its own. */
  function SplitLines(text: string): (lines: seq<string>)
    ensures |lines| >= 1
    ensures forall k :: 0 <= k < |lines| ==> '\n' !in lines[k]
  {
    var pieces := Split(text, '\n');
    seq(|pieces|, k requires 0 <= k < |pieces| => if k < |pieces| - 1 then DropCr(pieces[k]) else pieces[k])
  }

  /** Lines ended by CRLF, as the service writes them; the last one has no terminator. */
  function CrlfText(lines: seq<string>): string
    requires |lines| >= 1
  {
    Join(seq(|lines|, k requires 0 <= k < |lines| => if k < |lines| - 1 then lines[k] + "\r" else lines[k]), '\n')
  }

  /** Splitting a CRLF text gives back its lines. */
  lemma SplitCrlfText(lines: seq<string>)
    requires |lines| >= 1
    requires forall k :: 0 <= k < |lines| ==> '\n' !in lines[k]
    ensures SplitLines(CrlfText(lines)) == lines
  {
    var raw := seq(|lines|, k requires 0 <= k < |lines| => if k < |lines| - 1 then lines[k] + "\r" else lines[k]);
    assert forall k :: 0 <= k < |raw| ==> '\n' !in raw[k];
    SplitJoin(raw, '\n');
    var split := SplitLines(CrlfText(lines));
    forall k | 0 <= k < |lines|
      ensures split[k] == lines[k]
    {
      if k < |lines| - 1 {
        assert DropCr(lines[k] + "\r") == lines[k];
      }
    }
  }

  /** The text of a line before its first `:`, trimmed: what is compared with the suffix. */
  function LineSuffix(line: string): string
  {
    Trim(Split(line, ':')[0])
  }

  /** A line that is not blank and names `suffix`. */
  predicate Names(line: string, suffix: string)
  {
    Trim(line) != "" && LineSuffix(line) == suffix
  }

  /**
   * What a named line reports: the count after the `:`, read by `parseInt`;
   * a line without `:` leaves `count` undefined, and `count.trim()` throws.
   */
  function LineOutcome(line: string): (r: Outcome)
    ensures r != NotFound
    ensures r == CheckFailed <==> ':' !in line
  {
    var parts := Split(line, ':');
    if |parts| > 1 then Breached(ParseInt(Trim(parts[1]))) else CheckFailed
  }

  /** The `for` loop: blank lines skipped, the first line naming `suffix` decides, none gives `NotFound`. */
  function ScanLines(lines: seq<string>, suffix: string): (r: Outcome)
    ensures r != NotFound ==> exists i :: 0 <= i < |lines| && Names(lines[i], suffix) && r == LineOutcome(lines[i])
  {
    if |lines| == 0 then NotFound
    else if Trim(lines[0]) == "" then ScanLines(lines[1..], suffix)
    else if LineSuffix(lines[0]) == suffix then LineOutcome(lines[0])
    else ScanLines(lines[1..], suffix)
  }

  /** The scan gives `NotFound` exactly when no line names the suffix. */
  lemma {:induction false} ScanNotFound(lines: seq<string>, suffix: string)
    ensures ScanLines(lines, suffix) == NotFound <==> forall i :: 0 <= i < |lines| ==> !Names(lines[i], suffix)
  {
    if |lines| > 0 {
      var rest := lines[1..];
      ScanNotFound(rest, suffix);
      if Names(lines[0], suffix) {
        assert ScanLines(lines, suffix) == LineOutcome(lines[0]);
      } else {
        assert ScanLines(lines, suffix) == ScanLines(rest, suffix);
        NamesShift(lines, suffix);
      }
    }
  }

  lemma NamesShift(lines: seq<string>, suffix: string)
    requires |lines| > 0 && !Names(lines[0], suffix)
    ensures (forall i :: 0 <= i < |lines| ==> !Names(lines[i], suffix))
        <==> (forall i :: 0 <= i < |lines[1..]| ==> !Names(lines[1..][i], suffix))
  {
    assert forall i :: 1 <= i < |lines| ==> lines[i] == lines[1..][i - 1];
  }

  /** The scan reports the first line that names the suffix. */
  lemma {:induction false} ScanFindsFirst(lines: seq<string>, suffix: string, i: nat)
    requires i < |lines| && Names(lines[i], suffix)
    requires forall j :: 0 <= j < i ==> !Names(lines[j], suffix)
    ensures ScanLines(lines, suffix) == LineOutcome(lines[i])
  {
    if i > 0 {
      var rest := lines[1..];
      assert !Names(lines[0], suffix);
      assert rest[i - 1] == lines[i];
      forall j | 0 <= j < i - 1
        ensures !Names(rest[j], suffix)
      {
        assert rest[j] == lines[j + 1];
      }
      ScanFindsFirst(rest, suffix, i - 1);
    }
  }

  /** `checkPassword(password)` against `network`. */
  function CheckPassword(p: Platform, password: string, network: Network): (r: Outcome)
    ensures var answer := network(RangeUrl(Prefix(Sha1Hash(p, password))));
      r != CheckFailed ==> answer.Some? && answer.value.ok
    ensures var answer := network(RangeUrl(Prefix(Sha1Hash(p, password))));
      r.Breached? ==>
        && answer.Some?
        && var lines := SplitLines(answer.value.body);
        && exists i :: 0 <= i < |lines| && Names(lines[i], Suffix(Sha1Hash(p, password))) && r == LineOutcome(lines[i])
  {
    var hash := Sha1Hash(p, password);
    match network(RangeUrl(Prefix(hash)))
    case None => CheckFailed
    case Some(response) =>
      if !response.ok then CheckFailed
      else ScanLines(SplitLines(response.body), Suffix(hash))
  }

  /**
   * Only the 5-digit prefix is sent: the one request goes to the endpoint
   * plus that prefix, and any two networks that answer it alike give the
   * same result.
   */
  lemma OnlyPrefixSent(p: Platform, password: string, n1: Network, n2: Network)
    requires n1(RangeUrl(Prefix(Sha1Hash(p, password)))) == n2(RangeUrl(Prefix(Sha1Hash(p, password))))
    ensures CheckPassword(p, password, n1) == CheckPassword(p, password, n2)
    ensures |RangeUrl(Prefix(Sha1Hash(p, password)))| == |RangeEndpoint| + PrefixLength
  {
    var hash := Sha1Hash(p, password);
    assert |Prefix(hash)| == PrefixLength;
  }

  /** A failed or unsuccessful request is an error, never a verdict about the password. */
  lemma FailureIsError(p: Platform, password: string, network: Network)
    requires network(RangeUrl(Prefix(Sha1Hash(p, password)))).None?
          || !network(RangeUrl(Prefix(Sha1Hash(p, password)))).value.ok
    ensures CheckPassword(p, password, network) == CheckFailed
    ensures FixedMessage(CheckPassword(p, password, network)) == Some(FailedMessage)
  {}

  /**
   * A range response whose line for the suffix reads `SUFFIX:COUNT`, with
   * no earlier line naming it, reports the password breached `COUNT` times.
   */
  lemma ReportsListedCount(p: Platform, password: string, network: Network, lines: seq<string>, i: nat, count: nat)
    requires |lines| >= 1 && forall k :: 0 <= k < |lines| ==> '\n' !in lines[k]
    requires network(RangeUrl(Prefix(Sha1Hash(p, password)))) == Some(Response(true, CrlfText(lines)))
    requires i < |lines| && lines[i] == Suffix(Sha1Hash(p, password)) + ":" + NumberToString(count, 10)
    requires forall j :: 0 <= j < i ==> !Names(lines[j], Suffix(Sha1Hash(p, password)))
    ensures CheckPassword(p, password, network) == Breached(Some(count))
  {
    var suffix := Suffix(Sha1Hash(p, password));
    SplitCrlfText(lines);
    SuffixIsHex(p, password);
    CountLine(suffix, count);
    ScanFindsFirst(lines, suffix, i);
  }

  /** Every character of a suffix is an upper-case hex digit, and there are some. */
  lemma SuffixIsHex(p: Platform, password: string)
    ensures var suffix := Suffix(Sha1Hash(p, password));
      |suffix| >= 1 && forall k :: 0 <= k < |suffix| ==> Hex.IsUpperHexDigit(suffix[k])
  {
    var hash := Sha1Hash(p, password);
    Sha1HashReads(p, password);
    assert forall k :: 0 <= k < |Suffix(hash)| ==> Suffix(hash)[k] == hash[5 + k];
  }

  /** The line `SUFFIX:COUNT` names the suffix and reports the count. */
  lemma CountLine(suffix: string, count: nat)
    requires |suffix| >= 1 && forall k :: 0 <= k < |suffix| ==> Hex.IsUpperHexDigit(suffix[k])
    ensures Names(suffix + ":" + NumberToString(count, 10), suffix)
    ensures LineOutcome(suffix + ":" + NumberToString(count, 10)) == Breached(Some(count))
  {
    DigitsLine(suffix, NumberToString(count, 10));
  }

  lemma DigitsLine(suffix: string, digits: string)
    requires |suffix| >= 1 && forall k :: 0 <= k < |suffix| ==> Hex.IsUpperHexDigit(suffix[k])
    requires |digits| >= 1 && IsDigitString(digits, 10) && forall k :: 0 <= k < |digits| ==> IsLowerDigit(digits[k])
    ensures Names(suffix + ":" + digits, suffix)
    ensures LineOutcome(suffix + ":" + digits) == Breached(Some(DigitsValue(digits, 10)))
  {
    var line := suffix + ":" + digits;
    LineParts(suffix, digits);
    NotSpace(suffix[0]);
    NotSpace(suffix[|suffix| - 1]);
    NotSpace(digits[0]);
    NotSpace(digits[|digits| - 1]);
    TrimsNothing(suffix);
    TrimsNothing(digits);
    assert line[0] == suffix[0] && line[|line| - 1] == digits[|digits| - 1];
    TrimsNothing(line);
    ParseIntDigits(digits);
  }

  /** The line splits at its one `:`. */
  lemma LineParts(suffix: string, digits: string)
    requires forall k :: 0 <= k < |suffix| ==> Hex.IsUpperHexDigit(suffix[k])
    requires forall k :: 0 <= k < |digits| ==> IsLowerDigit(digits[k])
    ensures Split(suffix + ":" + digits, ':') == [suffix, digits]
  {
    assert ':' !in suffix by {
      forall k | 0 <= k < |suffix|
        ensures suffix[k] != ':'
      {
        assert Hex.IsUpperHexDigit(suffix[k]);
      }
    }
    assert ':' !in digits by {
      forall k | 0 <= k < |digits|
        ensures digits[k] != ':'
      {
        assert IsLowerDigit(digits[k]);
      }
    }
    assert Join([suffix, digits], ':') == suffix + ":" + digits;
    SplitJoin([suffix, digits], ':');
  }

  /** Digits and letters are not whitespace. */
  lemma NotSpace(c: char)
    requires IsLowerDigit(c) || Hex.IsUpperHexDigit(c)
    ensures !IsWhitespace(c)
  {}

  /** A string that neither starts nor ends with whitespace is its own trim. */
  lemma TrimsNothing(s: string)
    requires |s| >= 1 && !IsWhitespace(s[0]) && !IsWhitespace(s[|s| - 1])
    ensures Trim(s) == s
  {
    assert TrimStart(s) == s;
  }

  /** One result of the batch: the entry's `id`, `site` and `username` followed by its check. */
  datatype BatchResult = BatchResult(id: Option<Json>, site: Option<Json>, username: Option<Json>, outcome: Outcome)

  /** The text `TextEncoder.encode` hashes for `entry.password`: `undefined` encodes as the empty string. */
  function PasswordText(p: Platform, v: Option<Json>): string
  {
    match v
    case None => ""
    case Some(Str(s)) => s
    case Some(other) => p.toJsString(other)
  }

  /** The result the batch records for one entry. */
  function EntryResult(p: Platform, entry: Record, network: Network): BatchResult
  {
    BatchResult(Field(entry, "id"), Field(entry, "site"), Field(entry, "username"),
      CheckPassword(p, PasswordText(p, Field(entry, "password")), network))
  }

  /** `checkMultiplePasswords(passwords)`: one result per entry, in the entries' order. */
  method CheckMultiplePasswords(p: Platform, entries: seq<Record>, network: Network) returns (results: seq<BatchResult>)
    ensures |results| == |entries|
    ensures forall k :: 0 <= k < |entries| ==>
      && results[k].id == Field(entries[k], "id")
      && results[k].site == Field(entries[k], "site")
      && results[k].username == Field(entries[k], "username")
      && results[k].outcome == CheckPassword(p, PasswordText(p, Field(entries[k], "password")), network)
  {
    results := [];
    var i := 0;
    while i < |entries|
      invariant 0 <= i <= |entries|
      invariant |results| == i
      invariant forall k :: 0 <= k < i ==> results[k] == EntryResult(p, entries[k], network)
    {
      results := results + [EntryResult(p, entries[i], network)];
      i := i + 1;
    }
  }
}

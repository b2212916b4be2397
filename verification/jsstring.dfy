/**
 * The JavaScript string operations the core relies on: `trim`, `split` on one
 * character, `join`, `padStart`, `toUpperCase`, `indexOf`,
 * `Number.prototype.toString(radix)` on non-negative integers, and
 * `parseInt(s, 10)`.
 *
 * Strings are sequences of characters; JavaScript counts UTF-16 code units,
 * which differs only for characters outside the Basic Multilingual Plane.
 */
module JsString {
  import opened Types

  /** ECMAScript WhiteSpace and LineTerminator: the characters `trim` strips. */
  predicate IsWhitespace(c: char)
  {
    || c == ' ' || c == '\t' || c == '\n' || c == '\r'
    || c == '\U{000B}' || c == '\U{000C}' || c == '\U{00A0}' || c == '\U{1680}'
    || ('\U{2000}' <= c <= '\U{200A}')
    || c == '\U{2028}' || c == '\U{2029}' || c == '\U{202F}' || c == '\U{205F}'
    || c == '\U{3000}' || c == '\U{FEFF}'
  }

  predicate AllWhitespace(s: string)
  {
    forall k :: 0 <= k < |s| ==> IsWhitespace(s[k])
  }

  /** `s.trimStart()`: the suffix left after dropping leading whitespace. */
  function TrimStart(s: string): (r: string)
    ensures |r| <= |s| && r == s[|s| - |r|..]
    ensures |r| > 0 ==> !IsWhitespace(r[0])
    ensures AllWhitespace(s[..|s| - |r|])
  {
    if |s| > 0 && IsWhitespace(s[0]) then TrimStart(s[1..]) else s
  }

  /** `s.trimEnd()`: the prefix left after dropping trailing whitespace. */
  function TrimEnd(s: string): (r: string)
    ensures |r| <= |s| && r == s[..|r|]
    ensures |r| > 0 ==> !IsWhitespace(r[|r| - 1])
    ensures AllWhitespace(s[|r|..])
  {
    if |s| > 0 && IsWhitespace(s[|s| - 1]) then TrimEnd(s[..|s| - 1]) else s
  }

  /** `s.trim()`. */
  function Trim(s: string): string
  {
    TrimEnd(TrimStart(s))
  }

  /** `!s.trim()` holds exactly of the strings made only of whitespace. */
  lemma TrimEmptyIff(s: string)
    ensures Trim(s) == "" <==> AllWhitespace(s)
  {
    var t := TrimStart(s);
    if Trim(s) == "" {
      assert AllWhitespace(t[0..]);
      assert s == s[..|s| - |t|] + t;
    }
  }

  /** `s.indexOf(c)` for one character: the first position of `c`, or -1. */
  function IndexOf(s: string, c: char): (r: int)
    ensures -1 <= r < |s|
    ensures r == -1 <==> c !in s
    ensures r >= 0 ==> s[r] == c && c !in s[..r]
  {
    if |s| == 0 then -1
    else if s[0] == c then 0
    else
      var k := IndexOf(s[1..], c);
      assert s[1..][..Max(k, 0)] == s[1..Max(k, 0) + 1];
      if k == -1 then -1 else k + 1
  }

  /** `t` occurs in `s` starting at position `j`. */
  predicate OccursAt(s: string, t: string, j: int)
  {
    0 <= j && j + |t| <= |s| && s[j..j + |t|] == t
  }

  /** `s.indexOf(t)` for a search string: the first position where `t` occurs, or -1. */
  function IndexOfText(s: string, t: string): (r: int)
    ensures r == -1 || OccursAt(s, t, r)
    ensures r == -1 ==> forall j :: !OccursAt(s, t, j)
    ensures forall j :: 0 <= j < r ==> !OccursAt(s, t, j)
    decreases |s|
  {
    if |t| > |s| then -1
    else if s[..|t|] == t then 0
    else
      var k := IndexOfText(s[1..], t);
      assert !OccursAt(s, t, 0) by {
        assert s[0..|t|] == s[..|t|];
      }
      assert forall j :: 1 <= j ==> (OccursAt(s, t, j) <==> OccursAt(s[1..], t, j - 1)) by {
        forall j | 1 <= j
          ensures OccursAt(s, t, j) <==> OccursAt(s[1..], t, j - 1)
        {
          if j + |t| <= |s| {
            assert s[1..][j - 1..j - 1 + |t|] == s[j..j + |t|];
          }
        }
      }
      if k == -1 then -1 else k + 1
  }

  /** Searching for a one-character text is searching for the character. */
  lemma IndexOfOneChar(s: string, c: char)
    ensures IndexOfText(s, [c]) == IndexOf(s, c)
  {
    var r := IndexOf(s, c);
    forall j | 0 <= j && j + 1 <= |s| && (r == -1 || j < r)
      ensures !OccursAt(s, [c], j)
    {
      assert s[j..j + 1] == [s[j]];
      if r >= 0 {
        assert s[..r][j] == s[j];
      }
    }
    if r >= 0 {
      assert s[r..r + 1] == [c];
    }
  }

  /** `s.split(sep)` for a one-character separator. */
  function Split(s: string, sep: char): (r: seq<string>)
    ensures |r| >= 1
    ensures forall k :: 0 <= k < |r| ==> sep !in r[k]
    decreases |s|
  {
    var i := IndexOf(s, sep);
    if i == -1 then [s] else [s[..i]] + Split(s[i + 1..], sep)
  }

  /** `parts.join(sep)` for a one-character separator. */
  function Join(parts: seq<string>, sep: char): string
  {
    if |parts| == 0 then ""
    else if |parts| == 1 then parts[0]
    else parts[0] + [sep] + Join(parts[1..], sep)
  }

  /** Splitting undoes joining when no part contains the separator. */
  lemma {:induction false} SplitJoin(parts: seq<string>, sep: char)
    requires |parts| >= 1
    requires forall k :: 0 <= k < |parts| ==> sep !in parts[k]
    ensures Split(Join(parts, sep), sep) == parts
  {
    if |parts| > 1 {
      var s := Join(parts, sep);
      var rest := Join(parts[1..], sep);
      assert s == parts[0] + [sep] + rest;
      assert s[..|parts[0]|] == parts[0];
      assert s[|parts[0]|] == sep;
      assert IndexOf(s, sep) == |parts[0]| by {
        assert sep !in s[..|parts[0]|];
      }
      assert s[|parts[0]| + 1..] == rest;
      SplitJoin(parts[1..], sep);
    }
  }

  /** Joining undoes splitting. */
  lemma {:induction false} JoinSplit(s: string, sep: char)
    ensures Join(Split(s, sep), sep) == s
    decreases |s|
  {
    var i := IndexOf(s, sep);
    if i != -1 {
      JoinSplit(s[i + 1..], sep);
      JoinSplitStep(s, sep, i);
    }
  }

  /** One step of `JoinSplit`: the part before the first separator, then the rest. */
  lemma JoinSplitStep(s: string, sep: char, i: nat)
    requires i < |s| && IndexOf(s, sep) == i
    requires Join(Split(s[i + 1..], sep), sep) == s[i + 1..]
    ensures Join(Split(s, sep), sep) == s
  {
    var head, tail := s[..i], s[i + 1..];
    assert Split(s, sep) == [head] + Split(tail, sep);
    JoinCons(head, Split(tail, sep), sep);
    assert s == head + [sep] + tail;
  }

  lemma JoinCons(head: string, rest: seq<string>, sep: char)
    requires |rest| >= 1
    ensures Join([head] + rest, sep) == head + [sep] + Join(rest, sep)
  {
    assert ([head] + rest)[1..] == rest;
  }

  /** `s.padStart(len, fill)` with a one-character fill. */
  function PadStart(s: string, len: nat, fill: char): (r: string)
    ensures |r| == Max(len, |s|)
    ensures r[|r| - |s|..] == s
    ensures forall k :: 0 <= k < |r| - |s| ==> r[k] == fill
  {
    if |s| >= len then s else seq(len - |s|, _ => fill) + s
  }

  /**
   * `toUpperCase` of one character, as the text it becomes under Unicode's
   * full case mapping. Spelled out are the ASCII letters and every character
   * whose upper case holds an ASCII character: the dotless i and the long s,
   * which become `I` and `S`; the sharp s, which becomes `SS`; `ŉ` and the
   * letters `ǰ`, `ẖ`, `ẗ`, `ẘ`, `ẙ`, `ẚ`, which have no precomposed capital
   * and become a letter and a mark; and the Latin ligatures U+FB00..U+FB06,
   * which become their letters. Any other character is kept as it is.
   */
  function UpperText(c: char): (r: string)
    ensures |r| >= 1
    ensures 'a' <= c <= 'z' ==> r == [(c as int - 32) as char]
    ensures c < '\U{80}' && !('a' <= c <= 'z') ==> r == [c]
  {
    if 'a' <= c <= 'z' then [(c as int - 32) as char]
    else if c == '\U{131}' then "I"
    else if c == '\U{17F}' then "S"
    else if c == '\U{DF}' then "SS"
    else if c == '\U{149}' then "\U{2BC}N"
    else if c == '\U{1F0}' then "J\U{30C}"
    else if c == '\U{1E96}' then "H\U{331}"
    else if c == '\U{1E97}' then "T\U{308}"
    else if c == '\U{1E98}' then "W\U{30A}"
    else if c == '\U{1E99}' then "Y\U{30A}"
    else if c == '\U{1E9A}' then "A\U{2BE}"
    else if c == '\U{FB00}' then "FF"
    else if c == '\U{FB01}' then "FI"
    else if c == '\U{FB02}' then "FL"
    else if c == '\U{FB03}' then "FFI"
    else if c == '\U{FB04}' then "FFL"
    else if c == '\U{FB05}' || c == '\U{FB06}' then "ST"
    else [c]
  }

  /** A character that upper-cases to one character upper-cases to itself after that. */
  lemma UpperTextIdempotent(c: char)
    requires |UpperText(c)| == 1
    ensures UpperText(UpperText(c)[0]) == UpperText(c)
  {}

  /** `s.toUpperCase()`: the upper-case text of each character, in order. */
  function ToUpper(s: string): (r: string)
    ensures |r| >= |s|
  {
    if |s| == 0 then "" else ToUpper(s[..|s| - 1]) + UpperText(s[|s| - 1])
  }

  /** Where every character upper-cases to a single one, `toUpperCase` keeps each position. */
  lemma {:induction false} ToUpperSingle(s: string)
    requires forall k :: 0 <= k < |s| ==> |UpperText(s[k])| == 1
    ensures |ToUpper(s)| == |s|
    ensures forall k :: 0 <= k < |s| ==> ToUpper(s)[k] == UpperText(s[k])[0]
  {
    if |s| > 0 {
      ToUpperSingle(s[..|s| - 1]);
    }
  }

  function Pow(b: nat, e: nat): (r: nat)
    ensures b >= 1 ==> r >= 1
  {
    if e == 0 then 1 else b * Pow(b, e - 1)
  }

  /** The digits `Number.prototype.toString` writes: decimal digits and lower-case letters. */
  predicate IsLowerDigit(c: char)
  {
    '0' <= c <= '9' || 'a' <= c <= 'z'
  }

  /** The digit character `Number.prototype.toString` uses for `d`. */
  function DigitChar(d: nat): char
    requires d < 36
  {
    if d < 10 then ('0' as int + d) as char else ('a' as int + d - 10) as char
  }

  /** The value of a digit character, in any radix up to 36, or -1. */
  function DigitValue(c: char): (r: int)
    ensures -1 <= r < 36
  {
    if '0' <= c <= '9' then c as int - '0' as int
    else if 'a' <= c <= 'z' then c as int - 'a' as int + 10
    else if 'A' <= c <= 'Z' then c as int - 'A' as int + 10
    else -1
  }

  lemma DigitValueChar(d: nat)
    requires d < 36
    ensures DigitValue(DigitChar(d)) == d
  {}

  predicate IsDigitString(s: string, radix: nat)
  {
    forall k :: 0 <= k < |s| ==> 0 <= DigitValue(s[k]) < radix
  }

  /** The number a string of digits denotes in `radix`, most significant first. */
  function DigitsValue(s: string, radix: nat): nat
    requires IsDigitString(s, radix)
  {
    if |s| == 0 then 0 else radix * DigitsValue(s[..|s| - 1], radix) + DigitValue(s[|s| - 1])
  }

  /** `n.toString(radix)` for a non-negative integer `n`. */
  function NumberToString(n: nat, radix: nat): (r: string)
    requires 2 <= radix <= 36
    ensures |r| >= 1
    ensures IsDigitString(r, radix)
    ensures forall k :: 0 <= k < |r| ==> IsLowerDigit(r[k])
    ensures DigitsValue(r, radix) == n
    decreases n
  {
    if n < radix then
      var r := [DigitChar(n)];
      assert r[..0] == [];
      r
    else
      var (q, m) := DivMod(n, radix);
      var front := NumberToString(q, radix);
      var r := front + [DigitChar(m)];
      assert r[..|r| - 1] == front;
      r
  }

  /** Quotient and remainder of `n` by `radix`, with what they satisfy. */
  function DivMod(n: nat, radix: nat): (qm: (nat, nat))
    requires 2 <= radix <= n
    ensures qm.0 < n && qm.1 < radix
    ensures radix * qm.0 + qm.1 == n
  {
    var q, m := n / radix, n % radix;
    assert radix * q + m == n;
    assert q < n by {
      MulMono(q, 2, radix);
    }
    (q, m)
  }

  /** `q * radix + m < radix^w` with `m < radix` bounds `q` by `radix^(w-1)`. */
  lemma QuotientBelowPow(q: nat, m: nat, radix: nat, w: nat)
    requires radix >= 1 && w >= 1
    requires radix * q + m < Pow(radix, w)
    ensures q < Pow(radix, w - 1)
  {
    var p := Pow(radix, w - 1);
    assert Pow(radix, w) == radix * p;
    if q >= p {
      MulMono(radix, p, q);
      assert false;
    }
  }

  lemma MulMono(a: nat, x: nat, y: nat)
    requires x <= y
    ensures a * x <= a * y
  {}

  /** A number below `radix^w` takes at most `w` digits. */
  lemma {:induction false} NumberToStringLength(n: nat, radix: nat, w: nat)
    requires 2 <= radix <= 36
    requires 1 <= w
    requires n < Pow(radix, w)
    ensures |NumberToString(n, radix)| <= w
  {
    if n >= radix {
      var (q, m) := DivMod(n, radix);
      assert w >= 2;
      QuotientBelowPow(q, m, radix, w);
      NumberToStringLength(q, radix, w - 1);
      assert |NumberToString(n, radix)| == |NumberToString(q, radix)| + 1;
    }
  }

  /** Leading zeros do not change a digit string's value. */
  lemma {:induction false} LeadingZeros(z: nat, s: string, radix: nat)
    requires 2 <= radix <= 36
    requires IsDigitString(s, radix)
    ensures IsDigitString(seq(z, _ => '0') + s, radix)
    ensures DigitsValue(seq(z, _ => '0') + s, radix) == DigitsValue(s, radix)
    decreases |s|
  {
    var t := seq(z, _ => '0') + s;
    if |s| == 0 {
      assert t == seq(z, _ => '0');
      ZerosValue(z, radix);
    } else {
      assert t[..|t| - 1] == seq(z, _ => '0') + s[..|s| - 1];
      LeadingZeros(z, s[..|s| - 1], radix);
    }
  }

  /** Padding a digit string with leading zeros keeps it a digit string of the same value. */
  lemma PadDigits(s: string, len: nat, radix: nat)
    requires 2 <= radix <= 36
    requires IsDigitString(s, radix)
    ensures IsDigitString(PadStart(s, len, '0'), radix)
    ensures DigitsValue(PadStart(s, len, '0'), radix) == DigitsValue(s, radix)
  {
    var r := PadStart(s, len, '0');
    assert r == seq(|r| - |s|, _ => '0') + s;
    LeadingZeros(|r| - |s|, s, radix);
  }

  lemma {:induction false} ZerosValue(z: nat, radix: nat)
    requires 2 <= radix <= 36
    ensures IsDigitString(seq(z, _ => '0'), radix)
    ensures DigitsValue(seq(z, _ => '0'), radix) == 0
  {
    if z > 0 {
      assert seq(z, _ => '0')[..z - 1] == seq(z - 1, _ => '0');
      ZerosValue(z - 1, radix);
    }
  }

  /** The longest prefix of `s` made of decimal digits. */
  function LeadingDecimal(s: string): (r: string)
    ensures |r| <= |s| && r == s[..|r|]
    ensures IsDigitString(r, 10)
    ensures |r| < |s| ==> !(0 <= DigitValue(s[|r|]) < 10)
  {
    if |s| > 0 && '0' <= s[0] <= '9' then [s[0]] + LeadingDecimal(s[1..]) else ""
  }

  /**
   * `parseInt(s, 10)`: leading whitespace is skipped, one sign is read, then
   * the longest run of decimal digits; `None` stands for `NaN`, which is what
   * an input without digits gives.
   */
  function ParseInt(s: string): (r: Option<int>)
  {
    var t := TrimStart(s);
    var negative := |t| > 0 && t[0] == '-';
    var body := if |t| > 0 && (t[0] == '-' || t[0] == '+') then t[1..] else t;
    var ds := LeadingDecimal(body);
    if |ds| == 0 then None
    else
      var v: int := DigitsValue(ds, 10);
      Some(if negative then -v else v)
  }

  /** `parseInt` reads a non-empty string of decimal digits as the number it denotes. */
  lemma ParseIntDigits(s: string)
    requires |s| >= 1 && IsDigitString(s, 10)
    ensures ParseInt(s) == Some(DigitsValue(s, 10))
  {
    assert s[0] != '-' && s[0] != '+' && !IsWhitespace(s[0]) by {
      assert 0 <= DigitValue(s[0]) < 10;
    }
    assert TrimStart(s) == s;
    DecimalPrefixAll(s);
  }

  lemma {:induction false} DecimalPrefixAll(s: string)
    requires IsDigitString(s, 10)
    ensures LeadingDecimal(s) == s
  {
    if |s| > 0 {
      assert 0 <= DigitValue(s[0]) < 10;
      DecimalPrefixAll(s[1..]);
    }
  }
}

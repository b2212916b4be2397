/**
 * Hex rendering of digests, as both `hashPassword` and `sha1Hash` write it:
 * every byte through `b.toString(16).padStart(2, '0')`, joined with no
 * separator; `sha1Hash` then upper-cases the result.
 */
module Hex {
  import opened Types
  import opened JsString

  predicate IsLowerHexDigit(c: char)
  {
    '0' <= c <= '9' || 'a' <= c <= 'f'
  }

  predicate IsUpperHexDigit(c: char)
  {
    '0' <= c <= '9' || 'A' <= c <= 'F'
  }

  /** `b.toString(16).padStart(2, '0')`: two lower-case digits whose value is `b`. */
  function ByteHex(b: byte): (r: string)
    ensures |r| == 2
    ensures IsLowerHexDigit(r[0]) && IsLowerHexDigit(r[1])
    ensures 16 * DigitValue(r[0]) + DigitValue(r[1]) == b as int
  {
    HexOfByte(b);
    PadStart(NumberToString(b as nat, 16), 2, '0')
  }

  /** The one or two digits `toString(16)` writes for a byte. */
  lemma HexOfByte(b: byte)
    ensures var s := NumberToString(b as nat, 16);
      && 1 <= |s| <= 2
      && (|s| == 1 ==> DigitValue(s[0]) == b as int && IsLowerHexDigit(s[0]))
      && (|s| == 2 ==> 16 * DigitValue(s[0]) + DigitValue(s[1]) == b as int
                       && IsLowerHexDigit(s[0]) && IsLowerHexDigit(s[1]))
  {
    var s := NumberToString(b as nat, 16);
    assert |s| <= 2 by {
      assert Pow(16, 2) == 256;
      NumberToStringLength(b as nat, 16, 2);
    }
    assert forall k :: 0 <= k < |s| ==> IsLowerHexDigit(s[k]) by {
      forall k | 0 <= k < |s|
        ensures IsLowerHexDigit(s[k])
      {
        assert IsLowerDigit(s[k]) && DigitValue(s[k]) < 16;
      }
    }
    if |s| == 1 {
      assert s[..0] == [];
    } else {
      assert s[..1][..0] == [];
    }
  }

  /** `Array.from(bytes).map(b => b.toString(16).padStart(2, '0')).join('')`. */
  function LowerHex(bs: seq<byte>): (r: string)
    ensures |r| == 2 * |bs|
  {
    if |bs| == 0 then "" else LowerHex(bs[..|bs| - 1]) + ByteHex(bs[|bs| - 1])
  }

  /**
   * The same rendering, upper-cased as `sha1Hash` does; every hex digit
   * upper-cases to one character, so this is `toUpperCase` character by
   * character (`UpperHexIsToUpper`).
   */
  function UpperHex(bs: seq<byte>): (r: string)
    ensures |r| == 2 * |bs|
  {
    var l := LowerHex(bs);
    seq(|l|, k requires 0 <= k < |l| => UpperText(l[k])[0])
  }

  /** `UpperHex` is `toUpperCase` of the lower-case rendering. */
  lemma UpperHexIsToUpper(bs: seq<byte>)
    ensures UpperHex(bs) == ToUpper(LowerHex(bs))
  {
    LowerHexDigits(bs);
    ToUpperSingle(LowerHex(bs));
  }

  /** Reading a string of hex digits back, two digits per byte; case does not matter. */
  function ParseHex(s: string): (r: Option<seq<byte>>)
  {
    if |s| == 0 then Some([])
    else if |s| == 1 then None
    else
      var hi, lo := DigitValue(s[|s| - 2]), DigitValue(s[|s| - 1]);
      if !(0 <= hi < 16 && 0 <= lo < 16) then None
      else
        match ParseHex(s[..|s| - 2])
        case None => None
        case Some(front) => Some(front + [(16 * hi + lo) as byte])
  }

  /** Every character `LowerHex` writes is a lower-case hex digit. */
  lemma {:induction false} LowerHexDigits(bs: seq<byte>)
    ensures forall k :: 0 <= k < |LowerHex(bs)| ==> IsLowerHexDigit(LowerHex(bs)[k])
  {
    if |bs| > 0 {
      LowerHexDigits(bs[..|bs| - 1]);
    }
  }

  /** Upper-casing turns lower-case hex digits into upper-case ones of the same value. */
  lemma UpperHexDigits(bs: seq<byte>)
    ensures forall k :: 0 <= k < |UpperHex(bs)| ==> IsUpperHexDigit(UpperHex(bs)[k])
    ensures forall k :: 0 <= k < |UpperHex(bs)| ==> DigitValue(UpperHex(bs)[k]) == DigitValue(LowerHex(bs)[k])
  {
    var l, u := LowerHex(bs), UpperHex(bs);
    LowerHexDigits(bs);
    forall k | 0 <= k < |u|
      ensures IsUpperHexDigit(u[k]) && DigitValue(u[k]) == DigitValue(l[k])
    {
      UpperDigit(l[k]);
    }
  }

  lemma UpperDigit(c: char)
    requires IsLowerHexDigit(c)
    ensures |UpperText(c)| == 1
    ensures IsUpperHexDigit(UpperText(c)[0]) && DigitValue(UpperText(c)[0]) == DigitValue(c)
  {}

  /** `LowerHex` is inverted by `ParseHex`: the digest can be read back from its rendering. */
  lemma {:induction false} ParseLowerHex(bs: seq<byte>)
    ensures ParseHex(LowerHex(bs)) == Some(bs)
  {
    if |bs| > 0 {
      var front, b := bs[..|bs| - 1], bs[|bs| - 1];
      assert ParseHex(LowerHex(front)) == Some(front) by {
        ParseLowerHex(front);
      }
      ParseByteHex(LowerHex(front), b);
      FrontLast(bs);
    }
  }

  /** Appending one rendered byte appends that byte to what is parsed. */
  lemma ParseByteHex(front: string, b: byte)
    ensures ParseHex(front + ByteHex(b)) == ParseHex(front).Map(f => f + [b])
  {
    var h := ByteHex(b);
    LowerHexDigitValue(h[0]);
    LowerHexDigitValue(h[1]);
    ParsePair(front, h, b);
  }

  lemma ParsePair(front: string, h: string, b: byte)
    requires |h| == 2
    requires 0 <= DigitValue(h[0]) < 16 && 0 <= DigitValue(h[1]) < 16
    requires 16 * DigitValue(h[0]) + DigitValue(h[1]) == b as int
    ensures ParseHex(front + h) == ParseHex(front).Map(f => f + [b])
  {
    var s := front + h;
    assert s[..|s| - 2] == front;
  }

  lemma LowerHexDigitValue(c: char)
    requires IsLowerHexDigit(c)
    ensures 0 <= DigitValue(c) < 16
  {}

  /** Upper-casing loses nothing: `ParseHex` reads the same bytes from `UpperHex`. */
  lemma ParseUpperHex(bs: seq<byte>)
    ensures ParseHex(UpperHex(bs)) == Some(bs)
  {
    UpperHexDigits(bs);
    ParseLowerHex(bs);
    SameDigitsParse(UpperHex(bs), LowerHex(bs));
  }

  /** Strings with the same digit values position by position parse alike. */
  lemma {:induction false} SameDigitsParse(s: string, t: string)
    requires |s| == |t|
    requires forall k :: 0 <= k < |s| ==> DigitValue(s[k]) == DigitValue(t[k])
    ensures ParseHex(s) == ParseHex(t)
  {
    if |s| >= 2 {
      SameDigitsParse(s[..|s| - 2], t[..|t| - 2]);
    }
  }
}

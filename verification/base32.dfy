/**
 * The TOTP secret codec: base32 with the alphabet of section 6 of RFC 4648
 * and no `=` padding.
 *
 * `Encode` and `Decode` state the codec over bit strings; `EncodeBuffer` and
 * `DecodeString` are the source's loops, which keep the pending bits in a
 * 32-bit accumulator, and are proved to compute them.
 */
module Base32 {
  import opened Types
  import opened Bits
  import JsString

  const Alphabet: string := "ABCDEFGHIJKLMNOPQRSTUVWXYZ234567"

  /** `A`..`Z` stand for 0..25 and `2`..`7` for 26..31. */
  lemma AlphabetShape()
    ensures |Alphabet| == 32
    ensures forall d :: 0 <= d < 26 ==> Alphabet[d] as int == 'A' as int + d
    ensures forall d :: 26 <= d < 32 ==> Alphabet[d] as int == '2' as int + (d - 26)
  {}

  /** The position in the alphabet of an upper-case character, or -1. */
  function CharValue(u: char): (r: int)
    ensures -1 <= r < 32
  {
    if 'A' <= u <= 'Z' then u as int - 'A' as int
    else if '2' <= u <= '7' then u as int - '2' as int + 26
    else -1
  }

  /**
   * What `base32.indexOf(char.toUpperCase())` gives for one character: the
   * position of a one-character upper case, and -1 for a longer one, except
   * for the ligatures `ﬅ` and `ﬆ`, whose upper case `ST` is found at the `S`.
   */
  function SymbolValue(c: char): (r: int)
    ensures -1 <= r < 32
  {
    var u := JsString.UpperText(c);
    if |u| == 1 then CharValue(u[0])
    else if u == "ST" then 18
    else -1
  }

  /** `SymbolValue` is `indexOf` in the alphabet of the character's upper-case text. */
  lemma SymbolValueIsIndexOf(c: char)
    ensures SymbolValue(c) == JsString.IndexOfText(Alphabet, JsString.UpperText(c))
  {
    var u := JsString.UpperText(c);
    if |u| == 1 {
      OneCharIndexOf(u);
    } else if u == "ST" {
      AlphabetShape();
      assert JsString.OccursAt(Alphabet, u, 18) by {
        assert Alphabet[18..20] == "ST";
      }
      forall j | 0 <= j < 18
        ensures !JsString.OccursAt(Alphabet, u, j)
      {
        assert Alphabet[j..j + 2][0] == Alphabet[j];
      }
    } else {
      LongUpperText(c);
      NonSuccessorAbsent(u);
    }
  }

  /** A one-character search finds the character's position. */
  lemma OneCharIndexOf(u: string)
    requires |u| == 1
    ensures CharValue(u[0]) == JsString.IndexOfText(Alphabet, u)
  {
    AlphabetShape();
    var r := CharValue(u[0]);
    if r >= 0 {
      assert Alphabet[r] == u[0];
      assert u[0] !in Alphabet[..r];
    } else {
      assert u[0] !in Alphabet;
    }
    assert u == [u[0]];
    JsString.IndexOfOneChar(Alphabet, u[0]);
  }

  /** A text whose second character does not follow its first in the alphabet does not occur in it. */
  lemma NonSuccessorAbsent(u: string)
    requires |u| >= 2
    requires u[1] as int != u[0] as int + 1 && !(u[0] == 'Z' && u[1] == '2')
    ensures JsString.IndexOfText(Alphabet, u) == -1
  {
    forall j | 0 <= j < |Alphabet| - 1
      ensures !(Alphabet[j] == u[0] && Alphabet[j + 1] == u[1])
    {
      AlphabetSuccessor(j);
    }
    PairAbsent(Alphabet, u);
  }

  /** A text whose first two characters are never adjacent in `s` does not occur in `s`. */
  lemma PairAbsent(s: string, u: string)
    requires |u| >= 2
    requires forall j :: 0 <= j < |s| - 1 ==> !(s[j] == u[0] && s[j + 1] == u[1])
    ensures JsString.IndexOfText(s, u) == -1
  {
    forall j | 0 <= j && j + |u| <= |s|
      ensures !JsString.OccursAt(s, u, j)
    {
      assert s[j..j + |u|][0] == s[j];
      assert s[j..j + |u|][1] == s[j + 1];
    }
  }

  /** The longer upper-case texts other than `ST` do not start with two neighbouring symbols. */
  lemma LongUpperText(c: char)
    requires |JsString.UpperText(c)| >= 2 && JsString.UpperText(c) != "ST"
    ensures var u := JsString.UpperText(c);
      u[1] as int != u[0] as int + 1 && !(u[0] == 'Z' && u[1] == '2')
  {}

  /** Neighbouring symbols are neighbouring characters, except `Z` and `2`. */
  lemma AlphabetSuccessor(j: int)
    requires 0 <= j < 31
    ensures j == 25 ==> Alphabet[j] == 'Z' && Alphabet[j + 1] == '2'
    ensures j != 25 ==> Alphabet[j + 1] as int == Alphabet[j] as int + 1
  {
    AlphabetShape();
  }

  /**
   * The characters `base32Decode` reads as a symbol: those of the alphabet,
   * the lower-case ASCII letters, the dotless i, the long s, and the
   * ligatures `ﬅ` and `ﬆ`; every other character is skipped.
   */
  lemma SymbolValueDomain(c: char)
    ensures SymbolValue(c) >= 0 <==> c in Alphabet || 'a' <= c <= 'z' || c in "\U{131}\U{17F}\U{FB05}\U{FB06}"
  {
    AlphabetShape();
    if c in Alphabet {
      var d :| 0 <= d < 32 && Alphabet[d] == c;
      SymbolValueOfSymbol(d);
    }
  }

  /** The 5-bit values: numbers below 32. */
  predicate IsDigits(ds: seq<nat>)
  {
    forall j :: 0 <= j < |ds| ==> ds[j] < 32
  }

  lemma SymbolValueOfSymbol(d: nat)
    requires d < 32
    ensures SymbolValue(Alphabet[d]) == d
  {
    AlphabetShape();
  }

  /** The 5-bit values of the characters of `s` that `SymbolValue` reads, in order; the others are skipped. */
  function Values(s: string): (r: seq<nat>)
    ensures |r| <= |s|
    ensures IsDigits(r)
  {
    if |s| == 0 then []
    else
      var v := SymbolValue(s[|s| - 1]);
      Values(s[..|s| - 1]) + (if v == -1 then [] else [v as nat])
  }

  function Symbols(ds: seq<nat>): (r: string)
    requires IsDigits(ds)
    ensures |r| == |ds|
  {
    AlphabetShape();
    seq(|ds|, j requires 0 <= j < |ds| => Alphabet[ds[j]])
  }

  function ByteBits(b: byte): seq<bool>
  {
    FromNat(b as nat, 8)
  }

  /** The bits of a byte string, eight per byte, most significant first. */
  function BytesBits(bs: seq<byte>): (r: seq<bool>)
    ensures |r| == 8 * |bs|
  {
    if |bs| == 0 then [] else BytesBits(bs[..|bs| - 1]) + ByteBits(bs[|bs| - 1])
  }

  /** The bits of a sequence of 5-bit values. */
  function DigitsBits(ds: seq<nat>): (r: seq<bool>)
    ensures |r| == 5 * |ds|
  {
    if |ds| == 0 then [] else DigitsBits(ds[..|ds| - 1]) + FromNat(ds[|ds| - 1], 5)
  }

  /** Groups of five bits; a short last group is filled with zero bits. */
  function Chunk5(bits: seq<bool>): (r: seq<nat>)
    ensures |r| == (|bits| + 4) / 5
    ensures IsDigits(r)
    decreases |bits|
  {
    Pow2Constants();
    if |bits| == 0 then []
    else if |bits| < 5 then [ToNat(bits + Zeros(5 - |bits|))]
    else [ToNat(bits[..5])] + Chunk5(bits[5..])
  }

  /** Whole bytes of a bit string; fewer than eight trailing bits are dropped. */
  function Octets(bits: seq<bool>): (r: seq<byte>)
    ensures |r| == |bits| / 8
    decreases |bits|
  {
    Pow2Constants();
    if |bits| < 8 then [] else [ToNat(bits[..8]) as byte] + Octets(bits[8..])
  }

  /** Number of zero bits that fill the last symbol of `n` bits. */
  function PadBits(n: nat): nat
  {
    (5 - n % 5) % 5
  }

  lemma PadBitsOfRemainder(n: nat)
    ensures PadBits(n) == if n % 5 > 0 then 5 - n % 5 else 0
  {}

  /** `base32Encode`: the bits of `b`, five to a symbol. */
  function Encode(b: seq<byte>): (r: string)
    ensures |r| == (8 * |b| + 4) / 5
    ensures forall j :: 0 <= j < |r| ==> r[j] in Alphabet
  {
    Symbols(Chunk5(BytesBits(b)))
  }

  /** `base32Decode`: the whole bytes spelled by the alphabet characters of `s`. */
  function Decode(s: string): (r: seq<byte>)
    ensures |r| == 5 * |Values(s)| / 8
  {
    Octets(DigitsBits(Values(s)))
  }

  lemma {:induction false} DigitsBitsAppend(a: seq<nat>, b: seq<nat>)
    ensures DigitsBits(a + b) == DigitsBits(a) + DigitsBits(b)
  {
    if |b| == 0 {
      assert a + b == a;
    } else {
      var b' := b[..|b| - 1];
      assert (a + b)[..|a + b| - 1] == a + b';
      DigitsBitsAppend(a, b');
    }
  }

  lemma {:induction false} BytesBitsAppend(a: seq<byte>, b: seq<byte>)
    ensures BytesBits(a + b) == BytesBits(a) + BytesBits(b)
  {
    if |b| == 0 {
      assert a + b == a;
    } else {
      var b', last := b[..|b| - 1], b[|b| - 1];
      assert (a + b)[..|a + b| - 1] == a + b';
      assert (a + b)[|a + b| - 1] == last;
      BytesBitsAppend(a, b');
      calc {
        BytesBits(a + b);
        BytesBits(a + b') + ByteBits(last);
        BytesBits(a) + BytesBits(b') + ByteBits(last);
        BytesBits(a) + (BytesBits(b') + ByteBits(last));
        BytesBits(a) + BytesBits(b);
      }
    }
  }

  /** The symbols of `Chunk5(bits)` spell `bits` followed by the fill bits. */
  lemma {:induction false} Chunk5Spells(bits: seq<bool>)
    ensures DigitsBits(Chunk5(bits)) == bits + Zeros(PadBits(|bits|))
    decreases |bits|
  {
    if |bits| == 0 {
      assert bits + Zeros(0) == [];
    } else if |bits| < 5 {
      Chunk5SpellsShort(bits);
    } else {
      Chunk5Spells(bits[5..]);
      Chunk5SpellsStep(bits);
    }
  }

  lemma {:induction false} Chunk5SpellsShort(bits: seq<bool>)
    requires 0 < |bits| < 5
    ensures DigitsBits(Chunk5(bits)) == bits + Zeros(PadBits(|bits|))
  {
    var full := bits + Zeros(5 - |bits|);
    assert Chunk5(bits) == [ToNat(full)];
    assert PadBits(|bits|) == 5 - |bits|;
    SymbolBits(full);
  }

  lemma {:induction false} Chunk5SpellsStep(bits: seq<bool>)
    requires |bits| >= 5
    requires DigitsBits(Chunk5(bits[5..])) == bits[5..] + Zeros(PadBits(|bits| - 5))
    ensures DigitsBits(Chunk5(bits)) == bits + Zeros(PadBits(|bits|))
  {
    var first, rest := bits[..5], bits[5..];
    var fill := Zeros(PadBits(|bits|));
    assert PadBits(|rest|) == PadBits(|bits|);
    assert DigitsBits(Chunk5(bits)) == first + (rest + fill) by {
      assert Chunk5(bits) == [ToNat(first)] + Chunk5(rest);
      DigitsBitsAppend([ToNat(first)], Chunk5(rest));
      SymbolBits(first);
    }
    assert first + (rest + fill) == bits + fill by {
      assert bits == first + rest;
    }
  }

  /** The bits of one symbol read from five bits are those five bits. */
  lemma SymbolBits(five: seq<bool>)
    requires |five| == 5
    ensures DigitsBits([ToNat(five)]) == five
  {
    assert DigitsBits([ToNat(five)]) == DigitsBits([]) + FromNat(ToNat(five), 5);
    FromNatToNat(five);
  }

  /** Sequences of 5-bit values are determined by their bits. */
  lemma {:induction false} DigitsBitsInjective(a: seq<nat>, b: seq<nat>)
    requires IsDigits(a)
    requires IsDigits(b)
    requires DigitsBits(a) == DigitsBits(b)
    ensures a == b
  {
    Pow2Constants();
    if |a| > 0 {
      var n := |a|;
      var ba := DigitsBits(a);
      assert ba[..5 * (n - 1)] == DigitsBits(a[..n - 1]);
      assert ba[5 * (n - 1)..] == FromNat(a[n - 1], 5);
      assert DigitsBits(b)[..5 * (n - 1)] == DigitsBits(b[..n - 1]);
      assert DigitsBits(b)[5 * (n - 1)..] == FromNat(b[n - 1], 5);
      ToNatFromNat(a[n - 1], 5);
      ToNatFromNat(b[n - 1], 5);
      DigitsBitsInjective(a[..n - 1], b[..n - 1]);
      assert a == a[..n - 1] + [a[n - 1]];
      assert b == b[..n - 1] + [b[n - 1]];
    }
  }

  /** Reading whole bytes back from `BytesBits(bs)` and a short tail gives `bs`. */
  lemma {:induction false} OctetsOfBytes(bs: seq<byte>, tail: seq<bool>)
    requires |tail| < 8
    ensures Octets(BytesBits(bs) + tail) == bs
  {
    if |bs| == 0 {
      assert BytesBits(bs) + tail == tail;
    } else {
      var rest := bs[1..];
      var more := BytesBits(rest) + tail;
      assert BytesBits(bs) + tail == ByteBits(bs[0]) + more by {
        assert bs == [bs[0]] + rest;
        BytesBitsCons(bs[0], rest);
      }
      OctetsCons(bs[0], more);
      OctetsOfBytes(rest, tail);
      assert bs == [bs[0]] + rest;
    }
  }

  lemma BytesBitsCons(b: byte, rest: seq<byte>)
    ensures BytesBits([b] + rest) == ByteBits(b) + BytesBits(rest)
  {
    BytesBitsAppend([b], rest);
    assert BytesBits([b]) == BytesBits([]) + ByteBits(b);
  }

  lemma OctetsCons(b: byte, more: seq<bool>)
    ensures Octets(ByteBits(b) + more) == [b] + Octets(more)
  {
    var all := ByteBits(b) + more;
    assert all[..8] == ByteBits(b) && all[8..] == more;
    assert ToNat(all[..8]) == b as nat by {
      Pow2Constants();
      ToNatFromNat(b as nat, 8);
    }
  }

  /** Decoding reads back the values of the symbols. */
  lemma {:induction false} ValuesOfSymbols(ds: seq<nat>)
    requires IsDigits(ds)
    ensures Values(Symbols(ds)) == ds
  {
    if |ds| > 0 {
      var s := Symbols(ds);
      var n := |ds|;
      assert Values(s[..n - 1]) == ds[..n - 1] by {
        assert s[..n - 1] == Symbols(ds[..n - 1]);
        ValuesOfSymbols(ds[..n - 1]);
      }
      assert SymbolValue(s[n - 1]) == ds[n - 1] by {
        SymbolValueOfSymbol(ds[n - 1]);
      }
      assert ds == ds[..n - 1] + [ds[n - 1]];
    }
  }

  /**
   * The symbols of `Encode(b)` spell the bits of `b` followed by fewer than
   * five zero bits, and no other string of alphabet symbols does.
   */
  lemma EncodeSpellsBits(b: seq<byte>)
    ensures DigitsBits(Values(Encode(b))) == BytesBits(b) + Zeros(PadBits(8 * |b|))
    ensures PadBits(8 * |b|) < 5
  {
    ValuesOfSymbols(Chunk5(BytesBits(b)));
    Chunk5Spells(BytesBits(b));
  }

  /** `base32Decode(base32Encode(b)) == b` for every byte string `b`. */
  lemma DecodeEncode(b: seq<byte>)
    ensures Decode(Encode(b)) == b
  {
    EncodeSpellsBits(b);
    OctetsOfBytes(b, Zeros(PadBits(8 * |b|)));
  }

  /** A 20-byte TOTP secret encodes to 32 symbols. */
  lemma SecretLength(b: seq<byte>)
    requires |b| == 20
    ensures |Encode(b)| == 32
  {}

  /**
   * Upper-casing the input first does not change what it decodes to, for
   * any input whose characters each upper-case to one character; this
   * includes every ASCII string.
   */
  lemma DecodeIgnoresCase(s: string)
    requires forall k :: 0 <= k < |s| ==> |JsString.UpperText(s[k])| == 1
    ensures Decode(JsString.ToUpper(s)) == Decode(s)
  {
    ValuesIgnoreCase(s);
  }

  lemma {:induction false} ValuesIgnoreCase(s: string)
    requires forall k :: 0 <= k < |s| ==> |JsString.UpperText(s[k])| == 1
    ensures Values(JsString.ToUpper(s)) == Values(s)
  {
    if |s| > 0 {
      var front, c := s[..|s| - 1], s[|s| - 1];
      var u := JsString.ToUpper(s);
      ValuesIgnoreCase(front);
      JsString.UpperTextIdempotent(c);
      assert u == JsString.ToUpper(front) + [JsString.UpperText(c)[0]];
      assert (JsString.ToUpper(front) + [JsString.UpperText(c)[0]])[..|u| - 1] == JsString.ToUpper(front);
    }
  }

  /**
   * Without that condition the property fails: `ß` is skipped, but its upper
   * case `SS` is two symbols, which make a byte.
   */
  lemma SharpSUpperCased()
    ensures Decode("\U{DF}") == []
    ensures |Decode(JsString.ToUpper("\U{DF}"))| == 1
  {
    assert JsString.ToUpper("\U{DF}") == JsString.ToUpper("") + "SS";
    assert Values("SS") == Values("S") + [18];
    assert Values("S") == Values("") + [18];
    assert Values("\U{DF}") == Values("") + [];
  }

  /** A character outside the alphabet, wherever it stands, does not change the result. */
  lemma DecodeSkipsInvalid(s: string, t: string, c: char)
    requires SymbolValue(c) == -1
    ensures Decode(s + [c] + t) == Decode(s + t)
  {
    ValuesSkipInvalid(s, t, c);
  }

  /** Appending a character appends its value, if it has one. */
  lemma ValuesSnoc(w: string, x: char)
    ensures Values(w + [x]) == Values(w) + (if SymbolValue(x) == -1 then [] else [SymbolValue(x) as nat])
  {
    assert (w + [x])[..|w|] == w;
  }

  lemma {:induction false} ValuesSkipInvalid(s: string, t: string, c: char)
    requires SymbolValue(c) == -1
    ensures Values(s + [c] + t) == Values(s + t)
  {
    if |t| == 0 {
      assert (s + [c] + t)[..|s|] == s;
      assert s + t == s;
    } else {
      var t', x := t[..|t| - 1], t[|t| - 1];
      assert s + [c] + t == (s + [c] + t') + [x];
      assert s + t == (s + t') + [x];
      ValuesSkipInvalid(s, t', c);
      ValuesSnoc(s + [c] + t', x);
      ValuesSnoc(s + t', x);
    }
  }


  /** The accumulator `value` holds the pending bits in its low bits. */
  predicate Holds(value: nat, pending: seq<bool>)
  {
    value % Pow2(|pending|) == ToNat(pending)
  }

  /** `(value << 8) | b`. */
  lemma ShiftInByte(value: nat, pending: seq<bool>, b: byte)
    requires |pending| < 5 && Holds(value, pending)
    ensures Holds((value * 256 + b as nat) % Uint32Modulus, pending + ByteBits(b))
  {
    Pow2Constants();
    Absorb(value, pending, b as nat, 8);
  }

  /** `(value << 5) | idx`. */
  lemma ShiftInSymbol(value: nat, pending: seq<bool>, idx: nat)
    requires |pending| < 8 && idx < 32 && Holds(value, pending)
    ensures Holds((value * 32 + idx) % Uint32Modulus, pending + FromNat(idx, 5))
  {
    Pow2Constants();
    Absorb(value, pending, idx, 5);
  }

  /** `(value >>> (bits - 5)) & 31`. */
  lemma ReadSymbol(value: nat, pending: seq<bool>)
    requires 5 <= |pending| && Holds(value, pending)
    ensures (value / Pow2(|pending| - 5)) % 32 == ToNat(pending[..5])
    ensures Holds(value, pending[5..])
  {
    Pow2Constants();
    Emit(value, pending, 5);
  }

  /** `(value >>> (bits - 8)) & 255`. */
  lemma ReadByte(value: nat, pending: seq<bool>)
    requires 8 <= |pending| && Holds(value, pending)
    ensures (value / Pow2(|pending| - 8)) % 256 == ToNat(pending[..8])
    ensures Holds(value, pending[8..])
  {
    Pow2Constants();
    Emit(value, pending, 8);
  }

  /** `(value << (5 - bits)) & 31`. */
  lemma FlushSymbol(value: nat, pending: seq<bool>)
    requires |pending| < 5 && Holds(value, pending)
    ensures ((value * Pow2(5 - |pending|)) % Uint32Modulus) % 32 == ToNat(pending + Zeros(5 - |pending|))
  {
    Pow2Constants();
    Flush(value, pending, 5);
  }

  /**
   * The source's encoding loop: each byte is shifted into `value`, and a
   * symbol is emitted for every five pending bits; leftover bits are shifted
   * up to fill one last symbol. `value` holds the 32-bit pattern of the
   * JavaScript number.
   */
  method EncodeBuffer(buffer: seq<byte>) returns (output: string)
    ensures output == Encode(buffer)
  {
    var bits: nat := 0;
    var value: nat := 0;
    output := "";
    ghost var digits: seq<nat> := [];
    ghost var pending: seq<bool> := [];
    for i := 0 to |buffer|
      invariant bits == |pending| < 5
      invariant Holds(value, pending)
      invariant IsDigits(digits)
      invariant output == Symbols(digits)
      invariant DigitsBits(digits) + pending == BytesBits(buffer[..i])
    {
      value, bits, output, pending, digits := EncodeByte(value, bits, output, buffer[i], pending, digits);
      assert DigitsBits(digits) + pending == BytesBits(buffer[..i + 1]) by {
        assert buffer[..i + 1][..i] == buffer[..i];
      }
    }
    ghost var all := BytesBits(buffer);
    assert all == DigitsBits(digits) + pending by {
      assert buffer[..|buffer|] == buffer;
    }
    assert PadBits(|all|) == if bits > 0 then 5 - bits else 0 by {
      DivModUnique(8 * |buffer|, 5, |digits|, bits);
      PadBitsOfRemainder(8 * |buffer|);
    }
    if bits > 0 {
      var d := ((value * Pow2(5 - bits)) % Uint32Modulus) % 32;
      ghost var last := pending + Zeros(5 - bits);
      assert d == ToNat(last) by {
        FlushSymbol(value, pending);
      }
      assert DigitsBits(digits + [d]) == all + Zeros(PadBits(|all|)) by {
        assert last[..5] == last && last[5..] == [];
        AppendSymbol(digits, last, d);
        assert DigitsBits(digits) + last == all + Zeros(5 - bits);
      }
      SymbolsSnoc(digits, d);
      output := output + [Alphabet[d]];
      digits := digits + [d];
    } else {
      assert DigitsBits(digits) == all + Zeros(PadBits(|all|));
    }
    SpellsChunks(all, digits);
  }

  /** The only 5-bit values that spell `bits` and its fill bits are `Chunk5(bits)`. */
  lemma SpellsChunks(bits: seq<bool>, digits: seq<nat>)
    requires IsDigits(digits)
    requires DigitsBits(digits) == bits + Zeros(PadBits(|bits|))
    ensures digits == Chunk5(bits)
  {
    Chunk5Spells(bits);
    DigitsBitsInjective(digits, Chunk5(bits));
  }

  /** One pass of `EncodeBuffer`'s outer loop: shift a byte in, then emit whole symbols. */
  method EncodeByte(value: nat, bits: nat, output: string, b: byte, ghost pending: seq<bool>, ghost digits: seq<nat>)
    returns (value': nat, bits': nat, output': string, ghost pending': seq<bool>, ghost digits': seq<nat>)
    requires bits == |pending| < 5
    requires Holds(value, pending)
    requires IsDigits(digits)
    requires output == Symbols(digits)
    ensures bits' == |pending'| < 5
    ensures Holds(value', pending')
    ensures IsDigits(digits')
    ensures output' == Symbols(digits')
    ensures DigitsBits(digits') + pending' == DigitsBits(digits) + pending + ByteBits(b)
  {
    ShiftInByte(value, pending, b);
    value' := (value * 256 + b as nat) % Uint32Modulus;
    bits', output', pending', digits' := EmitSymbols(value', bits + 8, output, pending + ByteBits(b), digits);
  }

  /** The inner loop of `EncodeBuffer`: a symbol for every five pending bits. */
  method EmitSymbols(value: nat, bits: nat, output: string, ghost pending: seq<bool>, ghost digits: seq<nat>)
    returns (bits': nat, output': string, ghost pending': seq<bool>, ghost digits': seq<nat>)
    requires bits == |pending|
    requires Holds(value, pending)
    requires IsDigits(digits)
    requires output == Symbols(digits)
    ensures bits' == |pending'| < 5
    ensures Holds(value, pending')
    ensures IsDigits(digits')
    ensures output' == Symbols(digits')
    ensures DigitsBits(digits') + pending' == DigitsBits(digits) + pending
  {
    bits', output', pending', digits' := bits, output, pending, digits;
    while bits' >= 5
      invariant bits' == |pending'|
      invariant Holds(value, pending')
      invariant IsDigits(digits')
      invariant output' == Symbols(digits')
      invariant DigitsBits(digits') + pending' == DigitsBits(digits) + pending
      decreases bits'
    {
      var d := (value / Pow2(bits' - 5)) % 32;
      ReadSymbol(value, pending');
      AppendSymbol(digits', pending', d);
      SymbolsSnoc(digits', d);
      output' := output' + [Alphabet[d]];
      digits' := digits' + [d];
      pending' := pending'[5..];
      bits' := bits' - 5;
    }
  }

  /** One emitted symbol moves its five bits from the pending bits to the output. */
  lemma AppendSymbol(digits: seq<nat>, pending: seq<bool>, d: nat)
    requires 5 <= |pending|
    requires d == ToNat(pending[..5])
    ensures d < 32
    ensures DigitsBits(digits + [d]) + pending[5..] == DigitsBits(digits) + pending
  {
    assert d < 32 by {
      Pow2Constants();
    }
    var x := DigitsBits(digits);
    assert DigitsBits(digits + [d]) == x + pending[..5] by {
      FromNatToNat(pending[..5]);
      DigitsBitsSnoc(digits, d);
    }
    assert (x + pending[..5]) + pending[5..] == x + pending by {
      assert pending == pending[..5] + pending[5..];
    }
  }

  lemma SymbolsSnoc(ds: seq<nat>, d: nat)
    requires IsDigits(ds)
    requires d < 32
    ensures Symbols(ds + [d]) == Symbols(ds) + [Alphabet[d]]
  {}

  lemma DigitsBitsSnoc(ds: seq<nat>, d: nat)
    ensures DigitsBits(ds + [d]) == DigitsBits(ds) + FromNat(d, 5)
  {
    assert (ds + [d])[..|ds|] == ds;
  }

  /**
   * The source's decoding loop: every alphabet character shifts five bits
   * into `value`, and a byte is emitted whenever eight bits are pending.
   * The output never outgrows the `ceil(5 * |base32| / 8)` bytes the source
   * allocates.
   */
  method DecodeString(base32: string) returns (output: seq<byte>)
    ensures output == Decode(base32)
  {
    var capacity := (|base32| * 5 + 7) / 8;
    var bits: nat := 0;
    var value: nat := 0;
    output := [];
    ghost var pending: seq<bool> := [];
    for i := 0 to |base32|
      invariant bits == |pending| < 8
      invariant Holds(value, pending)
      invariant BytesBits(output) + pending == DigitsBits(Values(base32[..i]))
      invariant 8 * |output| + bits == 5 * |Values(base32[..i])| <= 5 * i
    {
      var idx := SymbolValue(base32[i]);
      ValuesStep(base32, i);
      if idx == -1 {
        continue;
      }
      ghost var prefix := Values(base32[..i]);
      ghost var before := BytesBits(output) + pending;
      value, bits, output, pending := DecodeSymbol(value, bits, output, idx as nat, pending);
      DecodedPrefix(before, BytesBits(output) + pending, prefix, idx as nat);
      Capacity(|output|, |base32|);
    }
    assert base32[..|base32|] == base32;
    OctetsOfBytes(output, pending);
  }

  /** One more character of the input adds its value, if it has one, to the alphabet values read. */
  lemma ValuesStep(s: string, i: nat)
    requires i < |s|
    ensures SymbolValue(s[i]) == -1 ==> Values(s[..i + 1]) == Values(s[..i])
    ensures SymbolValue(s[i]) != -1 ==> Values(s[..i + 1]) == Values(s[..i]) + [SymbolValue(s[i]) as nat]
  {
    assert s[..i + 1][..i] == s[..i];
  }

  /** The bits taken in so far spell the values read so far, one symbol further on. */
  lemma DecodedPrefix(before: seq<bool>, after: seq<bool>, prefix: seq<nat>, idx: nat)
    requires before == DigitsBits(prefix)
    requires after == before + FromNat(idx, 5)
    ensures after == DigitsBits(prefix + [idx])
  {
    DigitsBitsSnoc(prefix, idx);
  }

  lemma Capacity(n: nat, len: nat)
    requires 8 * n <= 5 * len
    ensures n <= (len * 5 + 7) / 8
  {}

  /**
   * One alphabet character in `DecodeString`'s loop: shift its five bits in,
   * then emit a byte if eight bits are pending.
   */
  method DecodeSymbol(value: nat, bits: nat, output: seq<byte>, idx: nat, ghost pending: seq<bool>)
    returns (value': nat, bits': nat, output': seq<byte>, ghost pending': seq<bool>)
    requires idx < 32
    requires bits == |pending| < 8
    requires Holds(value, pending)
    ensures bits' == |pending'| < 8
    ensures Holds(value', pending')
    ensures BytesBits(output') + pending' == BytesBits(output) + pending + FromNat(idx, 5)
    ensures 8 * |output'| + bits' == 8 * |output| + bits + 5
  {
    ShiftInSymbol(value, pending, idx);
    value' := (value * 32 + idx) % Uint32Modulus;
    bits' := bits + 5;
    pending' := pending + FromNat(idx, 5);
    output' := output;
    assert BytesBits(output) + pending' == BytesBits(output) + pending + FromNat(idx, 5);
    if bits' >= 8 {
      var b := ((value' / Pow2(bits' - 8)) % 256) as byte;
      ReadByte(value', pending');
      assert BytesBits(output + [b]) + pending'[8..] == BytesBits(output) + pending' by {
        AppendByte(output, pending', b);
      }
      output' := output + [b];
      pending' := pending'[8..];
      bits' := bits' - 8;
    }
  }

  /** One emitted byte moves its eight bits from the pending bits to the output. */
  lemma AppendByte(output: seq<byte>, pending: seq<bool>, b: byte)
    requires 8 <= |pending|
    requires b as nat == ToNat(pending[..8])
    ensures BytesBits(output + [b]) + pending[8..] == BytesBits(output) + pending
  {
    var x := BytesBits(output);
    assert BytesBits(output + [b]) == x + pending[..8] by {
      FromNatToNat(pending[..8]);
      assert (output + [b])[..|output|] == output;
    }
    assert (x + pending[..8]) + pending[8..] == x + pending by {
      assert pending == pending[..8] + pending[8..];
    }
  }
}

/**
 * Big-endian bit strings and the arithmetic facts the base32 and TOTP codecs
 * need about JavaScript's 32-bit shift and mask operators.
 *
 * A JavaScript number that has been through `<<`, `|` or `>>>` is a 32-bit
 * pattern; the model keeps that pattern as a `nat` below `Pow2(32)`, so
 * `v << n` is `(v * Pow2(n)) % Pow2(32)`, `v >>> n` is `v / Pow2(n)`, and
 * `v & (2^n - 1)` is `v % Pow2(n)`.
 */
module Bits {

  function Pow2(n: nat): (r: nat)
    ensures r >= 1
  {
    if n == 0 then 1 else 2 * Pow2(n - 1)
  }

  lemma {:induction false} Pow2Add(a: nat, b: nat)
    ensures Pow2(a + b) == Pow2(a) * Pow2(b)
  {
    if b > 0 {
      Pow2Add(a, b - 1);
      assert Pow2(a + b) == 2 * Pow2(a + b - 1);
    }
  }

  /** `n` zero bits. */
  function Zeros(n: nat): (r: seq<bool>)
    ensures |r| == n
    ensures forall i :: 0 <= i < n ==> !r[i]
  {
    seq(n, _ => false)
  }

  /** The number a big-endian bit string denotes. */
  function ToNat(bs: seq<bool>): (r: nat)
    ensures r < Pow2(|bs|)
  {
    if |bs| == 0 then 0
    else 2 * ToNat(bs[..|bs| - 1]) + (if bs[|bs| - 1] then 1 else 0)
  }

  /** The `w` low bits of `n`, most significant first. */
  function FromNat(n: nat, w: nat): (r: seq<bool>)
    ensures |r| == w
  {
    if w == 0 then [] else FromNat(n / 2, w - 1) + [n % 2 == 1]
  }

  lemma {:induction false} ToNatFromNat(n: nat, w: nat)
    requires n < Pow2(w)
    ensures ToNat(FromNat(n, w)) == n
  {
    if w > 0 {
      var r := FromNat(n, w);
      var h := n / 2;
      assert n == 2 * h + n % 2;
      assert h < Pow2(w - 1);
      assert r[..w - 1] == FromNat(h, w - 1);
      assert ToNat(r[..w - 1]) == h by {
        ToNatFromNat(h, w - 1);
      }
      assert ToNat(r) == 2 * h + (if r[w - 1] then 1 else 0);
    }
  }

  lemma {:induction false} FromNatToNat(bs: seq<bool>)
    ensures FromNat(ToNat(bs), |bs|) == bs
  {
    if |bs| > 0 {
      var init := bs[..|bs| - 1];
      var n := ToNat(bs);
      assert n / 2 == ToNat(init);
      FromNatToNat(init);
      assert bs == init + [bs[|bs| - 1]];
    }
  }

  /** The range of a JavaScript `>>> 0` result, and of `DataView.setUint32`. */
  const Uint32Modulus: nat := 0x1_0000_0000

  lemma Pow2Constants()
    ensures Pow2(5) == 32 && Pow2(8) == 256 && Pow2(32) == Uint32Modulus
  {
    assert Pow2(4) == 16 by {
      assert Pow2(1) == 2 && Pow2(2) == 4 && Pow2(3) == 8;
    }
    assert Pow2(8) == 256 by {
      Pow2Add(4, 4);
    }
    assert Pow2(5) == 2 * Pow2(4);
    Pow2Add(8, 8);
    Pow2Add(16, 16);
  }

  lemma MulTwice(x: int, p: int)
    ensures x * (2 * p) == 2 * (x * p)
  {}

  lemma {:induction false} ToNatAppend(a: seq<bool>, b: seq<bool>)
    ensures ToNat(a + b) == ToNat(a) * Pow2(|b|) + ToNat(b)
  {
    if |b| == 0 {
      assert a + b == a;
      assert Pow2(|b|) == 1 && ToNat(b) == 0;
    } else {
      var b' := b[..|b| - 1];
      var ab := a + b;
      assert ab[..|ab| - 1] == a + b';
      assert ab[|ab| - 1] == b[|b| - 1];
      ToNatAppend(a, b');
      var last := if b[|b| - 1] then 1 else 0;
      var x, p, y := ToNat(a), Pow2(|b'|), ToNat(b');
      var xp := x * p;
      assert ToNat(a + b') == xp + y;
      assert ToNat(ab) == 2 * (xp + y) + last;
      assert ToNat(b) == 2 * y + last;
      assert Pow2(|b|) == 2 * p;
      MulTwice(x, p);
      assert x * Pow2(|b|) == 2 * xp;
    }
  }

  lemma {:induction false} ToNatZeros(n: nat)
    ensures ToNat(Zeros(n)) == 0
  {
    if n > 0 {
      assert Zeros(n)[..n - 1] == Zeros(n - 1);
      ToNatZeros(n - 1);
    }
  }

  lemma MulLe(a: int, b: int, n: int)
    requires 0 < n && a <= b
    ensures a * n <= b * n
  {}

  /** `x == q * n + r` with `0 <= r < n` fixes `x % n` and `x / n`. */
  lemma DivModUnique(x: int, n: int, q: int, r: int)
    requires 0 <= r < n
    requires x == q * n + r
    ensures x % n == r && x / n == q
  {
    var q', r' := x / n, x % n;
    assert x == q' * n + r';
    if q' > q {
      MulLe(q + 1, q', n);
      assert false;
    } else if q' < q {
      MulLe(q' + 1, q, n);
      assert false;
    }
  }

  lemma ShiftInCore(v: nat, K: nat, W: nat, M: nat, d: nat)
    requires K > 0 && W > 0 && M > 0 && d < W
    ensures ((v * W + d) % (K * W * M)) % (K * W) == (v % K) * W + d
  {
    var KW := K * W;
    var N := KW * M;
    assert N == K * W * M;
    var a, r := v / K, v % K;
    var q, low := (v * W + d) / N, (v * W + d) % N;
    assert v * W == a * KW + r * W by {
      assert v == a * K + r;
      assert v * W == (a * K + r) * W;
      assert (a * K + r) * W == a * (K * W) + r * W;
    }
    assert r * W + d < KW by {
      MulLe(r, K - 1, W);
      assert (K - 1) * W == KW - W;
    }
    assert q * N == (q * M) * KW;
    assert low == (a - q * M) * KW + (r * W + d);
    DivModUnique(low, KW, a - q * M, r * W + d);
  }

  lemma ReadTopCore(v: nat, D: nat, W: nat)
    requires D > 0 && W > 0
    ensures (v / D) % W == (v % (D * W)) / D
    ensures v % D == (v % (D * W)) % D
  {
    var q, m := v / (D * W), v % (D * W);
    assert v == q * (D * W) + m;
    var hi, lo := m / D, m % D;
    assert m == hi * D + lo;
    assert hi < W by {
      if hi >= W {
        MulLe(W, hi, D);
        assert false;
      }
    }
    assert v == (q * W + hi) * D + lo by {
      assert q * (D * W) == (q * W) * D;
      assert (q * W + hi) * D == (q * W) * D + hi * D;
    }
    DivModUnique(v, D, q * W + hi, lo);
    DivModUnique(q * W + hi, W, q, hi);
  }

  /**
   * Shifting `v` left by `w` within 32 bits and or-ing in a `w`-bit value `d`
   * (`(v << w) | d`, which is `(v * 2^w + d) mod 2^32` because the shift
   * leaves the low `w` bits clear) appends `d` to the `k` low bits of `v`, as
   * long as `k + w <= 32`.
   */
  lemma ShiftIn(v: nat, k: nat, w: nat, d: nat)
    requires k + w <= 32
    requires d < Pow2(w)
    ensures ((v * Pow2(w) + d) % Pow2(32)) % Pow2(k + w) == (v % Pow2(k)) * Pow2(w) + d
  {
    Pow2Add(k, w);
    Pow2Add(k + w, 32 - (k + w));
    ShiftInCore(v, Pow2(k), Pow2(w), Pow2(32 - (k + w)), d);
  }

  /**
   * Reading `w` bits of `v` at position `k - w` (`(v >>> (k - w)) & (2^w - 1)`)
   * reads the top `w` of its `k` low bits; what stays below is `v`'s `k - w`
   * low bits.
   */
  lemma ReadTop(v: nat, k: nat, w: nat)
    requires w <= k
    ensures (v / Pow2(k - w)) % Pow2(w) == (v % Pow2(k)) / Pow2(k - w)
    ensures v % Pow2(k - w) == (v % Pow2(k)) % Pow2(k - w)
  {
    Pow2Add(k - w, w);
    ReadTopCore(v, Pow2(k - w), Pow2(w));
  }


  /** Splitting a bit string's value at a boundary. */
  lemma SplitValue(hi: seq<bool>, lo: seq<bool>)
    ensures ToNat(hi + lo) / Pow2(|lo|) == ToNat(hi)
    ensures ToNat(hi + lo) % Pow2(|lo|) == ToNat(lo)
  {
    ToNatAppend(hi, lo);
    DivModUnique(ToNat(hi + lo), Pow2(|lo|), ToNat(hi), ToNat(lo));
  }

  /**
   * An accumulator whose `|pending|` low bits hold `pending`, after
   * `(v << w) | d` within 32 bits, holds `pending` followed by the `w` bits of `d`.
   */
  lemma Absorb(v: nat, pending: seq<bool>, d: nat, w: nat)
    requires |pending| + w <= 32
    requires d < Pow2(w)
    requires v % Pow2(|pending|) == ToNat(pending)
    ensures ((v * Pow2(w) + d) % Pow2(32)) % Pow2(|pending| + w) == ToNat(pending + FromNat(d, w))
  {
    var k, P := |pending|, Pow2(w);
    var t := ToNat(pending);
    assert ((v * P + d) % Pow2(32)) % Pow2(k + w) == t * P + d by {
      ShiftIn(v, k, w, d);
    }
    assert ToNat(pending + FromNat(d, w)) == t * P + d by {
      ToNatAppend(pending, FromNat(d, w));
      ToNatFromNat(d, w);
    }
  }

  /**
   * Reading the top `w` of the pending bits (`(v >>> (|pending| - w)) & (2^w - 1)`)
   * yields the first `w` pending bits; the rest stay pending.
   */
  lemma Emit(v: nat, pending: seq<bool>, w: nat)
    requires w <= |pending|
    requires v % Pow2(|pending|) == ToNat(pending)
    ensures (v / Pow2(|pending| - w)) % Pow2(w) == ToNat(pending[..w])
    ensures v % Pow2(|pending| - w) == ToNat(pending[w..])
  {
    ReadTop(v, |pending|, w);
    assert pending == pending[..w] + pending[w..];
    SplitValue(pending[..w], pending[w..]);
  }

  /**
   * Shifting fewer than `w` pending bits up to fill `w` bits
   * (`(v << (w - |pending|)) & (2^w - 1)`) pads them with zero bits.
   */
  lemma Flush(v: nat, pending: seq<bool>, w: nat)
    requires |pending| <= w <= 32
    requires v % Pow2(|pending|) == ToNat(pending)
    ensures ((v * Pow2(w - |pending|)) % Pow2(32)) % Pow2(w) == ToNat(pending + Zeros(w - |pending|))
  {
    var z := w - |pending|;
    ShiftIn(v, |pending|, z, 0);
    ToNatAppend(pending, Zeros(z));
    ToNatZeros(z);
  }
}

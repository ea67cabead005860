/** Line levels, byte values and the LSB-first reading of a bit sequence.

    The transceiver only ever handles single line levels (0 or 1) and values
    that fit in eight bits; everything else in the model is built on the two
    readings defined here: `BitOf` (Python's `(v >> i) & 1`) and `LsbValue`
    (the weighted sum where the first bit weighs 1, the next 2, and so on).
 */
module Bits {

  /** A logic level on the rx or tx line. */
  type bit = x: int | 0 <= x < 2

  /** A value that fits in eight bits: what `int(…, 2)` of eight digits can produce. */
  type byte = x: int | 0 <= x < 256

  function Pow2(n: nat): (r: nat)
    ensures r > 0
  {
    if n == 0 then 1 else 2 * Pow2(n - 1)
  }

  /** Python's `v & 0xFF`. Python integers behave as infinite two's complement, so
      for every integer, negative ones included, the mask is the Euclidean
      remainder modulo 256 (which is what Dafny's `%` computes): the one value
      in 0..255 that differs from `v` by a multiple of 256. */
  function Mask(v: int): (r: byte)
    ensures (v - r) % 256 == 0
    ensures 0 <= v < 256 ==> r == v
  {
    v % 256
  }

  /** Bit `i` of a natural number, Python's `(v >> i) & 1`: the digit that
      takes the low `i` bits of `v` to its low `i + 1` bits. */
  function BitOf(v: nat, i: nat): (r: bit)
    ensures v % Pow2(i + 1) == v % Pow2(i) + r * Pow2(i)
  {
    ModDouble(v, Pow2(i));
    (v / Pow2(i)) % 2
  }

  /** The remainder modulo `2 * p` is the remainder modulo `p` plus the next
      binary digit of the quotient, weighted by `p`. */
  lemma ModDouble(v: nat, p: nat)
    requires p > 0
    ensures v % (2 * p) == v % p + ((v / p) % 2) * p
  {
    var q, r := v / p, v % p;
    var q2, d := q / 2, q % 2;
    assert v == p * q + r;
    assert q == 2 * q2 + d;
    assert v == (2 * p) * q2 + (d * p + r) by {
      assert p * q == p * (2 * q2 + d) == (2 * p) * q2 + d * p;
    }
    assert 0 <= d * p + r < 2 * p by {
      if d == 1 { assert d * p == p; } else { assert d * p == 0; }
    }
    DivModUnique(v, 2 * p, q2, d * p + r);
  }

  /** The value of a bit sequence read least-significant bit first:
      the sum of `s[i] * 2^i`. */
  function LsbValue(s: seq<bit>): (r: nat)
    ensures r < Pow2(|s|)
  {
    if |s| == 0 then 0 else s[0] + 2 * LsbValue(s[1..])
  }

  /** The low `n` bits of `v`, least-significant bit first. */
  function LsbBits(v: nat, n: nat): (r: seq<bit>)
    ensures |r| == n
  {
    if n == 0 then [] else [v % 2] + LsbBits(v / 2, n - 1)
  }

  /** Element `i` of the shifted-out bits is `(v >> i) & 1`. */
  lemma {:induction false} LsbBitsAt(v: nat, n: nat, i: nat)
    requires i < n
    ensures LsbBits(v, n)[i] == BitOf(v, i)
  {
    if i > 0 {
      LsbBitsAt(v / 2, n - 1, i - 1);
      DivModStep(v, Pow2(i - 1));
    }
  }

  /** Dividing by `2 * p` is halving and then dividing by `p`; the remainder
      modulo `2 * p` is built from the low bit and the remainder of the half. */
  lemma DivModStep(v: nat, p: nat)
    requires p > 0
    ensures v / (2 * p) == (v / 2) / p
    ensures v % (2 * p) == v % 2 + 2 * ((v / 2) % p)
  {
    var q, r := (v / 2) / p, (v / 2) % p;
    assert v == 2 * p * q + (v % 2 + 2 * r);
    assert 0 <= v % 2 + 2 * r < 2 * p;
    DivModUnique(v, 2 * p, q, v % 2 + 2 * r);
  }

  lemma DivModUnique(v: int, d: int, q: int, r: int)
    requires d > 0 && 0 <= r < d && v == d * q + r
    ensures v / d == q && v % d == r
  {
    var q', r' := v / d, v % d;
    assert v == d * q' + r';
    var k := q - q';
    assert d * k == r' - r by {
      assert d * q - d * q' == d * k;
    }
    if k > 0 {
      MulAtLeast(d, k);
    }
  }

  lemma MulAtLeast(d: nat, k: nat)
    requires k > 0
    ensures d * k >= d
  {
  }

  /** Reading the low `n` bits of `v` back gives `v` modulo `2^n`. */
  lemma {:induction false} LsbValueOfBits(v: nat, n: nat)
    ensures LsbValue(LsbBits(v, n)) == v % Pow2(n)
  {
    if n > 0 {
      var s := LsbBits(v, n);
      assert s[1..] == LsbBits(v / 2, n - 1);
      LsbValueOfBits(v / 2, n - 1);
      DivModStep(v, Pow2(n - 1));
    }
  }

  /** Splitting the value of a sequence back into `|s|` bits gives the sequence. */
  lemma {:induction false} BitsOfLsbValue(s: seq<bit>)
    ensures LsbBits(LsbValue(s), |s|) == s
  {
    if |s| > 0 {
      BitsOfLsbValue(s[1..]);
      var v := LsbValue(s);
      assert v % 2 == s[0] && v / 2 == LsbValue(s[1..]);
    }
  }

  lemma AppendAssoc<T>(a: seq<T>, b: seq<T>, c: seq<T>)
    ensures (a + b) + c == a + (b + c)
  {
  }

  /** Appending a bit at the most-significant end adds its weight. */
  lemma {:induction false} LsbValueSnoc(s: seq<bit>, x: bit)
    ensures LsbValue(s + [x]) == LsbValue(s) + x * Pow2(|s|)
  {
    if |s| > 0 {
      assert (s + [x])[1..] == s[1..] + [x];
      LsbValueSnoc(s[1..], x);
    }
  }
}

/** Bytes, powers, the big-endian reading of a byte string, and the
    division facts the byte-level proofs rest on. */
module Bytes {

  /** Go's `byte`: an unsigned 8-bit value, kept as an integer. */
  type Byte = b: int | 0 <= b < 256

  /** `base` raised to the power `e`. */
  function Pow(base: nat, e: nat): (r: nat)
    ensures base > 0 ==> r > 0
  {
    if e == 0 then 1 else base * Pow(base, e - 1)
  }

  /** The unsigned integer whose base-256 digits, most significant first, are `s`. */
  function BigEndian(s: seq<Byte>): (r: nat)
    ensures r < Pow(256, |s|)
  {
    if s == [] then 0
    else
      var high := BigEndian(s[..|s| - 1]);
      DigitBound(256, Pow(256, |s| - 1), s[|s| - 1], high);
      high * 256 + s[|s| - 1]
  }

  /** Multiplying by a natural number is monotonic. */
  lemma MulMono(a: nat, x: nat, y: nat)
    requires x <= y
    ensures a * x <= a * y
  {
    assert a * y == a * x + a * (y - x);
  }

  /** A low digit `r < a` under a high digit `r2 < b` stays below `a * b`. */
  lemma DigitBound(a: nat, b: nat, r: nat, r2: nat)
    requires r < a && r2 < b
    ensures a * r2 + r < a * b
  {
    MulMono(a, r2 + 1, b);
  }

  /** `a * (b * q2 + r2) + r` regrouped around the product `a * b`. */
  lemma Regroup(v: nat, a: nat, b: nat, q: nat, r: nat, q2: nat, r2: nat)
    requires v == a * q + r && q == b * q2 + r2
    ensures v == (a * b) * q2 + (a * r2 + r)
  {
    calc {
      v;
      a * (b * q2 + r2) + r;
      a * (b * q2) + a * r2 + r;
      (a * b) * q2 + (a * r2 + r);
    }
  }

  /** Non-zero products of naturals are bounded away from zero. */
  lemma MulPos(d: int, x: int)
    requires d > 0 && x > 0
    ensures d * x >= d
  {
    assert d * x == d + d * (x - 1);
  }

  /** A multiple of `d` strictly between `-d` and `d` is zero. */
  lemma MulSmall(d: int, x: int)
    requires d > 0 && -d < d * x < d
    ensures x == 0
  {
    if x > 0 {
      MulPos(d, x);
    } else if x < 0 {
      MulPos(d, -x);
    }
  }

  /** Quotient and remainder are the unique pair with `v == d * q + r` and `r < d`. */
  lemma DivUnique(v: nat, d: nat, q: nat, r: nat)
    requires d > 0 && r < d && v == d * q + r
    ensures v / d == q && v % d == r
  {
    var q', r' := v / d, v % d;
    assert d * (q - q') == r' - r;
    MulSmall(d, q - q');
  }

  /** Dividing by `a` and then by `b` is dividing by `a * b`. */
  lemma DivDiv(v: nat, a: nat, b: nat)
    requires a > 0 && b > 0
    ensures v / a / b == v / (a * b)
  {
    var q, r := v / a, v % a;
    var q2, r2 := q / b, q % b;
    DigitBound(a, b, r, r2);
    Regroup(v, a, b, q, r, q2, r2);
    DivUnique(v, a * b, q2, a * r2 + r);
  }

  /** Splitting off the low digit in base `a`: `v mod (a * p)` is the
      remainder of `v / a` modulo `p`, shifted up, plus `v mod a`. */
  lemma ModSplit(v: nat, a: nat, p: nat)
    requires a > 0 && p > 0
    ensures v % (a * p) == (v / a % p) * a + v % a
  {
    var q, r := v / a, v % a;
    var q2, r2 := q / p, q % p;
    DigitBound(a, p, r, r2);
    Regroup(v, a, p, q, r, q2, r2);
    DivUnique(v, a * p, q2, a * r2 + r);
  }

  /** Shifting right by `8 * k` bits and then by 8 more is shifting right by `8 * (k + 1)`. */
  lemma ShiftStep(v: nat, k: nat)
    ensures v / Pow(256, k) / 256 == v / Pow(256, k + 1)
  {
    DivDiv(v, Pow(256, k), 256);
    assert Pow(256, k + 1) == Pow(256, k) * 256;
  }

  /** A remainder is no larger than the number it is taken of. */
  lemma ModAtMost(x: nat, d: nat)
    requires d > 0
    ensures x % d <= x
  {
    MulMono(d, 0, x / d);
  }
}

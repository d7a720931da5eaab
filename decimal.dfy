/** Decimal rendering of a non-negative integer as `strconv.Itoa` performs
    it (no sign, no padding), its inverse, and the zero-padded rendering
    of the reference code in Appendix C of RFC 4226 and Appendix A of
    RFC 6238. */
module Decimal {
  import opened Bytes

  predicate IsDigit(c: char)
  {
    '0' <= c <= '9'
  }

  predicate AllDigits(s: string)
  {
    forall i :: 0 <= i < |s| ==> IsDigit(s[i])
  }

  /** A plain decimal numeral: non-empty, digits only, and no leading zero
      unless the numeral is "0" itself. */
  predicate IsCanonical(s: string)
  {
    |s| > 0 && AllDigits(s) && (s[0] == '0' ==> |s| == 1)
  }

  function DigitChar(d: nat): (c: char)
    requires d < 10
    ensures IsDigit(c)
    ensures c == '0' <==> d == 0
  {
    ('0' as int + d) as char
  }

  function DigitValue(c: char): (d: nat)
    requires IsDigit(c)
    ensures d < 10
    ensures DigitChar(d) == c
  {
    c as int - '0' as int
  }

  /** `strconv.Itoa` on a non-negative value: its digits, most significant first. */
  function Itoa(n: nat): (s: string)
    ensures IsCanonical(s)
    ensures s[0] == '0' <==> n == 0
  {
    if n < 10 then [DigitChar(n)] else Itoa(n / 10) + [DigitChar(n % 10)]
  }

  /** The value of a string of decimal digits (leading zeros allowed). */
  function ParseDecimal(s: string): (n: nat)
    requires AllDigits(s)
    ensures n < Pow(10, |s|)
  {
    if s == [] then 0
    else
      var high := ParseDecimal(s[..|s| - 1]);
      DigitBound(10, Pow(10, |s| - 1), DigitValue(s[|s| - 1]), high);
      high * 10 + DigitValue(s[|s| - 1])
  }

  /** Appending a digit multiplies the value by ten and adds the digit. */
  lemma ParseSnoc(s: string, c: char)
    requires AllDigits(s) && IsDigit(c)
    ensures ParseDecimal(s + [c]) == ParseDecimal(s) * 10 + DigitValue(c)
  {
    assert (s + [c])[..|s|] == s;
  }

  /** Parsing the rendering of `n` gives `n` back. */
  lemma {:induction false} ParseItoa(n: nat)
    ensures ParseDecimal(Itoa(n)) == n
  {
    if n < 10 {
      assert Itoa(n) == [] + [DigitChar(n)];
      ParseSnoc([], DigitChar(n));
    } else {
      ParseItoa(n / 10);
      ParseSnoc(Itoa(n / 10), DigitChar(n % 10));
    }
  }

  /** A numeral without a leading zero is worth at least `10^(|s|-1)`. */
  lemma {:induction false} ParseLowerBound(s: string)
    requires AllDigits(s) && |s| > 0 && s[0] != '0'
    ensures ParseDecimal(s) >= Pow(10, |s| - 1)
  {
    if |s| > 1 {
      var p := s[..|s| - 1];
      ParseLowerBound(p);
      MulMono(10, Pow(10, |p| - 1), ParseDecimal(p));
    } else {
      assert s[..0] == [];
    }
  }

  /** Rendering the value of a canonical numeral gives the numeral back:
      `Itoa` and `ParseDecimal` are inverse on canonical numerals. */
  lemma {:induction false} ItoaParse(s: string)
    requires IsCanonical(s)
    ensures Itoa(ParseDecimal(s)) == s
  {
    var last := DigitValue(s[|s| - 1]);
    if |s| == 1 {
      assert s[..0] == [];
      assert ParseDecimal(s) == last;
    } else {
      var p := s[..|s| - 1];
      assert s == p + [s[|s| - 1]];
      ParseLowerBound(p);
      ItoaParse(p);
      var n := ParseDecimal(s);
      assert n == ParseDecimal(p) * 10 + last;
      DivUnique(n, 10, ParseDecimal(p), last);
    }
  }

  /** `n / 10 < p` exactly when `n < 10 * p`. */
  lemma DivTenLess(n: nat, p: nat)
    ensures n / 10 < p <==> n < 10 * p
  {
    var q, r := n / 10, n % 10;
    if q < p {
      MulMono(10, q + 1, p);
    } else {
      MulMono(10, p, q);
    }
  }

  /** The rendering has at most `k` characters exactly when `n < 10^k`. */
  lemma {:induction false} ItoaLength(n: nat, k: nat)
    requires k >= 1
    ensures |Itoa(n)| <= k <==> n < Pow(10, k)
  {
    if n >= 10 {
      if k == 1 {
        assert |Itoa(n)| >= 2;
      } else {
        ItoaLength(n / 10, k - 1);
        DivTenLess(n, Pow(10, k - 1));
      }
    }
  }

  /** `count` zero characters. */
  function Zeros(count: nat): (z: string)
    ensures |z| == count && AllDigits(z)
  {
    if count == 0 then "" else Zeros(count - 1) + "0"
  }

  /** Leading zeros do not change the value of a numeral. */
  lemma {:induction false} ParseZeros(count: nat, s: string)
    requires AllDigits(s)
    ensures ParseDecimal(Zeros(count) + s) == ParseDecimal(s)
  {
    if s == [] {
      assert Zeros(count) + s == Zeros(count);
      ZerosValue(count);
    } else {
      var p := s[..|s| - 1];
      assert Zeros(count) + s == (Zeros(count) + p) + [s[|s| - 1]];
      ParseSnoc(Zeros(count) + p, s[|s| - 1]);
      ParseSnoc(p, s[|s| - 1]);
      assert s == p + [s[|s| - 1]];
      ParseZeros(count, p);
    }
  }

  /** A string of zeros is worth zero. */
  lemma {:induction false} ZerosValue(count: nat)
    ensures ParseDecimal(Zeros(count)) == 0
  {
    if count > 0 {
      ZerosValue(count - 1);
      ParseSnoc(Zeros(count - 1), '0');
    }
  }

  /** The rendering of `n` left-padded with '0' to `width` characters. */
  function PaddedDecimal(n: nat, width: nat): (s: string)
    requires n < Pow(10, width)
    ensures |s| == width || (width == 0 && s == "0")
    ensures AllDigits(s) && ParseDecimal(s) == n
  {
    var digits := Itoa(n);
    ParseItoa(n);
    if width == 0 then
      digits
    else
      ItoaLength(n, width);
      ParseZeros(width - |digits|, digits);
      Zeros(width - |digits|) + digits
  }

  /** The padded rendering is the plain one with zeros in front; the two
      coincide exactly when the plain rendering already has `width`
      characters. */
  lemma PaddedDecimalAgrees(n: nat, width: nat)
    requires width >= 1 && n < Pow(10, width)
    ensures |Itoa(n)| <= width
    ensures PaddedDecimal(n, width) == Zeros(width - |Itoa(n)|) + Itoa(n)
    ensures PaddedDecimal(n, width) == Itoa(n) <==> |Itoa(n)| == width
  {
    ItoaLength(n, width);
    assert Zeros(0) + Itoa(n) == Itoa(n);
  }

  /** The value 7081804 rendered plainly: seven characters. */
  lemma SevenDigitValue()
    ensures Itoa(7081804) == "7081804"
  {
    assert Itoa(7) == "7";
    assert Itoa(70) == "70";
    assert Itoa(708) == "708";
    assert Itoa(7081) == "7081";
    assert Itoa(70818) == "70818";
    assert Itoa(708180) == "708180";
  }

  /** The same value padded to eight digits: "07081804". */
  lemma SevenDigitValuePadded()
    ensures 7081804 < Pow(10, 8) && PaddedDecimal(7081804, 8) == "07081804"
  {
    assert Pow(10, 8) == 100_000_000;
    SevenDigitValue();
    PaddedDecimalAgrees(7081804, 8);
    assert Zeros(1) == "0";
  }
}

/** The time-step encoder of main.go: a non-negative 64-bit counter
    written as eight big-endian bytes (RFC 4226 section 5.2, the counter
    C as an 8-byte big-endian value, reused by RFC 6238 section 4). */
module Counter {
  import opened Bytes

  /** The largest `int64` plus one: Go's `interval` is an `int64`. */
  const Int64Bound: nat := 0x8000_0000_0000_0000

  /** The `n` low-order base-256 digits of `v`, most significant first. */
  function Digits(v: nat, n: nat): (r: seq<Byte>)
    ensures |r| == n
  {
    if n == 0 then [] else Digits(v / 256, n - 1) + [v % 256]
  }

  /** The eight counter bytes `ConvertTime` produces for `v`. */
  function CounterBytes(v: nat): (r: seq<Byte>)
    ensures |r| == 8
  {
    Digits(v, 8)
  }

  /** Digit `i` of the `n` digits of `v` is `(v / 256^(n-1-i)) % 256`. */
  lemma {:induction false} DigitsAt(v: nat, n: nat, i: nat)
    requires i < n
    ensures Digits(v, n)[i] == v / Pow(256, n - 1 - i) % 256
  {
    if i == n - 1 {
      assert v / Pow(256, 0) == v;
    } else {
      assert Digits(v, n)[i] == Digits(v / 256, n - 1)[i];
      DigitsAt(v / 256, n - 1, i);
      DivDiv(v, 256, Pow(256, n - 2 - i));
    }
  }

  /** Appending one byte to a big-endian string multiplies its value by 256 and adds the byte. */
  lemma BigEndianSnoc(s: seq<Byte>, b: Byte)
    ensures BigEndian(s + [b]) == BigEndian(s) * 256 + b
  {
    assert (s + [b])[..|s|] == s;
  }

  /** The `n` digits of `v` read big-endian: the `n - 1` digits of `v / 256`, then the low byte. */
  lemma DigitsStep(v: nat, n: nat)
    requires n > 0
    ensures BigEndian(Digits(v, n)) == BigEndian(Digits(v / 256, n - 1)) * 256 + v % 256
  {
    BigEndianSnoc(Digits(v / 256, n - 1), v % 256);
  }

  /** Reading the `n` digits of `v` back big-endian gives `v mod 256^n`. */
  lemma {:induction false} DigitsRoundTrip(v: nat, n: nat)
    ensures BigEndian(Digits(v, n)) == v % Pow(256, n)
  {
    if n == 0 {
      assert v % 1 == 0;
    } else {
      DigitsStep(v, n);
      DigitsRoundTrip(v / 256, n - 1);
      ModSplit(v, 256, Pow(256, n - 1));
    }
  }

  /** The encoding is lossless for every counter that fits in 64 bits, and
      so for every non-negative `int64` interval. */
  lemma CounterRoundTrip(v: nat)
    requires v < Pow(256, 8)
    ensures BigEndian(CounterBytes(v)) == v
  {
    DigitsRoundTrip(v, 8);
    DivUnique(v, Pow(256, 8), 0, v);
  }

  /** Two counters below 2^64 with the same bytes are the same counter. */
  lemma CounterBytesInjective(v: nat, w: nat)
    requires v < Pow(256, 8) && w < Pow(256, 8)
    requires CounterBytes(v) == CounterBytes(w)
    ensures v == w
  {
    CounterRoundTrip(v);
    CounterRoundTrip(w);
  }

  /** `ConvertTime`: fills a fresh 8-byte buffer from index 7 down to 0,
      taking the low byte of `interval` and then shifting it right by 8.
      For a non-negative `interval`, `interval & 0xff` is `interval % 256`
      and `interval >> 8` is `interval / 256`. */
  method ConvertTime(interval: int) returns (data: array<Byte>)
    requires 0 <= interval < Int64Bound
    ensures fresh(data)
    ensures data.Length == 8
    ensures forall i :: 0 <= i < 8 ==> data[i] == interval / Pow(256, 7 - i) % 256
    ensures data[..] == CounterBytes(interval)
    ensures BigEndian(data[..]) == interval
  {
    data := new Byte[8](_ => 0);
    var v := interval;
    var i := 7;
    while i >= 0
      invariant -1 <= i <= 7
      invariant v == interval / Pow(256, 7 - i)
      invariant forall j :: i < j < 8 ==> data[j] == interval / Pow(256, 7 - j) % 256
    {
      data[i] := v % 256;
      ShiftStep(interval, 7 - i);
      v := v / 256;
      i := i - 1;
    }
    forall j | 0 <= j < 8
      ensures data[j] == CounterBytes(interval)[j]
    {
      DigitsAt(interval, 8, j);
    }
    CounterRoundTrip(interval);
  }
}

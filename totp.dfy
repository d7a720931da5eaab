/** `generateTOTP` of main.go: decode the secret, derive the time-step
    counter (RFC 6238 section 4 with T0 = 0 and X = 30), compute the HMAC
    of its eight big-endian bytes, truncate, reduce modulo `10^digits` and
    render the result with `strconv.Itoa`.

    The three things the function reaches outside itself are parameters:
    `decode` stands for `DecodeBase32` (RFC 4648 base-32 decoding by Go's
    library), `hmac` for `GenerateHMAC` (HMAC of RFC 2104 over the chosen
    hash), and `now` for `time.Now().Unix()`. */
module Totp {
  import opened Wrappers
  import opened Bytes
  import opened Counter
  import opened Truncation
  import opened Decimal

  /** The time step X of RFC 6238 section 4, in seconds. */
  const TimeStep: nat := 30

  /** The most digits for which `10^digits` still fits in Go's 64-bit `int`. */
  const MaxDigits: int := 18

  /** The HMAC primitive returns a digest of the selected hash's length. */
  ghost predicate DigestLengths(hmac: (Algorithm, seq<Byte>, seq<Byte>) -> seq<Byte>)
  {
    forall alg, key, msg :: |hmac(alg, key, msg)| == DigestLength(alg)
  }

  /** The divisor the loop of `generateTOTP` builds: ten multiplied in
      `digits` times, so 1 when `digits` is zero or negative. */
  function Divisor(digits: int): (d: nat)
    ensures d >= 1
    ensures digits >= 0 ==> d == Pow(10, digits)
  {
    if digits <= 0 then 1 else Pow(10, digits)
  }

  /** The time-step counter for a Unix time: the number of whole 30-second
      steps since the epoch. */
  function TimeCounter(unixSeconds: nat): (counter: nat)
    ensures counter * TimeStep <= unixSeconds < (counter + 1) * TimeStep
  {
    unixSeconds / TimeStep
  }

  /** The number the code shows: the truncated HMAC of the counter bytes,
      reduced modulo the divisor. */
  function CodeValue(key: seq<Byte>, alg: Algorithm, counter: nat, digits: int,
                     hmac: (Algorithm, seq<Byte>, seq<Byte>) -> seq<Byte>): (v: nat)
    requires DigestLengths(hmac)
    ensures v < Divisor(digits)
    ensures v < 0x8000_0000
  {
    var hash := hmac(alg, key, CounterBytes(counter));
    LongDigestCanTruncate(hash);
    ModAtMost(HashTruncation(hash), Divisor(digits));
    HashTruncation(hash) % Divisor(digits)
  }

  /** What `generateTOTP` returns at Unix time `now`: the error of a failed
      decode, or the plain decimal rendering of the code value. */
  function TotpCode<E>(secret: string, alg: Algorithm, digits: int, now: nat,
                       decode: string -> Result<seq<Byte>, E>,
                       hmac: (Algorithm, seq<Byte>, seq<Byte>) -> seq<Byte>): (r: Result<string, E>)
    requires DigestLengths(hmac)
    ensures r.Err? <==> decode(secret).Err?
    ensures decode(secret).Err? ==> r == Err(decode(secret).error)
    ensures r.Ok? ==>
              && IsCanonical(r.value)
              && ParseDecimal(r.value) == CodeValue(decode(secret).value, alg, TimeCounter(now), digits, hmac)
  {
    match decode(secret)
    case Err(e) => Err(e)
    case Ok(key) =>
      var v := CodeValue(key, alg, TimeCounter(now), digits, hmac);
      ParseItoa(v);
      Ok(Itoa(v))
  }

  /** `generateTOTP`, statement by statement. */
  method GenerateTOTP<E>(secret: string, alg: Algorithm, digits: int, now: nat,
                         decode: string -> Result<seq<Byte>, E>,
                         hmac: (Algorithm, seq<Byte>, seq<Byte>) -> seq<Byte>)
    returns (r: Result<string, E>)
    requires DigestLengths(hmac)
    requires digits <= MaxDigits && now < Int64Bound
    ensures r == TotpCode(secret, alg, digits, now, decode, hmac)
  {
    var decoded := decode(secret);
    if decoded.Err? {
      return Err(decoded.error);
    }
    var key := decoded.value;
    var interval := now / TimeStep;
    var data := ConvertTime(interval);
    var hash := hmac(alg, key, data[..]);
    LongDigestCanTruncate(hash);
    var truncatedHash := HashTruncation(hash);
    var divisor := 1;
    var i := 0;
    while i < digits
      invariant 0 <= i && (i <= digits || i == 0)
      invariant divisor == Pow(10, i)
    {
      divisor := divisor * 10;
      i := i + 1;
    }
    var totp := truncatedHash % divisor;
    return Ok(Itoa(totp));
  }

  /** A failed decode is returned as it is, whatever the hash, digit count,
      time or HMAC primitive: nothing downstream of the decoder matters. */
  lemma DecodeErrorPropagates<E>(secret: string, alg: Algorithm, digits: int, now: nat,
                                 decode: string -> Result<seq<Byte>, E>,
                                 hmac: (Algorithm, seq<Byte>, seq<Byte>) -> seq<Byte>, e: E)
    requires DigestLengths(hmac)
    requires decode(secret) == Err(e)
    ensures TotpCode(secret, alg, digits, now, decode, hmac) == Err(e)
  {
  }

  /** A successful decode always yields a code. */
  lemma DecodeSuccessGivesCode<E>(secret: string, alg: Algorithm, digits: int, now: nat,
                                  decode: string -> Result<seq<Byte>, E>,
                                  hmac: (Algorithm, seq<Byte>, seq<Byte>) -> seq<Byte>)
    requires DigestLengths(hmac)
    requires decode(secret).Ok?
    ensures TotpCode(secret, alg, digits, now, decode, hmac).Ok?
  {
  }

  /** Two times in the same 30-second window give the same result. */
  lemma SameWindowSameCode<E>(secret: string, alg: Algorithm, digits: int, t1: nat, t2: nat,
                              decode: string -> Result<seq<Byte>, E>,
                              hmac: (Algorithm, seq<Byte>, seq<Byte>) -> seq<Byte>)
    requires DigestLengths(hmac)
    requires t1 / TimeStep == t2 / TimeStep
    ensures TotpCode(secret, alg, digits, t1, decode, hmac) == TotpCode(secret, alg, digits, t2, decode, hmac)
  {
  }

  /** Within a window the code stays put from one second to the next; only
      the step from the last second of a window can change it. */
  lemma CodeStableWithinWindow<E>(secret: string, alg: Algorithm, digits: int, t: nat,
                                  decode: string -> Result<seq<Byte>, E>,
                                  hmac: (Algorithm, seq<Byte>, seq<Byte>) -> seq<Byte>)
    requires DigestLengths(hmac)
    requires t % TimeStep != TimeStep - 1
    ensures TotpCode(secret, alg, digits, t, decode, hmac) == TotpCode(secret, alg, digits, t + 1, decode, hmac)
  {
    assert (t + 1) / TimeStep == t / TimeStep;
    SameWindowSameCode(secret, alg, digits, t, t + 1, decode, hmac);
  }

  /** The code is the plain decimal numeral of the code value: digits
      only, no leading zero unless the value is 0, parsing back to the
      value, which lies below `10^digits`. It is never longer than
      `digits` characters (one character when `digits` is zero or less),
      and it is shorter whenever the value has fewer than `digits` digits:
      it is not zero-padded. */
  lemma {:induction false} CodeIsPlainNumeral<E>(secret: string, alg: Algorithm, digits: int, now: nat,
                                                 decode: string -> Result<seq<Byte>, E>,
                                                 hmac: (Algorithm, seq<Byte>, seq<Byte>) -> seq<Byte>)
    requires DigestLengths(hmac)
    requires decode(secret).Ok?
    ensures var code := TotpCode(secret, alg, digits, now, decode, hmac).value;
            var v := CodeValue(decode(secret).value, alg, TimeCounter(now), digits, hmac);
            && IsCanonical(code)
            && ParseDecimal(code) == v
            && v < Divisor(digits)
            && (digits >= 1 ==> |code| <= digits)
            && (digits <= 1 ==> |code| == 1)
            && (digits >= 2 ==> (|code| == digits <==> v >= Pow(10, digits - 1)))
  {
    var code := TotpCode(secret, alg, digits, now, decode, hmac).value;
    var v := CodeValue(decode(secret).value, alg, TimeCounter(now), digits, hmac);
    ParseItoa(v);
    if digits >= 1 {
      ItoaLength(v, digits);
    }
    if digits >= 2 {
      ItoaLength(v, digits - 1);
    }
  }

  /** The code depends on the secret only through the decoded key: two
      secrets that decode to the same key give the same code. */
  lemma SameKeySameCode<E>(s1: string, s2: string, alg: Algorithm, digits: int, now: nat,
                           decode: string -> Result<seq<Byte>, E>,
                           hmac: (Algorithm, seq<Byte>, seq<Byte>) -> seq<Byte>)
    requires DigestLengths(hmac)
    requires decode(s1).Ok? && decode(s2).Ok? && decode(s1).value == decode(s2).value
    ensures TotpCode(s1, alg, digits, now, decode, hmac) == TotpCode(s2, alg, digits, now, decode, hmac)
  {
  }

  /** With the sample digest of section 5.4 of RFC 4226 and six digits the
      code is "872921", the six-digit value that section derives from it. */
  lemma Rfc4226CodeExample<E>(secret: string, now: nat,
                              decode: string -> Result<seq<Byte>, E>,
                              hmac: (Algorithm, seq<Byte>, seq<Byte>) -> seq<Byte>)
    requires DigestLengths(hmac)
    requires decode(secret).Ok?
    requires hmac(SHA1, decode(secret).value, CounterBytes(TimeCounter(now))) == Rfc4226Digest
    ensures TotpCode(secret, SHA1, 6, now, decode, hmac) == Ok("872921")
  {
    Rfc4226Example();
    assert Divisor(6) == 1_000_000;
    assert 1357872921 % 1_000_000 == 872921;
    assert Itoa(87) == "87";
    assert Itoa(872) == "872";
    assert Itoa(8729) == "8729";
    assert Itoa(87292) == "87292";
    assert Itoa(872921) == "872921";
  }

  /** The code the program evidently means to show: the code value
      left-padded with '0' to `digits` characters, as the reference code
      of RFC 4226 Appendix C and RFC 6238 Appendix A renders it and as the
      test vectors of RFC 6238 Appendix B list it. */
  function PaddedTotpCode<E>(secret: string, alg: Algorithm, digits: int, now: nat,
                             decode: string -> Result<seq<Byte>, E>,
                             hmac: (Algorithm, seq<Byte>, seq<Byte>) -> seq<Byte>): (r: Result<string, E>)
    requires DigestLengths(hmac)
    ensures r.Err? <==> decode(secret).Err?
    ensures decode(secret).Err? ==> r == Err(decode(secret).error)
    ensures r.Ok? ==>
              && AllDigits(r.value)
              && (digits >= 1 ==> |r.value| == digits)
              && ParseDecimal(r.value) == CodeValue(decode(secret).value, alg, TimeCounter(now), digits, hmac)
  {
    match decode(secret)
    case Err(e) => Err(e)
    case Ok(key) =>
      var width: nat := if digits < 0 then 0 else digits;
      Ok(PaddedDecimal(CodeValue(key, alg, TimeCounter(now), digits, hmac), width))
  }

  /** The padded code has exactly `digits` digits and the same value as the
      code `generateTOTP` returns; the two differ only by the leading zeros,
      so they agree exactly when the value has `digits` digits. Decode
      errors are returned alike. */
  lemma {:induction false} PaddedCodeHasAllDigits<E>(secret: string, alg: Algorithm, digits: int, now: nat,
                                                     decode: string -> Result<seq<Byte>, E>,
                                                     hmac: (Algorithm, seq<Byte>, seq<Byte>) -> seq<Byte>)
    requires DigestLengths(hmac)
    requires digits >= 1
    ensures var padded := PaddedTotpCode(secret, alg, digits, now, decode, hmac);
            var plain := TotpCode(secret, alg, digits, now, decode, hmac);
            && (padded.Err? <==> plain.Err?)
            && (padded.Err? ==> padded == plain)
            && (padded.Ok? ==>
                  && |padded.value| == digits
                  && AllDigits(padded.value)
                  && ParseDecimal(padded.value) == ParseDecimal(plain.value)
                  && (padded == plain <==> |plain.value| == digits))
  {
    if decode(secret).Ok? {
      var v := CodeValue(decode(secret).value, alg, TimeCounter(now), digits, hmac);
      ParseItoa(v);
      PaddedDecimalAgrees(v, digits);
    }
  }

  /** RFC 6238 Appendix B lists "07081804" for T = 1111111109 with SHA-1
      and eight digits, a code value of 7081804. For that value
      `generateTOTP` returns the seven characters "7081804", which a
      verifier comparing eight-digit codes rejects. */
  lemma UnpaddedCodeExample<E>(secret: string, decode: string -> Result<seq<Byte>, E>,
                               hmac: (Algorithm, seq<Byte>, seq<Byte>) -> seq<Byte>)
    requires DigestLengths(hmac)
    requires decode(secret).Ok?
    requires CodeValue(decode(secret).value, SHA1, TimeCounter(1111111109), 8, hmac) == 7081804
    ensures TotpCode(secret, SHA1, 8, 1111111109, decode, hmac) == Ok("7081804")
    ensures PaddedTotpCode(secret, SHA1, 8, 1111111109, decode, hmac) == Ok("07081804")
  {
    SevenDigitValue();
    SevenDigitValuePadded();
  }
}

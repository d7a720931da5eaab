# TOTP generator core, modelled in Dafny

This project models the code-generation core of a small Go TOTP generator
(`main.go`). The core turns a base-32 secret, a hash choice (SHA-1, SHA-256
or SHA-512), a digit count and the current Unix time into a one-time code,
following RFC 6238 section 4 on top of HOTP (section 5.3 of RFC 4226, which
defines the code as the number `Snum mod 10^Digit`). The
steps are:

- decode the secret;
- take the time-step counter `unixSeconds / 30` (T0 = 0, X = 30);
- write the counter as eight big-endian bytes (`ConvertTime`);
- compute the HMAC of those bytes under the decoded key;
- dynamically truncate the digest to a 31-bit integer (`HashTruncation`);
- reduce it modulo `10^digits`, with the divisor built by a loop;
- render the result with `strconv.Itoa`.

Modules, one per step:

- `Wrappers` (wrappers.dfy) holds `Result`. `Err(e)` stands for Go's `("", err)`.
- `Bytes` (bytes.dfy) holds `Byte` (an integer in [0, 256)), `Pow`, the big-endian reading `BigEndian`, and the division facts the byte proofs need.
- `Counter` (counter.dfy) holds `ConvertTime`. It is an imperative method that fills an 8-element array from index 7 down to 0, as the Go loop does. It is proved against the function `CounterBytes` and its round-trip lemma.
- `Truncation` (truncation.dfy) holds the digest lengths of the three primitives, the offset, the exact bounds condition `CanTruncate` and `HashTruncation`. `HashTruncation` is tied to the RFC reading "four bytes at the offset, big-endian, modulo 2^31". Separate lemmas show that Go's masks, shifts and OR compute the same number.
- `Decimal` (decimal.dfy) holds `Itoa`, which stands for `strconv.Itoa` on non-negative values. Its inverse is `ParseDecimal`. It also holds the zero-padded rendering `PaddedDecimal`, used for the finding below.
- `Totp` (totp.dfy) holds two members for `generateTOTP`. `TotpCode` is the function. `GenerateTOTP` is the method that follows the Go body statement by statement, including the divisor loop, and is proved equal to `TotpCode`. The lemmas state error propagation, the 30-second window, the shape of the code and a known-answer example.

Three collaborators become parameters:

- `decode: string -> Result<seq<Byte>, E>` stands for `DecodeBase32`.
- `hmac: (Algorithm, seq<Byte>, seq<Byte>) -> seq<Byte>` stands for `GenerateHMAC`. The only thing assumed about it is `DigestLengths`: digests are 20, 32 or 64 bytes long for SHA-1, SHA-256 and SHA-512.
- `now: nat` stands for `time.Now().Unix()`.

The model follows `main.go`, not a hardened design. The code:

- does not zero-pad the code;
- does not restrict `digits` to 6, 7 or 8;
- has no error for an empty key, a time before the epoch or a short digest.

So the model has none of these either. A digest too short for its offset makes Go panic. The model states this as the precondition `CanTruncate` of `HashTruncation`. Every supported primitive meets it (`LongDigestCanTruncate`).

## Model

| member | source | states |
|---|---|---|
| `Counter.CounterBytes` | main.go:48-55 | the counter encoding always has exactly eight bytes |
| `Counter.DigitsAt` | main.go:50-53 | byte `i` of the `n`-byte encoding of `v` is `(v / 256^(n-1-i)) % 256`, so the last byte is the low-order one |
| `Counter.DigitsRoundTrip` | main.go:48-55 | reading the `n` bytes back big-endian gives `v mod 256^n` |
| `Counter.CounterRoundTrip` | main.go:48-55 | for every counter below 2^64, reading the eight bytes back big-endian gives the counter: the encoding is lossless |
| `Counter.CounterBytesInjective` | main.go:48-55 | two counters below 2^64 with the same eight bytes are equal |
| `Counter.ConvertTime` | main.go:48-55 | for 0 <= interval < 2^63 the method returns a newly allocated array; the loop fills all 8 bytes, byte `i` is `(interval / 256^(7-i)) % 256`, the array equals `CounterBytes(interval)`, and it reads back to `interval` |
| `Truncation.DigestLength` | main.go:137-145 | each selectable primitive (SHA-1, SHA-256, SHA-512) gives a digest of at least 19 bytes |
| `Truncation.Offset` | main.go:65 | the offset is the last byte's low nibble, a value in 0..15 |
| `Truncation.LowNibbleIsMod16` | main.go:65 | Go's `& 0x0f` on a byte is the byte modulo 16 |
| `Truncation.LongDigestCanTruncate` | main.go:65-80 | every digest of 19 or more bytes keeps all indexings `hash[offset..offset+3]` in bounds, whatever its last byte |
| `Truncation.ShortDigestCannotTruncate` | main.go:65-80 | a digest shorter than 19 bytes whose last byte is 0x0f would be indexed past its end |
| `Truncation.HashTruncation` | main.go:62-81 | the result lies in [0, 2^31 - 1] and equals the four bytes at the offset read big-endian with the sign bit cleared (modulo 2^31) |
| `Truncation.WordAt` | main.go:76-80 | the four bytes at an offset, read big-endian, are `b0*2^24 + b1*2^16 + b2*2^8 + b3` |
| `Truncation.SignBitCleared` | main.go:77 | masking the top byte with 0x7f is reducing the 32-bit word modulo 2^31 |
| `Truncation.MaskedWordIsArithmetic` | main.go:76-80 | Go's expression of masks, shifts by 24/16/8 and OR over the four bytes computes `(b0 % 128)*2^24 + b1*2^16 + b2*2^8 + b3` |
| `Truncation.Rfc4226Example` | main.go:62-81 | on the sample digest of RFC 4226 section 5.4 the offset is 10 and the result is 0x50ef7f19 = 1357872921 |
| `Decimal.Itoa` | main.go:118 | the rendering is a canonical numeral: non-empty, digits only, and it starts with '0' exactly when the value is 0 |
| `Decimal.ParseItoa` | main.go:118 | parsing the rendering of `n` gives `n` back |
| `Decimal.ItoaParse` | main.go:118 | rendering the value of a canonical numeral gives that numeral back, so `Itoa` and `ParseDecimal` are inverse |
| `Decimal.ItoaLength` | main.go:118 | the rendering has at most `k` characters exactly when `n < 10^k` |
| `Decimal.PaddedDecimal` | main.go:118 | the padded rendering has exactly `width` digits and parses back to `n` |
| `Decimal.PaddedDecimalAgrees` | main.go:118 | the padded rendering is the plain one with zeros in front, and the two are equal exactly when the plain one already has `width` characters |
| `Totp.Divisor` | main.go:111-114 | the divisor is at least 1 and equals `10^digits` for a non-negative digit count |
| `Totp.TimeCounter` | main.go:96 | the counter is the number of whole 30-second steps: `counter*30 <= t < (counter+1)*30` |
| `Totp.CodeValue` | main.go:102-115 | the value shown is below `10^digits` and below 2^31 |
| `Totp.TotpCode` | main.go:84-119 | `generateTOTP` as a function: a failed decode gives exactly `Err(e)` and only then an error; otherwise the code is a canonical numeral that parses back to `HashTruncation(hmac(alg, key, CounterBytes(now / 30))) % Divisor(digits)` |
| `Totp.GenerateTOTP` | main.go:84-119 | for digits <= 18 and a non-negative int64 time, the statement-by-statement method returns `TotpCode`; its divisor loop keeps `divisor == 10^i` |
| `Totp.DecodeErrorPropagates` | main.go:86-89 | a failed decode is returned unchanged, whatever the hash, digits, time or HMAC |
| `Totp.DecodeSuccessGivesCode` | main.go:86-118 | a successful decode always yields a code |
| `Totp.SameWindowSameCode` | main.go:96-99 | two times with the same `t / 30` give the same result |
| `Totp.CodeStableWithinWindow` | main.go:96 | the result can change from second `t` to `t + 1` only when `t` is the last second of a 30-second window |
| `Totp.CodeIsPlainNumeral` | main.go:111-118 | the code is the canonical numeral of the value, the value is below `10^digits`, and the code is never longer than `digits` (one character for `digits <= 1`). For `digits >= 2` it has exactly `digits` characters iff the value is at least `10^(digits-1)`, so it is not padded |
| `Totp.SameKeySameCode` | main.go:86-102 | the code depends on the secret only through the decoded key |
| `Totp.Rfc4226CodeExample` | main.go:102-118 | with the sample digest of RFC 4226 section 5.4 and six digits the code is "872921" |
| `Totp.PaddedTotpCode` | main.go:118 | the intended, zero-padded form of the result (not what the code returns): the same errors as `TotpCode`; otherwise only digits, exactly `digits` of them when `digits >= 1`, parsing back to the same code value |
| `Totp.PaddedCodeHasAllDigits` | main.go:118 | the zero-padded code has exactly `digits` digits and the same value as the returned code, and equals it exactly when the returned code already has `digits` characters; decode errors are the same |
| `Totp.UnpaddedCodeExample` | main.go:118 | for code value 7081804 with eight digits the code as written is "7081804" (7 characters), where the padded code is "07081804" |

## Left out

- `main` and `updateTOTP` (main.go:121-211): the Fyne window, selectors, button and label are presentation and are not modelled.
- The refresh goroutine (main.go:190-198) is not modelled. It sleeps, updates a floating-point progress bar and reads captured variables concurrently.
- `DecodeBase32` (main.go:32-34) is the parameter `decode`. It wraps the base-32 decoder of Go's library (RFC 4648 section 6), which is not part of this model.
- `GenerateHMAC` (main.go:38-45) is the parameter `hmac`, and only its digest length is assumed. HMAC (RFC 2104) and SHA-1/256/512 are library code. For this reason the end-to-end vectors of RFC 6238 Appendix B are not reproduced; only the truncation and formatting stages are checked on known values.
- `time.Now()` (main.go:96) is the parameter `now`.
- Negative times and intervals are excluded by `now: nat` and by the precondition of `ConvertTime`. Go's truncating division and arithmetic shift would apply there, and the program never produces such values.
- `digits > 18` is excluded by the precondition of `GenerateTOTP`, because `divisor *= 10` would overflow Go's 64-bit `int` there. The program only passes 6, 7 or 8 (main.go:153). Negative and zero digit counts are modelled: they leave the divisor at 1.
- Counter.ConvertTime: the loop uses `% 256` and `/ 256` where Go writes `& 0xff` and `>>= 8`. The two agree on the non-negative values the precondition allows, but their equivalence on 64-bit words is not proved.
- Truncation.HashTruncation: the function computes the word arithmetically. Go's masks, shifts and OR are related to this arithmetic by `MaskedWordIsArithmetic`, on 32-bit words. Go evaluates the expression on 64-bit `int`, and bits 31 to 63 are zero there.
- Decimal.Itoa: it covers non-negative values only. `strconv.Itoa` also renders negative numbers with a '-', but the code value is never negative.

## Findings

| source | as written | input that shows it | evidently intended | confidence | as-written member | corrected member |
|---|---|---|---|---|---|---|
| main.go:118 | `strconv.Itoa(totp)` renders the value without leading zeros, so a value below `10^(digits-1)` gives a code shorter than `digits` | SHA-1, 8 digits, T = 1111111109 (RFC 6238 Appendix B), code value 7081804: the code is "7081804" | the value zero-padded to `digits` characters, "07081804", as the reference code of RFC 4226 Appendix C and RFC 6238 Appendix A renders it and RFC 6238 Appendix B lists it | not executed; the padding gap is proved, and the Appendix B value is taken from the RFC | `Totp.UnpaddedCodeExample` | `Totp.PaddedCodeHasAllDigits` |

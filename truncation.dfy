/** Dynamic truncation of an HMAC digest (RFC 4226 section 5.3), as
    `HashTruncation` in main.go performs it. */
module Truncation {
  import opened Bytes

  /** The hash primitives the program offers: `sha1.New`, `sha256.New`, `sha512.New`. */
  datatype Algorithm = SHA1 | SHA256 | SHA512

  /** The size in bytes of an HMAC digest under each primitive. Every one of
      them leaves room for four bytes after the largest offset, 15. */
  function DigestLength(alg: Algorithm): (n: nat)
    ensures n >= 19
  {
    match alg
    case SHA1 => 20
    case SHA256 => 32
    case SHA512 => 64
  }

  /** The offset: the low-order 4 bits of the digest's last byte (`& 0x0f`). */
  function Offset(hash: seq<Byte>): (offset: nat)
    requires |hash| > 0
    ensures offset < 16
  {
    hash[|hash| - 1] % 16
  }

  /** `HashTruncation` indexes `hash[len(hash)-1]` and `hash[offset]` through
      `hash[offset+3]`; these are the digests for which none of those
      indexings is out of range (Go would panic otherwise). */
  predicate CanTruncate(hash: seq<Byte>)
  {
    |hash| > 0 && Offset(hash) + 4 <= |hash|
  }

  /** Every digest of at least 19 bytes, and so every digest of a supported
      primitive, can be truncated whatever its last byte. */
  lemma LongDigestCanTruncate(hash: seq<Byte>)
    requires |hash| >= 19
    ensures CanTruncate(hash)
  {
  }

  /** A short digest whose last byte asks for an offset past its end cannot
      be truncated: `CanTruncate` is exactly the bounds check, not a
      length threshold. */
  lemma ShortDigestCannotTruncate(hash: seq<Byte>)
    requires 0 < |hash| < 19 && hash[|hash| - 1] == 0x0f
    ensures !CanTruncate(hash)
  {
  }

  /** The 31-bit integer formed from the four bytes at the offset: the top
      byte masked with `0x7f`, shifted by 24, 16, 8 and 0 bits and OR-ed. */
  function HashTruncation(hash: seq<Byte>): (r: nat)
    requires CanTruncate(hash)
    ensures r < 0x8000_0000
    ensures r == BigEndian(hash[Offset(hash)..Offset(hash) + 4]) % 0x8000_0000
  {
    var offset := Offset(hash);
    WordAt(hash, offset);
    SignBitCleared(hash[offset], hash[offset + 1], hash[offset + 2], hash[offset + 3]);
    (hash[offset] as int % 0x80) * 0x100_0000 + hash[offset + 1] as int * 0x1_0000
      + hash[offset + 2] as int * 0x100 + hash[offset + 3] as int
  }

  /** The four bytes at `o`, read big-endian. */
  lemma WordAt(hash: seq<Byte>, o: nat)
    requires o + 4 <= |hash|
    ensures BigEndian(hash[o..o + 4])
         == hash[o] as int * 0x100_0000 + hash[o + 1] as int * 0x1_0000 + hash[o + 2] as int * 0x100 + hash[o + 3] as int
  {
    var w := hash[o..o + 4];
    assert BigEndian(w[..1]) == w[0] by {
      assert w[..1][..0] == [];
    }
    assert BigEndian(w[..2]) == w[0] as int * 0x100 + w[1] by {
      assert w[..2][..1] == w[..1];
    }
    assert BigEndian(w[..3]) == w[0] as int * 0x1_0000 + w[1] as int * 0x100 + w[2] by {
      assert w[..3][..2] == w[..2];
    }
    assert w[..4][..3] == w[..3];
    assert w[..4] == w;
  }

  /** Clearing bit 31 of a word is reducing it modulo 2^31. */
  lemma SignBitCleared(a: nat, b: nat, c: nat, d: nat)
    requires a < 256 && b < 256 && c < 256 && d < 256
    ensures (a * 0x100_0000 + b * 0x1_0000 + c * 0x100 + d) % 0x8000_0000
         == (a % 0x80) * 0x100_0000 + b * 0x1_0000 + c * 0x100 + d
  {
    var low := (a % 0x80) * 0x100_0000 + b * 0x1_0000 + c * 0x100 + d;
    DivUnique(a * 0x100_0000 + b * 0x1_0000 + c * 0x100 + d, 0x8000_0000, a / 0x80, low);
  }

  /** Go's masks, shifts and OR, with the bytes as Go's unsigned 8-bit
      values, compute the number `HashTruncation` computes: the four bit
      ranges do not overlap, so OR is addition, and `& 0x7f` is `% 128` on
      a byte. Go evaluates the expression on 64-bit `int`s; every bit it
      can set lies in the low 31, so 32 bits show the same value. */
  lemma MaskedWordIsArithmetic(a: bv8, b: bv8, c: bv8, d: bv8)
    ensures ((((a as bv32) & 0x7f) << 24) | (((b as bv32) & 0xff) << 16)
             | (((c as bv32) & 0xff) << 8) | ((d as bv32) & 0xff)) as int
         == (a as int % 0x80) * 0x100_0000 + b as int * 0x1_0000 + c as int * 0x100 + d as int
  {
  }

  /** `& 0x0f` on a byte is `% 16`: `Offset` is Go's offset. */
  lemma LowNibbleIsMod16(v: bv8)
    ensures (v & 0x0f) as int == v as int % 16
  {
  }

  /** The sample digest of section 5.4 of RFC 4226, shown there as an
      example `hmac_result` to walk through dynamic truncation. */
  const Rfc4226Digest: seq<Byte> :=
    [0x1f, 0x86, 0x98, 0x69, 0x0e, 0x02, 0xca, 0x16, 0x61, 0x85,
     0x50, 0xef, 0x7f, 0x19, 0xda, 0x8e, 0x94, 0x5b, 0x55, 0x5a]

  /** On that digest the offset is 10 and the truncated value 0x50ef7f19. */
  lemma Rfc4226Example()
    ensures CanTruncate(Rfc4226Digest)
    ensures Offset(Rfc4226Digest) == 10
    ensures HashTruncation(Rfc4226Digest) == 0x50ef7f19 == 1357872921
  {
  }
}

/** The 4-bit coefficient compression of src/utils.rs: `poly_compress` packs
    each coefficient into a nibble, two per byte, and `poly_decompress` maps
    every nibble back to a coefficient in [0, Q). */
module Compression {
  import opened Params
  import opened RustArith
  import opened Polynomial

  /** Number of bytes one compressed polynomial occupies: N nibbles. */
  const COMPRESSED_BYTES: nat := N / 2

  /** u32 arithmetic of a release build: keep the low 32 bits. */
  function U32(x: int): (r: int)
    ensures 0 <= r < 0x1_0000_0000
    ensures 0 <= x < 0x1_0000_0000 ==> r == x
  {
    x % 0x1_0000_0000
  }

  /** One nibble of `poly_compress`:
      `((((c as u32) << 4) + Q / 2) / Q & 0xF) as u8`. For an i16 input the
      three wrapping u32 steps amount to one: 16 c + Q / 2 taken modulo 2^32
      (CompressWrapping). */
  function CompressCoeff(c: i16): (t: u8)
    ensures t < 16
  {
    var x := 16 * c + Q / 2;
    (if x >= 0 then x else x + 0x1_0000_0000) / Q % 16
  }

  /** CompressCoeff is the source expression with every u32 operation
      wrapping: the cast of a negative i16, the shift by 4 and the addition. */
  lemma CompressWrapping(c: i16)
    ensures CompressCoeff(c) == U32(U32(U32(c) * 16) + Q / 2) / Q % 16
  {
    if c >= 0 {
      assert U32(c) * 16 < 0x1_0000_0000;
    } else {
      assert U32(c) == c + 0x1_0000_0000;
      assert U32(U32(c) * 16) == 16 * c + 0x1_0000_0000;
    }
  }

  /** One coefficient of `poly_decompress`: `((t as u32) * Q + 8) >> 4`. */
  function DecompressNibble(t: int): (c: i16)
    requires 0 <= t < 16
    ensures 0 <= c <= 3121
  {
    (t * Q + 8) / 16
  }

  /** `t0 | (t1 << 4)` for two nibbles: the bits do not overlap, so the OR
      is a sum and the u8 shift loses nothing. */
  function Pack(t0: int, t1: int): u8
    requires 0 <= t0 < 16 && 0 <= t1 < 16
  {
    t0 + 16 * t1
  }

  /** The low and high nibble of a packed byte give back the two nibbles. */
  lemma PackSplit(t0: int, t1: int)
    requires 0 <= t0 < 16 && 0 <= t1 < 16
    ensures Pack(t0, t1) % 16 == t0 && Pack(t0, t1) / 16 == t1
  {
  }

  /** Pack is the source's `t0 | (t1 << 4)` on two u8 nibbles. */
  lemma PackBits(t0: byte, t1: byte)
    requires t0 < 16 && t1 < 16
    ensures (t0 | (t1 << 4)) as int == Pack(t0 as int, t1 as int)
  {
  }

  /** The nibble split of `poly_decompress`, `b & 0x0F` and `b >> 4`, is the
      remainder and quotient by 16 that DecompressSpec and PolyDecompress use. */
  lemma NibbleBits(b: byte)
    ensures (b & 0x0F) as int == b as int % 16
    ensures (b >> 4) as int == b as int / 16
  {
  }

  /** DecompressNibble is the source's u32 expression `(t * Q + 8) >> 4`,
      which does not overflow for a nibble. */
  lemma DecompressShift(t: bv32)
    requires t < 16
    ensures ((t * 3329 + 8) >> 4) as int == DecompressNibble(t as int)
  {
  }

  /** The values `t[j]` of `poly_compress`, for every coefficient in order. */
  function Nibbles(c: seq<i16>): (ts: seq<u8>)
    ensures |ts| == |c|
    ensures forall i :: 0 <= i < |ts| ==> ts[i] < 16
  {
    if |c| == 0 then [] else [CompressCoeff(c[0])] + Nibbles(c[1..])
  }

  /** Nibble i is the compression of coefficient i. */
  lemma {:induction false} NibblesAt(c: seq<i16>, i: int)
    requires 0 <= i < |c|
    ensures Nibbles(c)[i] == CompressCoeff(c[i])
  {
    if i > 0 {
      NibblesAt(c[1..], i - 1);
    }
  }

  /** Pairs of nibbles, in order, packed into one byte each, the first of
      every pair in the low nibble. */
  function PackPairs(ts: seq<u8>): (r: seq<u8>)
    requires |ts| % 2 == 0 && forall i :: 0 <= i < |ts| ==> ts[i] < 16
    ensures 2 * |r| == |ts|
  {
    if |ts| == 0 then [] else [Pack(ts[0], ts[1])] + PackPairs(ts[2..])
  }

  /** Byte k of PackPairs holds nibbles 2k and 2k + 1. */
  lemma {:induction false} PackPairsAt(ts: seq<u8>, k: int)
    requires |ts| % 2 == 0 && forall i :: 0 <= i < |ts| ==> ts[i] < 16
    requires 0 <= k && 2 * k < |ts|
    ensures PackPairs(ts)[k] == Pack(ts[2 * k], ts[2 * k + 1])
  {
    if k > 0 {
      PackPairsAt(ts[2..], k - 1);
      assert ts[2..][2 * (k - 1)] == ts[2 * k];
      assert ts[2..][2 * (k - 1) + 1] == ts[2 * k + 1];
    }
  }

  /** PackPairs is the only sequence whose every byte packs the pair of
      nibbles at its index. */
  lemma PackPairsUnique(ts: seq<u8>, s: seq<u8>)
    requires |ts| % 2 == 0 && forall i :: 0 <= i < |ts| ==> ts[i] < 16
    requires 2 * |s| == |ts|
    requires forall k :: 0 <= k < |s| ==> s[k] == Pack(ts[2 * k], ts[2 * k + 1])
    ensures s == PackPairs(ts)
  {
    forall k | 0 <= k < |s|
      ensures s[k] == PackPairs(ts)[k]
    {
      PackPairsAt(ts, k);
    }
  }

  /** `poly_compress(poly)` as a value: the nibbles of the coefficients,
      packed two to a byte. */
  function CompressSpec(c: seq<i16>): (r: seq<u8>)
    requires |c| % 2 == 0
    ensures 2 * |r| == |c|
  {
    PackPairs(Nibbles(c))
  }

  /** Byte k of the compressed form packs coefficient 2k in its low nibble
      and coefficient 2k + 1 in its high nibble. */
  lemma CompressSpecAt(c: seq<i16>, k: int)
    requires |c| % 2 == 0 && 0 <= k && 2 * k < |c|
    ensures CompressSpec(c)[k] == Pack(CompressCoeff(c[2 * k]), CompressCoeff(c[2 * k + 1]))
  {
    PackPairsAt(Nibbles(c), k);
    NibblesAt(c, 2 * k);
    NibblesAt(c, 2 * k + 1);
  }

  /** `poly_decompress(buf)`: coefficient 2i comes from the low nibble
      `buf[i] & 0x0F` and 2i + 1 from the high nibble `buf[i] >> 4`. */
  function DecompressSpec(buf: seq<u8>): (r: seq<i16>)
    requires |buf| >= COMPRESSED_BYTES
    ensures |r| == N
  {
    seq(N, k requires 0 <= k < N =>
      DecompressNibble(if k % 2 == 0 then buf[k / 2] % 16 else buf[k / 2] / 16))
  }

  /** On a canonical coefficient no u32 operation wraps and the nibble is the
      rounding of 16 c / Q, reduced modulo 16: Compress with d = 4 of
      ML-KEM. */
  lemma CompressCanonical(c: i16)
    requires 0 <= c < Q
    ensures CompressCoeff(c) == ((16 * c + Q / 2) / Q) % 16
  {
  }

  /** A negative coefficient goes through `as u32` and wraps: -200 and its
      canonical representative Q - 200 compress to different nibbles, so the
      result is not a function of the residue modulo Q. */
  lemma CompressNegativeWraps()
    ensures CompressCoeff(-200) == 6
    ensures CompressCoeff(-200 + Q) == 15
  {
    assert 0xFFFF_FA00 / Q == 1290166;
  }

  /** Compressing a decompressed nibble gives the nibble back. */
  lemma NibbleRoundTrip(t: int)
    requires 0 <= t < 16
    ensures CompressCoeff(DecompressNibble(t)) == t
  {
    CompressCanonical(DecompressNibble(t));
    if t == 0 {} else if t == 1 {} else if t == 2 {} else if t == 3 {}
    else if t == 4 {} else if t == 5 {} else if t == 6 {} else if t == 7 {}
    else if t == 8 {} else if t == 9 {} else if t == 10 {} else if t == 11 {}
    else if t == 12 {} else if t == 13 {} else if t == 14 {} else {}
  }

  /** `poly_compress` after `poly_decompress` restores the first
      COMPRESSED_BYTES bytes of the buffer. */
  lemma DecompressThenCompress(buf: seq<u8>)
    requires |buf| >= COMPRESSED_BYTES
    ensures CompressSpec(DecompressSpec(buf)) == buf[..COMPRESSED_BYTES]
  {
    var c := DecompressSpec(buf);
    forall k | 0 <= k < COMPRESSED_BYTES
      ensures CompressSpec(c)[k] == buf[k]
    {
      var b := buf[k];
      CompressSpecAt(c, k);
      PackSplit(b % 16, b / 16);
      assert (2 * k) / 2 == k && (2 * k) % 2 == 0;
      assert (2 * k + 1) / 2 == k && (2 * k + 1) % 2 == 1;
      NibbleRoundTrip(b % 16);
      NibbleRoundTrip(b / 16);
      assert c[2 * k] == DecompressNibble(b % 16);
      assert c[2 * k + 1] == DecompressNibble(b / 16);
    }
  }

  /** Decompression yields canonical coefficients. */
  lemma DecompressCanonical(buf: seq<u8>)
    requires |buf| >= COMPRESSED_BYTES
    ensures Canonical(DecompressSpec(buf))
  {
  }

  /** The rounding error of a canonical coefficient: after compression and
      decompression it comes back within 104 of itself modulo Q (104 is Q /
      32 rounded), wrapping past Q to 0 for the largest coefficients. */
  lemma CompressError(c: i16)
    requires 0 <= c < Q
    ensures var e := c - DecompressNibble(CompressCoeff(c));
      -104 <= e <= 104 || -104 <= e - Q <= 104
  {
    CompressCanonical(c);
    var u := (16 * c + Q / 2) / Q;
    assert u <= 16;
    if u == 16 {
      assert CompressCoeff(c) == 0;
    } else {
      assert CompressCoeff(c) == u;
      assert u * Q <= 16 * c + 1664 < u * Q + Q;
    }
  }

  /** `poly_compress(poly, buf)`: the first COMPRESSED_BYTES bytes of buf
      receive the packed nibbles, the rest of buf is left alone. The
      polynomial is only read, through a shared borrow, so it is passed as
      the sequence of its coefficients. */
  method PolyCompress(coeffs: seq<i16>, buf: array<u8>)
    requires |coeffs| == N && buf.Length >= COMPRESSED_BYTES
    modifies buf
    ensures buf[..COMPRESSED_BYTES] == CompressSpec(coeffs)
    ensures forall m :: COMPRESSED_BYTES <= m < buf.Length ==> buf[m] == old(buf[m])
  {
    ghost var ts := Nibbles(coeffs);
    var k := 0;
    for i := 0 to N / 8
      invariant k == 4 * i
      invariant forall m :: 0 <= m < k ==> buf[m] == Pack(ts[2 * m], ts[2 * m + 1])
      invariant forall m :: COMPRESSED_BYTES <= m < buf.Length ==> buf[m] == old(buf[m])
    {
      CompressGroup(coeffs, ts, buf, i);
      k := k + 4;
    }
    PackPairsUnique(ts, buf[..COMPRESSED_BYTES]);
  }

  /** One pass of the outer loop of `poly_compress`: eight coefficients are
      compressed (CompressEight) and packed into bytes 4i to 4i + 3 of buf. */
  method CompressGroup(coeffs: seq<i16>, ghost ts: seq<u8>, buf: array<u8>, i: int)
    requires |coeffs| == N && ts == Nibbles(coeffs)
    requires 0 <= i < N / 8 && buf.Length >= COMPRESSED_BYTES
    modifies buf
    ensures forall m :: 0 <= m < buf.Length ==>
      buf[m] == if 4 * i <= m < 4 * i + 4 then Pack(ts[2 * m], ts[2 * m + 1]) else old(buf[m])
  {
    var t := CompressEight(coeffs, ts, i);
    var k := 4 * i;
    buf[k] := Pack(t[0], t[1]);
    buf[k + 1] := Pack(t[2], t[3]);
    buf[k + 2] := Pack(t[4], t[5]);
    buf[k + 3] := Pack(t[6], t[7]);
  }

  /** The inner loop of `poly_compress`: the scratch array `t`, a local value
      of eight bytes, receives the nibbles of coefficients 8i to 8i + 7. */
  method CompressEight(coeffs: seq<i16>, ghost ts: seq<u8>, i: int) returns (t: seq<u8>)
    requires |coeffs| == N && ts == Nibbles(coeffs) && 0 <= i < N / 8
    ensures |t| == 8 && forall m :: 0 <= m < 8 ==> t[m] == ts[8 * i + m]
  {
    t := [0, 0, 0, 0, 0, 0, 0, 0];
    for j := 0 to 8
      invariant |t| == 8
      invariant forall m :: 0 <= m < j ==> t[m] == ts[8 * i + m]
    {
      NibblesAt(coeffs, 8 * i + j);
      t := t[j := CompressCoeff(coeffs[8 * i + j])];
    }
  }

  /** `poly_decompress(buf, poly)`: every coefficient replaced by the
      decompressed nibble. */
  method PolyDecompress(buf: seq<u8>, poly: Poly)
    requires poly.Valid() && |buf| >= COMPRESSED_BYTES
    modifies poly.coeffs
    ensures poly.coeffs[..] == DecompressSpec(buf)
  {
    ghost var want := DecompressSpec(buf);
    var k := 0;
    for i := 0 to N / 2
      invariant k == i
      invariant forall m :: 0 <= m < 2 * i ==> poly.coeffs[m] == want[m]
    {
      var t0 := buf[k] % 16;
      var t1 := buf[k] / 16;
      k := k + 1;
      assert (2 * i) / 2 == i && (2 * i) % 2 == 0 && (2 * i + 1) / 2 == i && (2 * i + 1) % 2 == 1;
      poly.coeffs[2 * i] := DecompressNibble(t0);
      poly.coeffs[2 * i + 1] := DecompressNibble(t1);
    }
  }
}

/** The 13-bit polynomial encoding of src/utils.rs: `poly_to_bytes` writes a
    polynomial as N / 8 rounds of 13 bytes, each round holding eight
    coefficients of 13 bits, and `poly_from_bytes` reads it back. The bit
    operators act on the two's-complement pattern of each i16, so the rounds
    are written over `bv16` and the patterns are converted at the edges. */
module Serialization {
  import opened Params
  import opened RustArith
  import opened Polynomial

  /** Bytes one encoded polynomial occupies: N / 8 rounds of 13. */
  const ENCODED_BYTES: nat := 13 * (N / 8)

  /** The `[i16; 8]` a round is made from. */
  type Eight = p: seq<i16> | |p| == 8 witness [0, 0, 0, 0, 0, 0, 0, 0]

  /** The `[u8; 13]` a round is written to. */
  type Thirteen = b: seq<byte> | |b| == 13 witness [0, 0, 0, 0, 0, 0, 0, 0, 0, 0, 0, 0, 0]

  // ---------------------------------------------------------------------
  // i16 values and their 16-bit patterns
  // ---------------------------------------------------------------------

  /** The i16 read as the unsigned number with the same 16 bits. */
  function Unsigned(x: i16): (u: int)
    ensures 0 <= u < 0x1_0000
    ensures x >= 0 ==> u == x
  {
    if x >= 0 then x else x as int + 0x1_0000
  }

  function HighByte(x: i16): byte
  {
    (Unsigned(x) / 256) as byte
  }

  function LowByte(x: i16): byte
  {
    (Unsigned(x) % 256) as byte
  }

  /** A pattern from its high and low byte. */
  function Join(h: byte, l: byte): bv16
  {
    ((h as bv16) << 8) | (l as bv16)
  }

  function Hi(b: bv16): byte
  {
    (b >> 8) as byte
  }

  function Lo(b: bv16): byte
  {
    (b & 0xff) as byte
  }

  /** The two's-complement pattern of an i16: the bits `&`, `|`, `<<` and
      `>>` act on. */
  function Bits(x: i16): bv16
  {
    Join(HighByte(x), LowByte(x))
  }

  /** The i16 a 16-bit pattern stands for. */
  function Value(b: bv16): i16
  {
    var u := 256 * (Hi(b) as int) + Lo(b) as int;
    if Hi(b) < 0x80 then u else u - 0x1_0000
  }

  lemma SplitJoin(h: byte, l: byte)
    ensures Hi(Join(h, l)) == h && Lo(Join(h, l)) == l
  {
  }

  lemma JoinSplit(b: bv16)
    ensures Join(Hi(b), Lo(b)) == b
  {
  }

  lemma ByteOf(n: int, h: byte)
    requires n == h as int
    ensures n as byte == h
  {
  }

  /** Reading the pattern of x gives x back. */
  lemma BitsValue(x: i16)
    ensures Value(Bits(x)) == x
  {
    var u := Unsigned(x);
    ByteValue(u / 256);
    ByteValue(u % 256);
    SplitJoin(HighByte(x), LowByte(x));
  }

  /** Different patterns stand for different values. */
  lemma ValueInjective(b1: bv16, b2: bv16)
    requires Value(b1) == Value(b2)
    ensures b1 == b2
  {
    assert (Hi(b1) < 0x80) == (Hi(b2) < 0x80);
    DigitsUnique(Hi(b1) as int, Lo(b1) as int, Hi(b2) as int, Lo(b2) as int);
    ByteOf(Hi(b1) as int, Hi(b2));
    ByteOf(Lo(b1) as int, Lo(b2));
    ByteOf(Hi(b1) as int, Hi(b1));
    ByteOf(Lo(b1) as int, Lo(b1));
    JoinSplit(b1);
    JoinSplit(b2);
  }

  /** Two base-256 digits are determined by the number they write. */
  lemma DigitsUnique(h1: int, l1: int, h2: int, l2: int)
    requires 0 <= l1 < 256 && 0 <= l2 < 256 && 256 * h1 + l1 == 256 * h2 + l2
    ensures h1 == h2 && l1 == l2
  {
  }

  /** The pattern of the value of b is b: Bits and Value are inverse. */
  lemma ValueBits(b: bv16)
    ensures Bits(Value(b)) == b
  {
    BitsValue(Value(b));
    ValueInjective(Bits(Value(b)), b);
  }

  /** Every coefficient in [0, 2^13). */
  predicate ThirteenBit(c: seq<i16>)
  {
    forall i :: 0 <= i < |c| ==> 0 <= c[i] < 0x2000
  }

  /** A pattern below 2^13 is exactly a value in [0, 2^13). */
  lemma ThirteenBits(b: bv16)
    ensures 0 <= Value(b) < 0x2000 <==> b < 0x2000
  {
    JoinSplit(b);
  }

  // ---------------------------------------------------------------------
  // One round: eight coefficients, thirteen bytes
  // ---------------------------------------------------------------------

  /** i16 `x >> k`: the vacated high bits copy the sign bit. */
  function Asr(x: bv16, k: bv16): bv16
    requires k < 16
  {
    if x & 0x8000 == 0 then x >> k else !((!x) >> k)
  }

  /** `as u8`: the low eight bits. */
  function Low(x: bv16): byte
  {
    (x & 0xff) as byte
  }

  /** `b as i16` for a u8: zero extension. */
  function Wide(b: byte): bv16
  {
    b as bv16
  }

  /** Byte m of `poly_tobytes_round`, on the patterns of its eight
      coefficients, as the source computes r[m]; `<<` on i16 drops the bits
      shifted past bit 15. */
  function RoundByte(p: seq<bv16>, m: nat): byte
    requires |p| == 8 && m < 13
  {
    if m == 0 then Low(p[0] & 0xff)
    else if m == 1 then Low(Asr(p[0], 8) | (p[1] << 5))
    else if m == 2 then Low(Asr(p[1], 3) & 0xff)
    else if m == 3 then Low(Asr(p[1], 11) | (p[2] << 2))
    else if m == 4 then Low(Asr(p[2], 6) | (p[3] << 7))
    else if m == 5 then Low(Asr(p[3], 1) & 0xff)
    else if m == 6 then Low(Asr(p[3], 9) | (p[4] << 4))
    else if m == 7 then Low(Asr(p[4], 4) & 0xff)
    else if m == 8 then Low(Asr(p[4], 12) | (p[5] << 1))
    else if m == 9 then Low(Asr(p[5], 7) | (p[6] << 6))
    else if m == 10 then Low(Asr(p[6], 2) & 0xff)
    else if m == 11 then Low(Asr(p[6], 10) | (p[7] << 3))
    else Low(Asr(p[7], 5))
  }

  /** Coefficient k of `poly_frombytes_round`, as the source computes r[k],
      as a 16-bit pattern; it never has more than 13 bits. */
  function RoundWord(b: seq<byte>, k: nat): (w: bv16)
    requires |b| == 13 && k < 8
    ensures w < 0x2000
  {
    if k == 0 then Wide(b[0]) | ((Wide(b[1]) & 0x1f) << 8)
    else if k == 1 then Wide(b[1] >> 5) | (Wide(b[2]) << 3) | ((Wide(b[3]) & 0x03) << 11)
    else if k == 2 then Wide(b[3] >> 2) | ((Wide(b[4]) & 0x7f) << 6)
    else if k == 3 then Wide(b[4] >> 7) | (Wide(b[5]) << 1) | ((Wide(b[6]) & 0x0f) << 9)
    else if k == 4 then Wide(b[6] >> 4) | (Wide(b[7]) << 4) | ((Wide(b[8]) & 0x01) << 12)
    else if k == 5 then Wide(b[8] >> 1) | ((Wide(b[9]) & 0x3f) << 7)
    else if k == 6 then Wide(b[9] >> 6) | (Wide(b[10]) << 2) | ((Wide(b[11]) & 0x07) << 10)
    else Wide(b[11] >> 3) | ((Wide(b[12]) & 0xff) << 5)
  }

  /** The first m bytes of a round, in order. */
  function RoundBytes(p: seq<bv16>, m: nat): (r: seq<byte>)
    requires |p| == 8 && m <= 13
    ensures |r| == m
  {
    if m == 0 then [] else RoundBytes(p, m - 1) + [RoundByte(p, m - 1)]
  }

  /** The first k patterns a round decodes to, in order. */
  function RoundWords(b: seq<byte>, k: nat): (r: seq<bv16>)
    requires |b| == 13 && k <= 8
    ensures |r| == k && forall i :: 0 <= i < k ==> r[i] < 0x2000
  {
    if k == 0 then [] else RoundWords(b, k - 1) + [RoundWord(b, k - 1)]
  }

  lemma {:induction false} RoundBytesAt(p: seq<bv16>, m: nat, i: nat)
    requires |p| == 8 && i < m <= 13
    ensures RoundBytes(p, m)[i] == RoundByte(p, i)
  {
    if i < m - 1 {
      RoundBytesAt(p, m - 1, i);
    }
  }

  lemma {:induction false} RoundWordsAt(b: seq<byte>, k: nat, i: nat)
    requires |b| == 13 && i < k <= 8
    ensures RoundWords(b, k)[i] == RoundWord(b, i)
  {
    if i < k - 1 {
      RoundWordsAt(b, k - 1, i);
    }
  }

  /** `poly_tobytes_round` on the patterns of its eight coefficients. */
  function ToRoundBits(p: seq<bv16>): (r: seq<byte>)
    requires |p| == 8
    ensures |r| == 13
  {
    RoundBytes(p, 13)
  }

  /** `poly_frombytes_round`, as patterns of at most 13 bits. */
  function FromRoundBits(b: seq<byte>): (r: seq<bv16>)
    requires |b| == 13
    ensures |r| == 8 && forall k :: 0 <= k < 8 ==> r[k] < 0x2000
  {
    RoundWords(b, 8)
  }

  lemma ToRoundBitsAt(p: seq<bv16>)
    requires |p| == 8
    ensures forall m :: 0 <= m < 13 ==> ToRoundBits(p)[m] == RoundByte(p, m)
  {
    forall m | 0 <= m < 13 {
      RoundBytesAt(p, 13, m);
    }
  }

  lemma FromRoundBitsAt(b: seq<byte>)
    requires |b| == 13
    ensures forall k :: 0 <= k < 8 ==> FromRoundBits(b)[k] == RoundWord(b, k)
  {
    forall k | 0 <= k < 8 {
      RoundWordsAt(b, 8, k);
    }
  }

  /** Coefficient k is rebuilt from the bytes its 13 bits were spread over. */
  lemma RoundTripWord(p: seq<bv16>, b: seq<byte>, k: nat)
    requires |p| == 8 && forall i :: 0 <= i < 8 ==> p[i] < 0x2000
    requires |b| == 13 && forall m :: 0 <= m < 13 ==> b[m] == RoundByte(p, m)
    requires k < 8
    ensures RoundWord(b, k) == p[k]
  {
    if k == 0 {
      RoundTripWord0(p, b);
    } else if k == 1 {
      RoundTripWord1(p, b);
    } else if k == 2 {
      RoundTripWord2(p, b);
    } else if k == 3 {
      RoundTripWord3(p, b);
    } else if k == 4 {
      RoundTripWord4(p, b);
    } else if k == 5 {
      RoundTripWord5(p, b);
    } else if k == 6 {
      RoundTripWord6(p, b);
    } else {
      RoundTripWord7(p, b);
    }
  }

  lemma RoundTripWord0(p: seq<bv16>, b: seq<byte>)
    requires |p| == 8 && forall i :: 0 <= i < 8 ==> p[i] < 0x2000
    requires |b| == 13 && forall m :: 0 <= m < 13 ==> b[m] == RoundByte(p, m)
    ensures RoundWord(b, 0) == p[0]
  {
  }

  lemma RoundTripWord1(p: seq<bv16>, b: seq<byte>)
    requires |p| == 8 && forall i :: 0 <= i < 8 ==> p[i] < 0x2000
    requires |b| == 13 && forall m :: 0 <= m < 13 ==> b[m] == RoundByte(p, m)
    ensures RoundWord(b, 1) == p[1]
  {
  }

  lemma RoundTripWord2(p: seq<bv16>, b: seq<byte>)
    requires |p| == 8 && forall i :: 0 <= i < 8 ==> p[i] < 0x2000
    requires |b| == 13 && forall m :: 0 <= m < 13 ==> b[m] == RoundByte(p, m)
    ensures RoundWord(b, 2) == p[2]
  {
  }

  lemma RoundTripWord3(p: seq<bv16>, b: seq<byte>)
    requires |p| == 8 && forall i :: 0 <= i < 8 ==> p[i] < 0x2000
    requires |b| == 13 && forall m :: 0 <= m < 13 ==> b[m] == RoundByte(p, m)
    ensures RoundWord(b, 3) == p[3]
  {
  }

  lemma RoundTripWord4(p: seq<bv16>, b: seq<byte>)
    requires |p| == 8 && forall i :: 0 <= i < 8 ==> p[i] < 0x2000
    requires |b| == 13 && forall m :: 0 <= m < 13 ==> b[m] == RoundByte(p, m)
    ensures RoundWord(b, 4) == p[4]
  {
  }

  lemma RoundTripWord5(p: seq<bv16>, b: seq<byte>)
    requires |p| == 8 && forall i :: 0 <= i < 8 ==> p[i] < 0x2000
    requires |b| == 13 && forall m :: 0 <= m < 13 ==> b[m] == RoundByte(p, m)
    ensures RoundWord(b, 5) == p[5]
  {
  }

  lemma RoundTripWord6(p: seq<bv16>, b: seq<byte>)
    requires |p| == 8 && forall i :: 0 <= i < 8 ==> p[i] < 0x2000
    requires |b| == 13 && forall m :: 0 <= m < 13 ==> b[m] == RoundByte(p, m)
    ensures RoundWord(b, 6) == p[6]
  {
  }

  lemma RoundTripWord7(p: seq<bv16>, b: seq<byte>)
    requires |p| == 8 && forall i :: 0 <= i < 8 ==> p[i] < 0x2000
    requires |b| == 13 && forall m :: 0 <= m < 13 ==> b[m] == RoundByte(p, m)
    ensures RoundWord(b, 7) == p[7]
  {
  }

  /** Byte m is rebuilt from the coefficients its bits came from. */
  lemma RoundTripByte(b: seq<byte>, p: seq<bv16>, m: nat)
    requires |b| == 13
    requires |p| == 8 && forall k :: 0 <= k < 8 ==> p[k] == RoundWord(b, k)
    requires m < 13
    ensures RoundByte(p, m) == b[m]
  {
  }

  /** Eight 13-bit patterns survive a round: decode after encode is the
      identity. */
  lemma RoundTripBits(p: seq<bv16>)
    requires |p| == 8 && forall k :: 0 <= k < 8 ==> p[k] < 0x2000
    ensures FromRoundBits(ToRoundBits(p)) == p
  {
    var b := ToRoundBits(p);
    ToRoundBitsAt(p);
    FromRoundBitsAt(b);
    forall k | 0 <= k < 8
      ensures FromRoundBits(b)[k] == p[k]
    {
      RoundTripWord(p, b, k);
    }
  }

  /** Thirteen bytes survive a round: encode after decode is the identity,
      so every byte string is the encoding of some round. */
  lemma RoundTripBytes(b: seq<byte>)
    requires |b| == 13
    ensures ToRoundBits(FromRoundBits(b)) == b
  {
    var p := FromRoundBits(b);
    FromRoundBitsAt(b);
    ToRoundBitsAt(p);
    forall m | 0 <= m < 13
      ensures ToRoundBits(p)[m] == b[m]
    {
      RoundTripByte(b, p, m);
    }
  }

  /** `poly_tobytes_round(p)`. */
  function ToRound(p: Eight): Thirteen
  {
    ToRoundBits(Patterns(p))
  }

  /** The patterns of a sequence of i16, in order. */
  function Patterns(p: seq<i16>): (r: seq<bv16>)
    ensures |r| == |p|
  {
    if p == [] then [] else [Bits(p[0])] + Patterns(p[1..])
  }

  lemma {:induction false} PatternsAt(p: seq<i16>, k: nat)
    requires k < |p|
    ensures Patterns(p)[k] == Bits(p[k])
  {
    if k > 0 {
      PatternsAt(p[1..], k - 1);
    }
  }

  /** The values of a sequence of patterns of at most 13 bits, in order:
      every one is in [0, 2^13). */
  function Values(w: seq<bv16>): (r: seq<i16>)
    requires forall k :: 0 <= k < |w| ==> w[k] < 0x2000
    ensures |r| == |w| && ThirteenBit(r)
  {
    if w == [] then [] else [ThirteenBitValue(w[0])] + Values(w[1..])
  }

  lemma {:induction false} ValuesAt(w: seq<bv16>, k: nat)
    requires forall k :: 0 <= k < |w| ==> w[k] < 0x2000
    requires k < |w|
    ensures Values(w)[k] == Value(w[k])
  {
    if k > 0 {
      ValuesAt(w[1..], k - 1);
    }
  }

  function ThirteenBitValue(w: bv16): (x: i16)
    requires w < 0x2000
    ensures 0 <= x < 0x2000 && x == Value(w)
  {
    ThirteenBits(w);
    Value(w)
  }

  /** `poly_frombytes_round(p)`: eight coefficients, each in [0, 2^13). */
  function FromRound(b: Thirteen): (r: Eight)
    ensures ThirteenBit(r)
  {
    Values(FromRoundBits(b))
  }

  /** Eight coefficients in [0, 2^13) are decoded from their round. */
  lemma RoundTrip(p: Eight)
    requires ThirteenBit(p)
    ensures FromRound(ToRound(p)) == p
  {
    var w := Patterns(p);
    forall k | 0 <= k < 8
      ensures w[k] < 0x2000 && Value(w[k]) == p[k]
    {
      PatternsAt(p, k);
      BitsValue(p[k]);
      ThirteenBits(w[k]);
    }
    RoundTripBits(w);
    forall k | 0 <= k < 8
      ensures FromRound(ToRound(p))[k] == p[k]
    {
      ValuesAt(w, k);
    }
  }

  /** Thirteen bytes are re-encoded from the coefficients they decode to. */
  lemma RoundTripEncoded(b: Thirteen)
    ensures ToRound(FromRound(b)) == b
  {
    var w := FromRoundBits(b);
    forall k | 0 <= k < 8
      ensures Patterns(FromRound(b))[k] == w[k]
    {
      PatternsAt(FromRound(b), k);
      ValuesAt(w, k);
      ValueBits(w[k]);
    }
    assert Patterns(FromRound(b)) == w;
    RoundTripBytes(b);
  }

  /** Outside [0, 2^13) the encoding is lossy and not even local: the sign
      bits of a negative coefficient, shifted right by the arithmetic `>>`,
      are OR-ed into the bits of its neighbour. In a round whose second
      coefficient is -1 and whose third and fourth are 0, the third decodes
      as 63, not 0. */
  lemma NegativeSpills(p: Eight)
    requires p[1] == -1 && p[2] == 0 && p[3] == 0
    ensures FromRound(ToRound(p))[2] == 63
  {
    var b := ToRound(p);
    SpilledBytes(p);
    var w := FromRoundBits(b);
    RoundWordsAt(b, 8, 2);
    assert w[2] == 63;
    ValuesAt(w, 2);
    ThirteenBits(w[2]);
  }

  /** The sign bits of the second coefficient fill byte 3, which the third
      coefficient shares. */
  lemma SpilledBytes(p: Eight)
    requires p[1] == -1 && p[2] == 0 && p[3] == 0
    ensures ToRound(p)[3] == 0xff && ToRound(p)[4] == 0
  {
    var q := Patterns(p);
    PatternsAt(p, 1);
    PatternsAt(p, 2);
    PatternsAt(p, 3);
    assert q[1] == 0xffff && q[2] == 0 && q[3] == 0;
    RoundBytesAt(q, 13, 3);
    RoundBytesAt(q, 13, 4);
  }

  // ---------------------------------------------------------------------
  // Whole polynomials
  // ---------------------------------------------------------------------

  /** Coefficients 8 g to 8 g + 7: the g-th group of eight. */
  function Group(c: seq<i16>, g: nat): (t: Eight)
    requires 8 * g + 8 <= |c|
    ensures forall k :: 0 <= k < 8 ==> t[k] == c[8 * g + k]
  {
    c[8 * g..8 * g + 8]
  }

  /** Bytes 13 g to 13 g + 12: the g-th round. */
  function Chunk(b: seq<byte>, g: nat): Thirteen
    requires 13 * g + 13 <= |b|
  {
    b[13 * g..13 * g + 13]
  }

  /** dec undoes enc on every round of 13-bit coefficients. */
  ghost predicate DecodesEncoded(enc: Eight -> Thirteen, dec: Thirteen -> Eight)
  {
    forall p: Eight :: ThirteenBit(p) ==> dec(enc(p)) == p
  }

  /** enc undoes dec on every round. */
  ghost predicate EncodesDecoded(enc: Eight -> Thirteen, dec: Thirteen -> Eight)
  {
    forall r: Thirteen :: enc(dec(r)) == r
  }

  /** dec gives 13-bit coefficients only. */
  ghost predicate DecodesThirteenBit(dec: Thirteen -> Eight)
  {
    forall r: Thirteen :: ThirteenBit(dec(r))
  }

  /** The rounds of the first n groups of eight coefficients, in order. */
  function EncodeRounds(enc: Eight -> Thirteen, c: seq<i16>, n: nat): (r: seq<byte>)
    requires 8 * n <= |c|
    ensures |r| == 13 * n
  {
    if n == 0 then [] else EncodeRounds(enc, c, n - 1) + enc(Group(c, n - 1))
  }

  /** The coefficients of the first n rounds of 13 bytes, in order. */
  function DecodeRounds(dec: Thirteen -> Eight, b: seq<byte>, n: nat): (r: seq<i16>)
    requires 13 * n <= |b|
    ensures |r| == 8 * n
  {
    if n == 0 then [] else DecodeRounds(dec, b, n - 1) + dec(Chunk(b, n - 1))
  }

  /** The first n rounds are encoded from the first 8 n coefficients only. */
  lemma {:induction false} EncodeRoundsPrefix(enc: Eight -> Thirteen, c: seq<i16>, c': seq<i16>, n: nat)
    requires 8 * n <= |c| && 8 * n <= |c'| && c[..8 * n] == c'[..8 * n]
    ensures EncodeRounds(enc, c, n) == EncodeRounds(enc, c', n)
  {
    if n > 0 {
      assert Group(c, n - 1) == Group(c', n - 1) by {
        assert Group(c, n - 1) == c[..8 * n][8 * n - 8..];
        assert Group(c', n - 1) == c'[..8 * n][8 * n - 8..];
      }
      assert c[..8 * (n - 1)] == c[..8 * n][..8 * (n - 1)];
      assert c'[..8 * (n - 1)] == c'[..8 * n][..8 * (n - 1)];
      EncodeRoundsPrefix(enc, c, c', n - 1);
    }
  }

  /** The first n coefficient groups are decoded from the first 13 n bytes
      only. */
  lemma {:induction false} DecodeRoundsPrefix(dec: Thirteen -> Eight, b: seq<byte>, b': seq<byte>, n: nat)
    requires 13 * n <= |b| && 13 * n <= |b'| && b[..13 * n] == b'[..13 * n]
    ensures DecodeRounds(dec, b, n) == DecodeRounds(dec, b', n)
  {
    if n > 0 {
      assert Chunk(b, n - 1) == Chunk(b', n - 1) by {
        assert Chunk(b, n - 1) == b[..13 * n][13 * n - 13..];
        assert Chunk(b', n - 1) == b'[..13 * n][13 * n - 13..];
      }
      assert b[..13 * (n - 1)] == b[..13 * n][..13 * (n - 1)];
      assert b'[..13 * (n - 1)] == b'[..13 * n][..13 * (n - 1)];
      DecodeRoundsPrefix(dec, b, b', n - 1);
    }
  }

  lemma TakeSplit<T>(s: seq<T>, i: nat, j: nat)
    requires i <= j <= |s|
    ensures s[..j] == s[..i] + s[i..j]
  {
  }

  /** The encoding of n groups is that of n - 1 groups followed by the round
      of group n - 1. */
  lemma EncodeRoundsLast(enc: Eight -> Thirteen, c: seq<i16>, n: nat)
    requires 0 < n && 8 * n <= |c|
    ensures EncodeRounds(enc, c, n)[..13 * (n - 1)] == EncodeRounds(enc, c, n - 1)
    ensures Chunk(EncodeRounds(enc, c, n), n - 1) == enc(Group(c, n - 1))
  {
    var e, e', r := EncodeRounds(enc, c, n), EncodeRounds(enc, c, n - 1), enc(Group(c, n - 1));
    assert e == e' + r;
    assert e[..|e'|] == e';
    assert e[|e'|..] == r;
  }

  /** The decoding of n rounds is that of n - 1 rounds followed by the
      coefficients of round n - 1. */
  lemma DecodeRoundsLast(dec: Thirteen -> Eight, b: seq<byte>, n: nat)
    requires 0 < n && 13 * n <= |b|
    ensures DecodeRounds(dec, b, n)[..8 * (n - 1)] == DecodeRounds(dec, b, n - 1)
    ensures Group(DecodeRounds(dec, b, n), n - 1) == dec(Chunk(b, n - 1))
  {
    var d, d', r := DecodeRounds(dec, b, n), DecodeRounds(dec, b, n - 1), dec(Chunk(b, n - 1));
    assert d == d' + r;
    assert d[..|d'|] == d';
    assert d[|d'|..] == r;
  }

  /** When decoding undoes encoding on every round of 13-bit coefficients, it
      undoes it on every sequence of such rounds. */
  lemma {:induction false} DecodeEncode(enc: Eight -> Thirteen, dec: Thirteen -> Eight, c: seq<i16>, n: nat)
    requires DecodesEncoded(enc, dec)
    requires 8 * n <= |c| && forall i :: 0 <= i < 8 * n ==> 0 <= c[i] < 0x2000
    ensures DecodeRounds(dec, EncodeRounds(enc, c, n), n) == c[..8 * n]
  {
    if n > 0 {
      var e := EncodeRounds(enc, c, n);
      EncodeRoundsLast(enc, c, n);
      DecodeRoundsPrefix(dec, e, EncodeRounds(enc, c, n - 1), n - 1);
      TakeSplit(c, 8 * (n - 1), 8 * n);
      LastGroupDecodes(enc, dec, c, n);
      DecodeEncode(enc, dec, c, n - 1);
    }
  }

  lemma LastGroupDecodes(enc: Eight -> Thirteen, dec: Thirteen -> Eight, c: seq<i16>, n: nat)
    requires DecodesEncoded(enc, dec)
    requires 0 < n && 8 * n <= |c| && forall i :: 0 <= i < 8 * n ==> 0 <= c[i] < 0x2000
    ensures dec(enc(Group(c, n - 1))) == Group(c, n - 1)
  {
    assert ThirteenBit(Group(c, n - 1));
  }

  /** When encoding undoes decoding on every round, it undoes it on every
      sequence of rounds. */
  lemma {:induction false} EncodeDecode(enc: Eight -> Thirteen, dec: Thirteen -> Eight, b: seq<byte>, n: nat)
    requires EncodesDecoded(enc, dec)
    requires 13 * n <= |b|
    ensures EncodeRounds(enc, DecodeRounds(dec, b, n), n) == b[..13 * n]
  {
    if n > 0 {
      var d := DecodeRounds(dec, b, n);
      DecodeRoundsLast(dec, b, n);
      EncodeRoundsPrefix(enc, d, DecodeRounds(dec, b, n - 1), n - 1);
      EncodeDecode(enc, dec, b, n - 1);
      TakeSplit(b, 13 * (n - 1), 13 * n);
    }
  }

  /** Decoding gives 13-bit coefficients when every round does. */
  lemma {:induction false} DecodeRange(dec: Thirteen -> Eight, b: seq<byte>, n: nat)
    requires DecodesThirteenBit(dec)
    requires 13 * n <= |b|
    ensures ThirteenBit(DecodeRounds(dec, b, n))
  {
    if n > 0 {
      DecodeRange(dec, b, n - 1);
      var d, d', r := DecodeRounds(dec, b, n), DecodeRounds(dec, b, n - 1), dec(Chunk(b, n - 1));
      assert ThirteenBit(r);
      assert forall i :: 0 <= i < |d| ==> d[i] == if i < |d'| then d'[i] else r[i - |d'|];
    }
  }

  /** The round functions of the source are a round encoder and decoder that
      undo each other, the first on 13-bit coefficients. */
  lemma RoundCodecDecodes()
    ensures DecodesEncoded(ToRound, FromRound)
  {
    forall p: Eight | ThirteenBit(p)
      ensures FromRound(ToRound(p)) == p
    {
      RoundTrip(p);
    }
  }

  lemma RoundCodecEncodes()
    ensures EncodesDecoded(ToRound, FromRound)
  {
    forall r: Thirteen
      ensures ToRound(FromRound(r)) == r
    {
      RoundTripEncoded(r);
    }
  }

  /** `poly_to_bytes`: the N / 8 rounds of a polynomial. */
  function ToBytesSpec(c: seq<i16>): (r: seq<byte>)
    requires |c| == N
    ensures |r| == ENCODED_BYTES
  {
    EncodeRounds(ToRound, c, N / 8)
  }

  /** `poly_from_bytes`: the N coefficients of the first N / 8 rounds. */
  function FromBytesSpec(b: seq<byte>): (r: seq<i16>)
    requires |b| >= ENCODED_BYTES
    ensures |r| == N
  {
    DecodeRounds(FromRound, b, N / 8)
  }

  /** Polynomials whose coefficients are all in [0, 2^13) survive
      serialization; canonical ones, in [0, Q), are among them since
      Q < 2^13. */
  lemma PolyRoundTrip(c: seq<i16>)
    requires |c| == N && ThirteenBit(c)
    ensures FromBytesSpec(ToBytesSpec(c)) == c
  {
    RoundCodecDecodes();
    assert c[..N] == c;
    DecodeEncode(ToRound, FromRound, c, N / 8);
  }

  /** Every buffer is the encoding of what its first ENCODED_BYTES bytes
      decode to. */
  lemma BytesRoundTrip(b: seq<byte>)
    requires |b| >= ENCODED_BYTES
    ensures ToBytesSpec(FromBytesSpec(b)) == b[..ENCODED_BYTES]
  {
    RoundCodecEncodes();
    EncodeDecode(ToRound, FromRound, b, N / 8);
  }

  /** `poly_from_bytes` reads the first ENCODED_BYTES bytes of its buffer
      and nothing past them. */
  lemma FromBytesReadsPrefix(b: seq<byte>, b': seq<byte>)
    requires |b| >= ENCODED_BYTES && |b'| >= ENCODED_BYTES
    requires b[..ENCODED_BYTES] == b'[..ENCODED_BYTES]
    ensures FromBytesSpec(b) == FromBytesSpec(b')
  {
    DecodeRoundsPrefix(FromRound, b, b', N / 8);
  }

  /** Decoded coefficients are in [0, 2^13): never negative, but not always
      below Q. */
  lemma FromBytesRange(b: seq<byte>)
    requires |b| >= ENCODED_BYTES
    ensures ThirteenBit(FromBytesSpec(b))
  {
    DecodeRange(FromRound, b, N / 8);
  }

  // ---------------------------------------------------------------------
  // The two loops
  // ---------------------------------------------------------------------

  /** `poly_to_bytes(poly, buf)`: round i of the coefficients goes to bytes
      13 i to 13 i + 12 of buf; the bytes past the encoding are untouched. */
  method PolyToBytes(coeffs: seq<i16>, buf: array<byte>)
    requires |coeffs| == N && buf.Length >= ENCODED_BYTES
    modifies buf
    ensures buf[..ENCODED_BYTES] == ToBytesSpec(coeffs)
    ensures forall m :: ENCODED_BYTES <= m < buf.Length ==> buf[m] == old(buf[m])
  {
    for i := 0 to N / 8
      invariant buf[..13 * i] == EncodeRounds(ToRound, coeffs, i)
      invariant forall m :: 13 * i <= m < buf.Length ==> buf[m] == old(buf[m])
    {
      var t := GatherEight(coeffs, i);
      CopyInto(buf, 13 * i, ToRound(t));
    }
  }

  /** The inner loop of `poly_to_bytes`: the scratch round t, a local value
      of eight i16, receives coefficients 8 i to 8 i + 7. */
  method GatherEight(coeffs: seq<i16>, i: nat) returns (t: seq<i16>)
    requires |coeffs| == N && i < N / 8
    ensures t == Group(coeffs, i)
  {
    t := [0, 0, 0, 0, 0, 0, 0, 0];
    for j := 0 to 8
      invariant |t| == 8
      invariant forall m :: 0 <= m < j ==> t[m] == coeffs[8 * i + m]
    {
      t := t[j := coeffs[8 * i + j]];
    }
  }

  /** `a[at..at + |r|].copy_from_slice(&r)`: the slice becomes r, so the
      first at + |r| elements are the old first at followed by r. */
  method CopyInto<T>(a: array<T>, at: nat, r: seq<T>)
    requires at + |r| <= a.Length
    modifies a
    ensures a[..at + |r|] == old(a[..at]) + r
    ensures forall m :: at + |r| <= m < a.Length ==> a[m] == old(a[m])
  {
    for m := 0 to |r|
      invariant forall n :: 0 <= n < a.Length ==>
        a[n] == if at <= n < at + m then r[n - at] else old(a[n])
    {
      a[at + m] := r[m];
    }
    assert a[..at + |r|] == old(a[..at]) + r;
  }

  /** `poly_from_bytes(buf, poly)`: round i of buf gives coefficients 8 i to
      8 i + 7. */
  method PolyFromBytes(buf: seq<byte>, poly: Poly)
    requires poly.Valid() && |buf| >= ENCODED_BYTES
    modifies poly.coeffs
    ensures poly.coeffs[..] == FromBytesSpec(buf)
  {
    for i := 0 to N / 8
      invariant poly.coeffs[..8 * i] == DecodeRounds(FromRound, buf, i)
    {
      CopyInto(poly.coeffs, 8 * i, FromRound(Chunk(buf, i)));
    }
  }
}

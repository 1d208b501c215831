/** The two samplers of src/utils.rs: `cbd`, centred-binomial noise from a
    byte buffer, and `sample_ntt`, rejection sampling of coefficients below Q
    from an extendable-output byte stream. Both fill a polynomial in place. */
module Sampling {
  import opened Params
  import opened RustArith
  import opened Polynomial

  // ---------------------------------------------------------------------
  // cbd
  // ---------------------------------------------------------------------

  /** `u32::from_le_bytes([b0, b1, b2, b3])`. */
  function LeWord(b0: byte, b1: byte, b2: byte, b3: byte): bv32
  {
    b0 as bv32 | (b1 as bv32 << 8) | (b2 as bv32 << 16) | (b3 as bv32 << 24)
  }

  /** `d = (t & 0x55555555) + ((t >> 1) & 0x55555555)`: every 2-bit field of
      d holds the number of set bits in the same field of t. */
  function PairSums(t: bv32): bv32
  {
    (t & 0x5555_5555) + ((t >> 1) & 0x5555_5555)
  }

  /** `(d >> n) & 0x3`. */
  function Field(d: bv32, n: bv32): bv32
    requires n < 32
  {
    (d >> n) & 0x3
  }

  /** Bit n of a word. */
  function Bit(t: bv32, n: bv32): bv32
    requires n < 32
  {
    (t >> n) & 1
  }

  /** `x as i16` for a 2-bit count x: its value 0 to 3. */
  function Count(x: bv32): (r: int)
    requires x < 4
    ensures 0 <= r < 4
  {
    if x == 0 then 0 else if x == 1 then 1 else if x == 2 then 2 else 3
  }

  /** The lane number j, 0 to 3, as the shift count it becomes. */
  function Lane(j: int): (r: bv32)
    requires 0 <= j < 4
    ensures r < 4
  {
    if j == 0 then 0 else if j == 1 then 1 else if j == 2 then 2 else 3
  }

  /** Coefficient j of the word t: `a - b` with `a = (d >> 4j) & 3` and
      `b = (d >> (4j + 2)) & 3`. */
  function CbdLane(t: bv32, j: bv32): int
    requires j < 4
  {
    var d := PairSums(t);
    Count(Field(d, 4 * j)) - Count(Field(d, 4 * j + 2))
  }

  /** Field n of d holds the sum of bits n and n + 1 of t. */
  lemma PairSumField(t: bv32, n: bv32)
    requires n < 16 && n & 1 == 0
    ensures Field(PairSums(t), n) == Bit(t, n) + Bit(t, n + 1)
  {
  }

  /** The lane is the centred-binomial difference of two 2-bit popcounts:
      (bit 4j + bit 4j+1) - (bit 4j+2 + bit 4j+3) of the word. */
  lemma CbdLaneBits(t: bv32, j: bv32)
    requires j < 4
    ensures var d := PairSums(t);
      Count(Field(d, 4 * j)) - Count(Field(d, 4 * j + 2))
        == Count(Bit(t, 4 * j)) + Count(Bit(t, 4 * j + 1)) - Count(Bit(t, 4 * j + 2)) - Count(Bit(t, 4 * j + 3))
  {
    PairSumField(t, 4 * j);
    PairSumField(t, 4 * j + 2);
  }

  /** A lane is a difference of two counts of two bits each, so it lies in
      [-2, 2]: the noise width 2 of the sampler. */
  lemma CbdLaneRange(t: bv32, j: bv32)
    requires j < 4
    ensures -2 <= CbdLane(t, j) <= 2
  {
    CbdLaneBits(t, j);
  }

  /** Bit n of a byte. */
  function ByteBit(x: byte, n: bv32): bv32
    requires n < 8
  {
    Bit(x as bv32, n)
  }

  /** The centred-binomial value of one nibble of a byte, read from bit m:
      bits m and m+1 count as +1 each, bits m+2 and m+3 as -1 each. */
  function NibbleCbd(x: byte, m: bv32): (r: int)
    requires m == 0 || m == 4
    ensures -2 <= r <= 2
  {
    Count(ByteBit(x, m)) + Count(ByteBit(x, m + 1)) - Count(ByteBit(x, m + 2)) - Count(ByteBit(x, m + 3))
  }

  /** The low byte of the little-endian word is its first byte. */
  lemma LeWordByte0(b0: byte, b1: byte, b2: byte, b3: byte, n: bv32)
    requires n < 8
    ensures Bit(LeWord(b0, b1, b2, b3), n) == ByteBit(b0, n)
  {
  }

  /** The second byte of the little-endian word is its second byte; the last
      two bytes do not reach the low 16 bits. */
  lemma LeWordByte1(b0: byte, b1: byte, b2: byte, b3: byte, n: bv32)
    requires n < 8
    ensures Bit(LeWord(b0, b1, b2, b3), n + 8) == ByteBit(b1, n)
  {
  }

  /** Lane j of the word made of four bytes reads one byte only: b0 for
      lanes 0 and 1, b1 for lanes 2 and 3, from bit m = 0 (even lanes) or
      m = 4 (odd lanes): bits m, m+1 minus bits m+2, m+3. */
  lemma LaneOfBytes(b0: byte, b1: byte, b2: byte, b3: byte, j: bv32)
    requires j < 4
    ensures CbdLane(LeWord(b0, b1, b2, b3), j) == NibbleCbd(if j < 2 then b0 else b1, if j & 1 == 0 then 0 else 4)
  {
    CbdLaneBits(LeWord(b0, b1, b2, b3), j);
    var m: bv32 := if j & 1 == 0 then 0 else 4;
    if j < 2 {
      assert 4 * j == m;
      LeWordByte0(b0, b1, b2, b3, m);
      LeWordByte0(b0, b1, b2, b3, m + 1);
      LeWordByte0(b0, b1, b2, b3, m + 2);
      LeWordByte0(b0, b1, b2, b3, m + 3);
    } else {
      assert 4 * j == m + 8;
      LeWordByte1(b0, b1, b2, b3, m);
      LeWordByte1(b0, b1, b2, b3, m + 1);
      LeWordByte1(b0, b1, b2, b3, m + 2);
      LeWordByte1(b0, b1, b2, b3, m + 3);
    }
  }

  /** Coefficient k of `cbd(buf)`: lane k % 4 of the word `buf[k/4 .. k/4 + 4]`. */
  function CbdSpec(buf: seq<byte>): (r: seq<i16>)
    requires |buf| >= N / 4 + 3
    ensures |r| == N
    ensures forall k :: 0 <= k < N ==> -2 <= r[k] <= 2
  {
    seq(N, k requires 0 <= k < N =>
      var t, j := LeWord(buf[k / 4], buf[k / 4 + 1], buf[k / 4 + 2], buf[k / 4 + 3]), Lane(k % 4);
      CbdLaneRange(t, j);
      CbdLane(t, j))
  }

  /** Coefficient 4i + j of `cbd(buf)` is lane j of the word at byte i. */
  lemma CbdSpecAt(buf: seq<byte>, i: int, j: int)
    requires |buf| >= N / 4 + 3 && 0 <= i < N / 4 && 0 <= j < 4
    ensures CbdSpec(buf)[4 * i + j] == CbdLane(LeWord(buf[i], buf[i + 1], buf[i + 2], buf[i + 3]), Lane(j))
  {
    assert (4 * i + j) / 4 == i && (4 * i + j) % 4 == j;
  }

  /** Coefficient 4i + j is a difference of bit counts of byte buf[i + j/2]
      alone. Because the window moves by one byte per group of four
      coefficients, consecutive groups share bytes. */
  lemma CbdCoefficient(buf: seq<byte>, k: int)
    requires |buf| >= N / 4 + 3 && 0 <= k < N
    ensures CbdSpec(buf)[k] == NibbleCbd(buf[k / 4 + (k % 4) / 2], if k % 2 == 0 then 0 else 4)
  {
    var i := k / 4;
    var b0, b1, b2, b3 := buf[i], buf[i + 1], buf[i + 2], buf[i + 3];
    assert CbdSpec(buf)[k] == CbdLane(LeWord(b0, b1, b2, b3), Lane(k % 4));
    assert k % 2 == (k % 4) % 2;
    if k % 4 == 0 {
      LaneOfBytes(b0, b1, b2, b3, 0);
    } else if k % 4 == 1 {
      LaneOfBytes(b0, b1, b2, b3, 1);
    } else if k % 4 == 2 {
      LaneOfBytes(b0, b1, b2, b3, 2);
    } else {
      LaneOfBytes(b0, b1, b2, b3, 3);
    }
  }

  /** `cbd` reads buf[0 .. 67) but its output depends on buf[0 .. 65) only. */
  lemma CbdDependsOnPrefix(buf: seq<byte>, other: seq<byte>)
    requires |buf| >= N / 4 + 3 && |other| >= N / 4 + 3
    requires buf[..N / 4 + 1] == other[..N / 4 + 1]
    ensures CbdSpec(buf) == CbdSpec(other)
  {
    forall k | 0 <= k < N
      ensures CbdSpec(buf)[k] == CbdSpec(other)[k]
    {
      CbdCoefficient(buf, k);
      CbdCoefficient(other, k);
      var x := k / 4 + (k % 4) / 2;
      assert x < N / 4 + 1;
      assert buf[x] == buf[..N / 4 + 1][x] == other[..N / 4 + 1][x] == other[x];
    }
  }

  /** `cbd(buf, poly)`: four coefficients per byte offset i, each `a - b`. */
  method Cbd(buf: seq<byte>, poly: Poly)
    requires poly.Valid() && |buf| >= N / 4 + 3
    modifies poly.coeffs
    ensures poly.coeffs[..] == CbdSpec(buf)
  {
    ghost var want := CbdSpec(buf);
    for i := 0 to N / 4
      invariant forall k :: 0 <= k < 4 * i ==> poly.coeffs[k] == want[k]
    {
      CbdWord(buf, want, poly.coeffs, i);
    }
  }

  /** One pass of the outer loop of `cbd`: the four coefficients drawn from
      the word at byte offset i; the other coefficients are left alone. */
  method CbdWord(buf: seq<byte>, ghost want: seq<i16>, coeffs: array<i16>, i: int)
    requires coeffs.Length == N && |buf| >= N / 4 + 3 && 0 <= i < N / 4
    requires want == CbdSpec(buf)
    modifies coeffs
    ensures forall k :: 0 <= k < 4 * i ==> coeffs[k] == old(coeffs[k])
    ensures forall k :: 4 * i <= k < 4 * i + 4 ==> coeffs[k] == want[k]
  {
    var t := LeWord(buf[i], buf[i + 1], buf[i + 2], buf[i + 3]);
    var d := PairSums(t);
    for j := 0 to 4
      invariant forall k :: 0 <= k < 4 * i ==> coeffs[k] == old(coeffs[k])
      invariant forall k :: 4 * i <= k < 4 * i + j ==> coeffs[k] == want[k]
    {
      var a := Count(Field(d, 4 * Lane(j)));
      var b := Count(Field(d, 4 * Lane(j) + 2));
      CbdSpecAt(buf, i, j);
      CbdLaneRange(t, Lane(j));
      assert a - b == want[4 * i + j];
      coeffs[4 * i + j] := a - b;
    }
  }

  // ---------------------------------------------------------------------
  // sample_ntt
  // ---------------------------------------------------------------------

  /** First candidate of the group of three bytes at 3g: `t1 | (t2 << 8)` in
      u16. The operands have no bit in common, so this is t1 + 256 t2; the
      value is not masked to 12 bits. */
  function D1(t1: u8, t2: u8): (d: int)
    ensures 0 <= d < 0x1_0000
  {
    t1 + 256 * t2
  }

  /** Second candidate: `(t2 >> 4) | (t3 << 4)`, that is t2 / 16 + 16 t3, a
      12-bit value. */
  function D2(t2: u8, t3: u8): (d: int)
    ensures 0 <= d < 0x1000
  {
    t2 / 16 + 16 * t3
  }

  /** D1 is the source's u16 expression `t1 | (t2 << 8)`: the bits do not
      overlap and the shift loses nothing. */
  lemma D1Bits(t1: byte, t2: byte)
    ensures ((t1 as bv16) | ((t2 as bv16) << 8)) as int == D1(t1 as int, t2 as int)
  {
  }

  /** D2 is the source's u16 expression `(t2 >> 4) | (t3 << 4)`. */
  lemma D2Bits(t2: byte, t3: byte)
    ensures (((t2 as bv16) >> 4) | ((t3 as bv16) << 4)) as int == D2(t2 as int, t3 as int)
  {
  }

  /** The candidates of a group that pass the test `d < Q`, in order. */
  function Kept(d1: int, d2: int): (r: seq<int>)
    ensures |r| <= 2
  {
    (if d1 < Q then [d1] else []) + (if d2 < Q then [d2] else [])
  }

  /** The candidates of group g that are accepted. */
  function Accept(s: seq<u8>, g: nat): (r: seq<int>)
    requires 3 * g + 2 < |s|
    ensures |r| <= 2
  {
    Kept(D1(s[3 * g], s[3 * g + 1]), D2(s[3 * g + 1], s[3 * g + 2]))
  }

  /** Every candidate accepted from the first g groups, in order. */
  function AcceptedUpTo(s: seq<u8>, g: nat): (r: seq<int>)
    requires 3 * g <= |s|
    ensures |r| <= 2 * g
  {
    if g == 0 then [] else AcceptedUpTo(s, g - 1) + Accept(s, g - 1)
  }

  /** The source indexes past the end of the stream (and panics) unless the
      whole groups of the stream hold at least N acceptable candidates. */
  predicate EnoughCandidates(s: seq<u8>)
  {
    |AcceptedUpTo(s, |s| / 3)| >= N
  }

  /** `sample_ntt(xof_out)`: the first N accepted candidates. */
  function SampleSpec(s: seq<u8>): (r: seq<int>)
    requires EnoughCandidates(s)
    ensures |r| == N
  {
    AcceptedUpTo(s, |s| / 3)[..N]
  }

  /** Taking more groups only appends candidates. */
  lemma {:induction false} AcceptedPrefix(s: seq<u8>, g1: nat, g2: nat)
    requires g1 <= g2 && 3 * g2 <= |s|
    ensures |AcceptedUpTo(s, g1)| <= |AcceptedUpTo(s, g2)|
    ensures AcceptedUpTo(s, g2)[..|AcceptedUpTo(s, g1)|] == AcceptedUpTo(s, g1)
    decreases g2
  {
    if g1 < g2 {
      AcceptedPrefix(s, g1, g2 - 1);
      assert AcceptedUpTo(s, g2) == AcceptedUpTo(s, g2 - 1) + Accept(s, g2 - 1);
    }
  }

  /** Every accepted candidate is a canonical coefficient in [0, Q). */
  lemma {:induction false} AcceptedBelowQ(s: seq<u8>, g: nat)
    requires 3 * g <= |s|
    ensures forall k :: 0 <= k < |AcceptedUpTo(s, g)| ==> 0 <= AcceptedUpTo(s, g)[k] < Q
  {
    if g > 0 {
      AcceptedBelowQ(s, g - 1);
    }
  }

  /** The output is N coefficients in [0, Q). */
  lemma SampleCanonical(s: seq<u8>)
    requires EnoughCandidates(s)
    ensures forall k :: 0 <= k < N ==> 0 <= SampleSpec(s)[k] < Q
  {
    AcceptedBelowQ(s, |s| / 3);
  }

  /** All candidates of the first g groups, two per group, accepted or not. */
  function Candidates(s: seq<u8>, g: nat): (r: seq<int>)
    requires 3 * g <= |s|
    ensures |r| == 2 * g
  {
    if g == 0 then [] else Candidates(s, g - 1) + Pair(s, g - 1)
  }

  /** The two candidates of group g, accepted or not. */
  function Pair(s: seq<u8>, g: nat): (r: seq<int>)
    requires 3 * g + 2 < |s|
    ensures |r| == 2
  {
    [D1(s[3 * g], s[3 * g + 1]), D2(s[3 * g + 1], s[3 * g + 2])]
  }

  /** The candidates below Q, in order. */
  function BelowQ(c: seq<int>): (r: seq<int>)
    ensures |r| <= |c|
  {
    if c == [] then [] else (if c[0] < Q then [c[0]] else []) + BelowQ(c[1..])
  }

  lemma {:induction false} BelowQAppend(c: seq<int>, d: seq<int>)
    ensures BelowQ(c + d) == BelowQ(c) + BelowQ(d)
  {
    if c != [] {
      assert (c + d)[1..] == c[1..] + d;
      BelowQAppend(c[1..], d);
    } else {
      assert c + d == d;
    }
  }

  lemma BelowQPair(a: int, b: int)
    ensures BelowQ([a, b]) == (if a < Q then [a] else []) + (if b < Q then [b] else [])
  {
    assert [a, b][1..] == [b];
    assert [b][1..] == [];
  }

  /** Rejection sampling as a filter: the accepted sequence is exactly the
      candidates below Q, in stream order. */
  lemma {:induction false} AcceptedIsFilter(s: seq<u8>, g: nat)
    requires 3 * g <= |s|
    ensures AcceptedUpTo(s, g) == BelowQ(Candidates(s, g))
  {
    if g > 0 {
      var c, pair := Candidates(s, g - 1), Pair(s, g - 1);
      AcceptedIsFilter(s, g - 1);
      BelowQAppend(c, pair);
      BelowQPair(pair[0], pair[1]);
      calc {
        AcceptedUpTo(s, g);
        AcceptedUpTo(s, g - 1) + Accept(s, g - 1);
        BelowQ(c) + BelowQ(pair);
        BelowQ(c + pair);
        BelowQ(Candidates(s, g));
      }
    }
  }

  /** Because the first candidate is not masked to 12 bits, the high nibble
      of the middle byte is not discarded: it is accepted only when the
      middle byte is at most 13 (and exactly 13 only with a zero first
      byte). Every middle byte of 16 or more rejects it, although the
      12-bit value a mask would keep is accepted whenever the low nibble
      is at most 12. */
  lemma FirstCandidateUnmasked(t1: u8, t2: u8)
    ensures D1(t1, t2) < Q <==> t2 < 13 || (t2 == 13 && t1 == 0)
    ensures t2 >= 16 ==> D1(t1, t2) >= Q
    ensures t2 % 16 < 13 ==> D1(t1, t2) % 0x1000 < Q
  {
    LowTwelve(D1(t1, t2), t2 / 16);
  }

  /** The low 12 bits of d, once the multiples of 2^12 above them are known. */
  lemma LowTwelve(d: int, h: int)
    requires 0 <= d && 0 <= h
    requires 0 <= d - 0x1000 * h < 0x1000
    ensures d % 0x1000 == d - 0x1000 * h
  {
  }

  /** `sample_ntt(xof_out, poly)`: read groups of three bytes and keep each
      candidate below Q until N coefficients are written. */
  method SampleNtt(xof: seq<u8>, poly: Poly)
    requires poly.Valid() && EnoughCandidates(xof)
    modifies poly.coeffs
    ensures poly.coeffs[..] == SampleSpec(xof)
  {
    var i, j := 0, 0;
    ghost var g: nat := 0;
    while j < N
      invariant i == 3 * g <= |xof|
      invariant j <= N && j <= |AcceptedUpTo(xof, g)|
      invariant j < N ==> j == |AcceptedUpTo(xof, g)|
      invariant forall k :: 0 <= k < j ==> poly.coeffs[k] == AcceptedUpTo(xof, g)[k]
      decreases |xof| - i
    {
      RoomForGroup(xof, g);
      j := SampleGroup(xof, g, AcceptedUpTo(xof, g), poly.coeffs, i, j);
      i := i + 3;
      g := g + 1;
    }
    SampleDone(xof, g, poly.coeffs[..]);
  }

  /** While fewer than N candidates are accepted, the loop has not reached
      the last whole group of the stream. */
  lemma RoomForGroup(s: seq<u8>, g: nat)
    requires EnoughCandidates(s) && 3 * g <= |s| && |AcceptedUpTo(s, g)| < N
    ensures 3 * g + 2 < |s|
  {
    WholeGroups(|s|, g);
  }

  /** A length with no room for a group past 3g has exactly g whole groups. */
  lemma WholeGroups(n: nat, g: nat)
    requires 3 * g <= n
    ensures 3 * g + 2 < n || n / 3 == g
  {
  }

  /** Once the first g groups give N candidates, those N are the output. */
  lemma SampleDone(s: seq<u8>, g: nat, out: seq<int>)
    requires EnoughCandidates(s) && 3 * g <= |s| && N <= |AcceptedUpTo(s, g)|
    requires |out| == N && forall k :: 0 <= k < N ==> out[k] == AcceptedUpTo(s, g)[k]
    ensures out == SampleSpec(s)
  {
    assert g <= |s| / 3;
    AcceptedPrefix(s, g, |s| / 3);
  }

  /** One pass of the loop of `sample_ntt` on the bytes t1, t2, t3 at i = 3g:
      the candidate d1 is stored at j when it is below Q, then d2 at the
      next free place when it is below Q and the polynomial is not yet full.
      With j the number of candidates accepted from the first g groups, the
      coefficients written so far are those of the first g + 1 groups. */
  method SampleGroup(xof: seq<u8>, ghost g: nat, ghost prev: seq<int>, coeffs: array<i16>, i: int, j: int)
      returns (j': int)
    requires coeffs.Length == N && i == 3 * g && i + 2 < |xof|
    requires 0 <= j < N && j == |prev|
    requires forall k :: 0 <= k < j ==> coeffs[k] == prev[k]
    modifies coeffs
    ensures var next := prev + Accept(xof, g);
      j <= j' <= N && j' <= |next| && (j' < N ==> j' == |next|)
        && forall k :: 0 <= k < j' ==> coeffs[k] == next[k]
  {
    var d1 := D1(xof[i], xof[i + 1]);
    var d2 := D2(xof[i + 1], xof[i + 2]);
    j' := j;
    if d1 < Q {
      coeffs[j'] := d1;
      j' := j' + 1;
    }
    if j' < N && d2 < Q {
      coeffs[j'] := d2;
      j' := j' + 1;
    }
  }
}

/** The number-theoretic transform of src/ntt.rs: a forward and an inverse
    butterfly network over a 256-coefficient i16 array, driven by a table of
    128 zetas, reducing with Rust's truncating `%`. */
module Ntt {
  import opened Params
  import opened RustArith

  /** The zeta table, in the order the source lists it. */
  const ZETAS: seq<i16> := [
    -1044, -758, -359, -1517, 1493, 1422, 287, 202, -171, 622, 1577, 182, 962,
    -250, 1120, -1164, -1182, -1530, -1278, 794, -1510, -854, -870, 478, -1036,
    -658, -23, -1238, -1255, -430, -555, 1222, 1632, -122, -265, -1549, -143,
    -1698, -1321, -1158, -1333, -731, -1141, -1590, 816, -114, -1343, -1289,
    -1563, -338, -1163, -1176, -1619, -1110, 298, -1274, -1428, -884, -1421,
    -1304, -496, -1607, -1527, -918, 1199, -1067, -1263, -310, -1692, -1218,
    -1299, -1254, -1474, 446, -1445, -1398, -1345, 1223, 1479, -1021, 619,
    -149, -1499, -1324, 401, -1208, -78, -561, -1580, -1384, -26, -1653, -219,
    -1432, 1424, -1139, -1466, -1353, -1043, 1505, -785, -1292, -1472,
    -1318, -1363, -1423, -1342, 1481, -1451, 1069, -1532, -1103, -1375, -28,
    -1272, -113, -1503, -1393, -1172, 1494, -1579, -586, -1341, -1469, -1628,
    -1242, -1491, -1455
  ]

  /** The half-block lengths the butterfly loops run through. */
  const LENS: set<int> := {2, 4, 8, 16, 32, 64, 128}

  predicate IsLen(len: int)
  {
    len in LENS
  }

  // ---------------------------------------------------------------------
  // Butterflies
  // ---------------------------------------------------------------------

  /** Forward butterfly, new p[j]: `t = (zeta * p[j+len]) % Q` in i32, then
      `(p[j] + t) as i16 % Q`. */
  function FwdLo(a: i16, b: i16, z: i16): (r: i16)
    ensures Small(r)
  {
    RemQ(Wrap16(a + RemQ(z * b)))
  }

  /** Forward butterfly, new p[j+len]: `(p[j] - t + Q) as i16 % Q`. */
  function FwdHi(a: i16, b: i16, z: i16): (r: i16)
    ensures Small(r)
  {
    RemQ(Wrap16(a - RemQ(z * b) + Q))
  }

  /** Inverse butterfly, new p[j]: i16 `(t + p[j+len]) % Q`. */
  function InvLo(a: i16, b: i16): (r: i16)
    ensures Small(r)
  {
    RemQ(Wrap16(a + b))
  }

  /** Inverse butterfly, new p[j+len]: i16 `(t - p[j+len] + Q) % Q`, then
      `(zeta * that) % Q` in i32. */
  function InvHi(a: i16, b: i16, z: i16): (r: i16)
    ensures Small(r)
  {
    RemQ(z * RemQ(Wrap16(Wrap16(a - b) + Q)))
  }

  /** Final inverse pass: `(p * Q_INV) % Q` in i32. */
  function Scale(c: i16): (r: i16)
    ensures Small(r)
  {
    RemQ(c * Q_INV)
  }

  /** The p[j] values for which neither forward cast `as i16` wraps: the
      lower sum a + t and the upper a - t + Q stay in i16 for every t in (-Q, Q).
      Every value in (-Q, Q) qualifies, and so does every 13-bit value. */
  predicate FwdNoWrap(a: int)
  {
    -0x8000 + (Q - 1) <= a <= 0x7FFF - (2 * Q - 1)
  }

  /** The two kinds of input the transform is given: coefficients in (-Q, Q)
      and 13-bit values fresh from decoding. */
  lemma NoWrapInputs(a: int)
    requires Small(a) || 0 <= a < 0x2000
    ensures FwdNoWrap(a)
  {
  }

  /** A forward butterfly whose p[j] satisfies FwdNoWrap overflows neither its
      i32 product nor its i16 casts, and computes
      p[j] + zeta * p[j+len] and p[j] - zeta * p[j+len] modulo Q. */
  lemma FwdButterflyCong(a: i16, b: i16, z: i16)
    requires FwdNoWrap(a)
    ensures InI32(z * b)
    ensures Wrap16(a + RemQ(z * b)) == a + RemQ(z * b)
    ensures Wrap16(a - RemQ(z * b) + Q) == a - RemQ(z * b) + Q
    ensures Cong(FwdLo(a, b, z), a + z * b)
    ensures Cong(FwdHi(a, b, z), a - z * b)
  {
    MulFitsI32(z, b);
    var t := RemQ(z * b);
    CongAdd(FwdLo(a, b, z) - a, t, a, a);
    CongTrans(FwdLo(a, b, z), a + t, a + z * b);
    CongByMultiple(a - t + Q, a - t, 1);
    CongAdd(a, a, t, z * b);
    CongTrans(FwdHi(a, b, z), a - t + Q, a - t);
    CongTrans(FwdHi(a, b, z), a - t, a - z * b);
  }

  /** An inverse butterfly on a pair in (-Q, Q) overflows nothing and
      computes p[j] + p[j+len] and zeta * (p[j] - p[j+len]) modulo Q. */
  lemma InvButterflyCong(a: i16, b: i16, z: i16)
    requires Small(a) && Small(b)
    ensures Wrap16(a + b) == a + b
    ensures Wrap16(Wrap16(a - b) + Q) == a - b + Q
    ensures InI32(z * RemQ(a - b + Q))
    ensures Cong(InvLo(a, b), a + b)
    ensures Cong(InvHi(a, b, z), z * (a - b))
  {
    var d := RemQ(a - b + Q);
    MulFitsI32(z, d);
    CongByMultiple(a - b + Q, a - b, 1);
    CongTrans(d, a - b + Q, a - b);
    CongMulLeft(z, d, a - b);
    CongTrans(InvHi(a, b, z), z * d, z * (a - b));
  }

  /** The scaling pass never overflows i32, and multiplies by 2287 modulo Q
      (Q_INV mod Q), not by the inverse of N (3316). */
  lemma ScaleCong(c: i16)
    ensures InI32(c * Q_INV)
    ensures Cong(Scale(c), 2287 * c)
  {
    CongByMultiple(c * Q_INV, 2287 * c, 18 * c);
    CongTrans(Scale(c), c * Q_INV, 2287 * c);
  }

  // ---------------------------------------------------------------------
  // Block structure of one level
  // ---------------------------------------------------------------------

  /** Number of blocks [b*2len, b*2len + 2len) at half-length len; it is
      also the index of the first zeta the forward level reads. */
  function Blocks(len: int): (c: int)
    requires len == 1 || IsLen(len)
    ensures 1 <= c <= 128
    ensures len != 1 ==> c <= 64
  {
    128 / len
  }

  /** Index of the first zeta the inverse level of half-length len reads
      (0 once len has grown to 256). */
  function InvBase(len: int): (c: int)
    requires len == 256 || IsLen(len)
    ensures 0 <= c <= 127
  {
    256 / len - 1
  }

  /** Within a level of half-length len, the blocks partition 0..N: index i
      of block b lies at offset i - 2len*b, and i / (2len) recovers b. */
  lemma BlockOf(i: int, len: int, b: int)
    requires IsLen(len) && 0 <= b && 2 * len * b <= i < 2 * len * b + 2 * len
    ensures i / (2 * len) == b
    ensures i % (2 * len) == i - 2 * len * b
  {
    if len == 2 { assert 2 * len * b == 4 * b; }
    else if len == 4 { assert 2 * len * b == 8 * b; }
    else if len == 8 { assert 2 * len * b == 16 * b; }
    else if len == 16 { assert 2 * len * b == 32 * b; }
    else if len == 32 { assert 2 * len * b == 64 * b; }
    else if len == 64 { assert 2 * len * b == 128 * b; }
    else { assert 2 * len * b == 256 * b; }
  }

  /** A block that starts below N ends within N, and it is one of the
      Blocks(len) blocks of the level; once the start reaches N, all blocks
      have been visited. */
  lemma BlockBound(len: int, b: int)
    requires IsLen(len) && 0 <= b <= Blocks(len)
    ensures 2 * len * b < N ==> 2 * len * b + 2 * len <= N && b < Blocks(len)
    ensures 2 * len * b >= N ==> b == Blocks(len) && 2 * len * b == N
    ensures 2 * len * (b + 1) == 2 * len * b + 2 * len
  {
    if len == 2 { assert 2 * len * b == 4 * b; }
    else if len == 4 { assert 2 * len * b == 8 * b; }
    else if len == 8 { assert 2 * len * b == 16 * b; }
    else if len == 16 { assert 2 * len * b == 32 * b; }
    else if len == 32 { assert 2 * len * b == 64 * b; }
    else if len == 64 { assert 2 * len * b == 128 * b; }
    else { assert 2 * len * b == 256 * b; }
  }

  /** From one level to the next: the forward counter moves from Blocks(len)
      to Blocks(len / 2), the inverse one from InvBase(len) to InvBase(2len). */
  lemma LevelCounts(len: int)
    requires IsLen(len)
    ensures len / 2 == 1 || IsLen(len / 2)
    ensures Blocks(len) + Blocks(len) == Blocks(len / 2)
    ensures len * 2 == 256 || IsLen(len * 2)
    ensures InvBase(len) - Blocks(len) == InvBase(len * 2)
  {
  }

  /** The butterfly partner of index i (i + len in the lower half of its
      block, i - len in the upper half) lies inside 0..N. */
  lemma PartnerInRange(i: int, len: int)
    requires IsLen(len) && 0 <= i < N
    ensures i % (2 * len) < len ==> i + len < N
    ensures i % (2 * len) >= len ==> i - len >= 0
  {
  }

  /** Zeta index the forward pass uses for index i at half-length len. */
  function FwdZeta(len: int, i: int): (k: int)
    requires IsLen(len) && 0 <= i < N
    ensures 1 <= k < 128
  {
    Blocks(len) + i / (2 * len)
  }

  /** Zeta index the inverse pass uses for index i at half-length len. */
  function InvZeta(len: int, i: int): (k: int)
    requires IsLen(len) && 0 <= i < N
    ensures 1 <= k < 128
  {
    InvBase(len) - i / (2 * len)
  }

  // ---------------------------------------------------------------------
  // Levels
  // ---------------------------------------------------------------------

  /** What the forward level of half-length len writes at index i: the
      output of the butterfly of i's block, computed from the pre-level
      values of the pair. */
  function FwdAt(zetas: seq<i16>, s: seq<i16>, len: int, i: int): (r: i16)
    requires |zetas| == 128 && |s| == N && IsLen(len) && 0 <= i < N
    ensures Small(r)
  {
    PartnerInRange(i, len);
    var z := zetas[FwdZeta(len, i)];
    if i % (2 * len) < len then FwdLo(s[i], s[i + len], z) else FwdHi(s[i - len], s[i], z)
  }

  /** What the inverse level of half-length len writes at index i. */
  function InvAt(zetas: seq<i16>, s: seq<i16>, len: int, i: int): (r: i16)
    requires |zetas| == 128 && |s| == N && IsLen(len) && 0 <= i < N
    ensures Small(r)
  {
    PartnerInRange(i, len);
    var z := zetas[InvZeta(len, i)];
    if i % (2 * len) < len then InvLo(s[i], s[i + len]) else InvHi(s[i - len], s[i], z)
  }

  /** One forward level: the butterflies of all its blocks. */
  function FwdLayer(zetas: seq<i16>, s: seq<i16>, len: int): (r: seq<i16>)
    requires |zetas| == 128 && |s| == N && IsLen(len)
    ensures |r| == N && AllSmall(r)
  {
    seq(N, i requires 0 <= i < N => FwdAt(zetas, s, len, i))
  }

  /** One inverse level. */
  function InvLayer(zetas: seq<i16>, s: seq<i16>, len: int): (r: seq<i16>)
    requires |zetas| == 128 && |s| == N && IsLen(len)
    ensures |r| == N && AllSmall(r)
  {
    seq(N, i requires 0 <= i < N => InvAt(zetas, s, len, i))
  }

  /** The forward levels still to run, from half-length len down to 2. */
  function FwdFrom(zetas: seq<i16>, s: seq<i16>, len: int): (r: seq<i16>)
    requires |zetas| == 128 && |s| == N && (len == 1 || IsLen(len))
    ensures |r| == N
    decreases len
  {
    if len == 1 then s else FwdFrom(zetas, FwdLayer(zetas, s, len), len / 2)
  }

  /** The inverse levels still to run, from half-length len up to 128. */
  function InvFrom(zetas: seq<i16>, s: seq<i16>, len: int): (r: seq<i16>)
    requires |zetas| == 128 && |s| == N && (len == 256 || IsLen(len))
    ensures |r| == N
    decreases 256 - len
  {
    if len == 256 then s else InvFrom(zetas, InvLayer(zetas, s, len), 2 * len)
  }

  /** What `ntt` leaves in its array. */
  function NttSpec(s: seq<i16>): seq<i16>
    requires |s| == N
  {
    FwdFrom(ZETAS, s, 128)
  }

  /** The final pass of `inv_ntt`: every coefficient through Scale. */
  function ScaleAll(t: seq<i16>): (r: seq<i16>)
    ensures |r| == |t| && AllSmall(r)
  {
    seq(|t|, i requires 0 <= i < |t| => Scale(t[i]))
  }

  /** What `inv_ntt` leaves in its array: the inverse levels, then the scaling pass. */
  function InvNttSpec(s: seq<i16>): seq<i16>
    requires |s| == N
  {
    ScaleAll(InvFrom(ZETAS, s, 2))
  }

  /** Where index i sits in block b of level len: which half, which zeta
      index each pass reads for it, and that its partner is inside 0..N. */
  lemma InBlock(len: int, b: int, i: int)
    requires IsLen(len) && 0 <= b < Blocks(len)
    requires 2 * len * b <= i < 2 * len * b + 2 * len
    ensures 0 <= i < N
    ensures i < 2 * len * b + len <==> i % (2 * len) < len
    ensures i < 2 * len * b + len ==> i + len < N
    ensures i >= 2 * len * b + len ==> i - len >= 0
    ensures FwdZeta(len, i) == Blocks(len) + b
    ensures InvZeta(len, i) == InvBase(len) - b
  {
    BlockBound(len, b);
    BlockOf(i, len, b);
  }

  /** Index j in the lower half of forward block b holds the lower butterfly output. */
  lemma FwdLayerAtLo(zetas: seq<i16>, s: seq<i16>, len: int, b: int, j: int)
    requires |zetas| == 128 && |s| == N && IsLen(len) && 0 <= b < Blocks(len)
    requires 2 * len * b <= j < 2 * len * b + len
    ensures j + len < N
    ensures FwdAt(zetas, s, len, j) == FwdLo(s[j], s[j + len], zetas[Blocks(len) + b])
  {
    InBlock(len, b, j);
  }

  /** Index i in the upper half of forward block b holds the upper butterfly output. */
  lemma FwdLayerAtHi(zetas: seq<i16>, s: seq<i16>, len: int, b: int, i: int)
    requires |zetas| == 128 && |s| == N && IsLen(len) && 0 <= b < Blocks(len)
    requires 2 * len * b + len <= i < 2 * len * b + 2 * len
    ensures i < N
    ensures FwdAt(zetas, s, len, i) == FwdHi(s[i - len], s[i], zetas[Blocks(len) + b])
  {
    InBlock(len, b, i);
  }

  lemma InvLayerAtLo(zetas: seq<i16>, s: seq<i16>, len: int, b: int, j: int)
    requires |zetas| == 128 && |s| == N && IsLen(len) && 0 <= b < Blocks(len)
    requires 2 * len * b <= j < 2 * len * b + len
    ensures j + len < N
    ensures InvAt(zetas, s, len, j) == InvLo(s[j], s[j + len])
  {
    InBlock(len, b, j);
  }

  lemma InvLayerAtHi(zetas: seq<i16>, s: seq<i16>, len: int, b: int, i: int)
    requires |zetas| == 128 && |s| == N && IsLen(len) && 0 <= b < Blocks(len)
    requires 2 * len * b + len <= i < 2 * len * b + 2 * len
    ensures i < N
    ensures InvAt(zetas, s, len, i) == InvHi(s[i - len], s[i], zetas[InvBase(len) - b])
  {
    InBlock(len, b, i);
  }

  /** The values forward level len writes into block b are its butterflies,
      all with the zeta of index Blocks(len) + b. */
  lemma FwdBlockValues(zetas: seq<i16>, s: seq<i16>, want: seq<i16>, len: int, b: int, start: int, zeta: i16)
    requires |zetas| == 128 && |s| == N && IsLen(len) && want == FwdLayer(zetas, s, len)
    requires 0 <= b < Blocks(len) && start == 2 * len * b && zeta == zetas[Blocks(len) + b]
    ensures 0 <= start && start + 2 * len <= N
    ensures forall j :: start <= j < start + len ==> want[j] == FwdLo(s[j], s[j + len], zeta)
    ensures forall i :: start + len <= i < start + 2 * len ==> want[i] == FwdHi(s[i - len], s[i], zeta)
  {
    BlockBound(len, b);
    forall j | start <= j < start + len
      ensures want[j] == FwdLo(s[j], s[j + len], zeta)
    {
      FwdLayerAtLo(zetas, s, len, b, j);
      assert want[j] == FwdAt(zetas, s, len, j);
    }
    forall i | start + len <= i < start + 2 * len
      ensures want[i] == FwdHi(s[i - len], s[i], zeta)
    {
      FwdLayerAtHi(zetas, s, len, b, i);
      assert want[i] == FwdAt(zetas, s, len, i);
    }
  }

  /** The values inverse level len writes into block b. */
  lemma InvBlockValues(zetas: seq<i16>, s: seq<i16>, want: seq<i16>, len: int, b: int, start: int, zeta: i16)
    requires |zetas| == 128 && |s| == N && IsLen(len) && want == InvLayer(zetas, s, len)
    requires 0 <= b < Blocks(len) && start == 2 * len * b && zeta == zetas[InvBase(len) - b]
    ensures 0 <= start && start + 2 * len <= N
    ensures forall j :: start <= j < start + len ==> want[j] == InvLo(s[j], s[j + len])
    ensures forall i :: start + len <= i < start + 2 * len ==> want[i] == InvHi(s[i - len], s[i], zeta)
  {
    BlockBound(len, b);
    forall j | start <= j < start + len
      ensures want[j] == InvLo(s[j], s[j + len])
    {
      InvLayerAtLo(zetas, s, len, b, j);
      assert want[j] == InvAt(zetas, s, len, j);
    }
    forall i | start + len <= i < start + 2 * len
      ensures want[i] == InvHi(s[i - len], s[i], zeta)
    {
      InvLayerAtHi(zetas, s, len, b, i);
      assert want[i] == InvAt(zetas, s, len, i);
    }
  }

  // ---------------------------------------------------------------------
  // The same butterfly network in exact arithmetic
  // ---------------------------------------------------------------------

  /** Forward butterfly with exact integers and no reduction:
      (a, b) becomes (a + zeta * b, a - zeta * b). */
  function FwdExactAt(zetas: seq<i16>, s: seq<int>, len: int, i: int): int
    requires |zetas| == 128 && |s| == N && IsLen(len) && 0 <= i < N
  {
    PartnerInRange(i, len);
    var z := zetas[FwdZeta(len, i)];
    if i % (2 * len) < len then s[i] + z * s[i + len] else s[i - len] - z * s[i]
  }

  /** Inverse butterfly with exact integers: (a, b) becomes (a + b, zeta * (a - b)). */
  function InvExactAt(zetas: seq<i16>, s: seq<int>, len: int, i: int): int
    requires |zetas| == 128 && |s| == N && IsLen(len) && 0 <= i < N
  {
    PartnerInRange(i, len);
    var z := zetas[InvZeta(len, i)];
    if i % (2 * len) < len then s[i] + s[i + len] else z * (s[i - len] - s[i])
  }

  function FwdExactLayer(zetas: seq<i16>, s: seq<int>, len: int): (r: seq<int>)
    requires |zetas| == 128 && |s| == N && IsLen(len)
    ensures |r| == N
  {
    seq(N, i requires 0 <= i < N => FwdExactAt(zetas, s, len, i))
  }

  function InvExactLayer(zetas: seq<i16>, s: seq<int>, len: int): (r: seq<int>)
    requires |zetas| == 128 && |s| == N && IsLen(len)
    ensures |r| == N
  {
    seq(N, i requires 0 <= i < N => InvExactAt(zetas, s, len, i))
  }

  /** Every coefficient times c. */
  function ScaleExact(c: int, e: seq<int>): (r: seq<int>)
    ensures |r| == |e|
  {
    seq(|e|, i requires 0 <= i < |e| => c * e[i])
  }

  function FwdExactFrom(zetas: seq<i16>, s: seq<int>, len: int): (r: seq<int>)
    requires |zetas| == 128 && |s| == N && (len == 1 || IsLen(len))
    ensures |r| == N
    decreases len
  {
    if len == 1 then s else FwdExactFrom(zetas, FwdExactLayer(zetas, s, len), len / 2)
  }

  function InvExactFrom(zetas: seq<i16>, s: seq<int>, len: int): (r: seq<int>)
    requires |zetas| == 128 && |s| == N && (len == 256 || IsLen(len))
    ensures |r| == N
    decreases 256 - len
  {
    if len == 256 then s else InvExactFrom(zetas, InvExactLayer(zetas, s, len), 2 * len)
  }

  /** Element-wise congruence modulo Q. */
  predicate CongSeq(a: seq<int>, b: seq<int>)
  {
    |a| == |b| && forall i :: 0 <= i < |a| ==> Cong(a[i], b[i])
  }

  predicate AllFwdNoWrap(s: seq<int>)
  {
    forall i :: 0 <= i < |s| ==> FwdNoWrap(s[i])
  }

  /** One forward level on inputs that do not make its casts wrap computes
      the exact level modulo Q, whatever exact values it is congruent to. */
  lemma FwdLayerCong(zetas: seq<i16>, s: seq<i16>, m: seq<int>, len: int)
    requires |zetas| == 128 && |s| == N && IsLen(len)
    requires AllFwdNoWrap(s) && CongSeq(s, m)
    ensures CongSeq(FwdLayer(zetas, s, len), FwdExactLayer(zetas, m, len))
  {
    forall i | 0 <= i < N
      ensures Cong(FwdLayer(zetas, s, len)[i], FwdExactLayer(zetas, m, len)[i])
    {
      FwdAtCong(zetas, s, m, len, i);
      assert FwdExactLayer(zetas, m, len)[i] == FwdExactAt(zetas, m, len, i);
    }
  }

  lemma FwdAtCong(zetas: seq<i16>, s: seq<i16>, m: seq<int>, len: int, i: int)
    requires |zetas| == 128 && |s| == N && IsLen(len) && 0 <= i < N
    requires AllFwdNoWrap(s) && CongSeq(s, m)
    ensures Cong(FwdAt(zetas, s, len, i), FwdExactAt(zetas, m, len, i))
  {
    PartnerInRange(i, len);
    var z := zetas[FwdZeta(len, i)];
    var e := FwdExactAt(zetas, m, len, i);
    var j := if i % (2 * len) < len then i else i - len;
    FwdButterflyCong(s[j], s[j + len], z);
    CongMulLeft(z, s[j + len], m[j + len]);
    CongAdd(s[j], m[j], z * s[j + len], z * m[j + len]);
    if i % (2 * len) < len {
      assert e == m[j] + z * m[j + len];
      CongTrans(FwdLo(s[j], s[j + len], z), s[j] + z * s[j + len], e);
    } else {
      assert e == m[j] - z * m[j + len];
      CongTrans(FwdHi(s[j], s[j + len], z), s[j] - z * s[j + len], e);
    }
  }

  /** One inverse level on inputs in (-Q, Q) computes the exact level modulo Q. */
  lemma InvLayerCong(zetas: seq<i16>, s: seq<i16>, m: seq<int>, len: int)
    requires |zetas| == 128 && |s| == N && IsLen(len)
    requires AllSmall(s) && CongSeq(s, m)
    ensures CongSeq(InvLayer(zetas, s, len), InvExactLayer(zetas, m, len))
  {
    forall i | 0 <= i < N
      ensures Cong(InvLayer(zetas, s, len)[i], InvExactLayer(zetas, m, len)[i])
    {
      InvAtCong(zetas, s, m, len, i);
      assert InvExactLayer(zetas, m, len)[i] == InvExactAt(zetas, m, len, i);
    }
  }

  lemma InvAtCong(zetas: seq<i16>, s: seq<i16>, m: seq<int>, len: int, i: int)
    requires |zetas| == 128 && |s| == N && IsLen(len) && 0 <= i < N
    requires AllSmall(s) && CongSeq(s, m)
    ensures Cong(InvAt(zetas, s, len, i), InvExactAt(zetas, m, len, i))
  {
    PartnerInRange(i, len);
    var z := zetas[InvZeta(len, i)];
    var e := InvExactAt(zetas, m, len, i);
    if i % (2 * len) < len {
      InvButterflyCong(s[i], s[i + len], z);
      CongAdd(s[i], m[i], s[i + len], m[i + len]);
      assert e == m[i] + m[i + len];
      CongTrans(InvLo(s[i], s[i + len]), s[i] + s[i + len], e);
    } else {
      var j := i - len;
      InvButterflyCong(s[j], s[i], z);
      CongAdd(s[j], m[j], s[i], m[i]);
      CongMulLeft(z, s[j] - s[i], m[j] - m[i]);
      assert e == z * (m[j] - m[i]);
      CongTrans(InvHi(s[j], s[i], z), z * (s[j] - s[i]), e);
    }
  }

  /** Every level's output lies in (-Q, Q), so only the first level of a
      pass can wrap. */
  lemma FwdFromCong(zetas: seq<i16>, s: seq<i16>, m: seq<int>, len: int)
    requires |zetas| == 128 && |s| == N && (len == 1 || IsLen(len))
    requires AllFwdNoWrap(s) && CongSeq(s, m)
    ensures CongSeq(FwdFrom(zetas, s, len), FwdExactFrom(zetas, m, len))
    decreases len
  {
    if len != 1 {
      FwdLayerCong(zetas, s, m, len);
      LevelCounts(len);
      FwdFromCong(zetas, FwdLayer(zetas, s, len), FwdExactLayer(zetas, m, len), len / 2);
    }
  }

  lemma InvFromCong(zetas: seq<i16>, s: seq<i16>, m: seq<int>, len: int)
    requires |zetas| == 128 && |s| == N && (len == 256 || IsLen(len))
    requires AllSmall(s) && CongSeq(s, m)
    ensures CongSeq(InvFrom(zetas, s, len), InvExactFrom(zetas, m, len))
    decreases 256 - len
  {
    if len != 256 {
      InvLayerCong(zetas, s, m, len);
      LevelCounts(len);
      InvFromCong(zetas, InvLayer(zetas, s, len), InvExactLayer(zetas, m, len), len * 2);
    }
  }

  /** Forward levels from half-length len down leave every coefficient in (-Q, Q). */
  lemma {:induction false} FwdFromSmall(zetas: seq<i16>, s: seq<i16>, len: int)
    requires |zetas| == 128 && |s| == N && IsLen(len)
    ensures AllSmall(FwdFrom(zetas, s, len))
    decreases len
  {
    LevelCounts(len);
    if len / 2 != 1 {
      FwdFromSmall(zetas, FwdLayer(zetas, s, len), len / 2);
    }
  }

  /** `ntt` leaves every coefficient in (-Q, Q), with either sign. */
  lemma NttRange(s: seq<i16>)
    requires |s| == N
    ensures AllSmall(NttSpec(s))
  {
    FwdFromSmall(ZETAS, s, 128);
  }

  /** For input whose coefficients keep the first level's casts from wrapping
      (every value in (-Q, Q) or in [0, 8192) does), `ntt` computes the
      seven Cooley-Tukey levels of the zeta table exactly, modulo Q. */
  lemma NttCongExact(s: seq<i16>)
    requires |s| == N && AllFwdNoWrap(s)
    ensures CongSeq(NttSpec(s), FwdExactFrom(ZETAS, s, 128))
  {
    FwdFromCong(ZETAS, s, s, 128);
  }

  /** The scaling pass multiplies by Q_INV modulo Q. */
  lemma ScaleAllCong(t: seq<i16>, e: seq<int>)
    requires CongSeq(t, e)
    ensures CongSeq(ScaleAll(t), ScaleExact(Q_INV, e))
  {
    forall i | 0 <= i < |t|
      ensures Cong(ScaleAll(t)[i], ScaleExact(Q_INV, e)[i])
    {
      assert Cong(Scale(t[i]), t[i] * Q_INV);
      CongMulLeft(Q_INV, t[i], e[i]);
      CongTrans(Scale(t[i]), Q_INV * t[i], Q_INV * e[i]);
    }
  }

  /** For input in (-Q, Q), `inv_ntt` computes the seven Gentleman-Sande
      levels of the zeta table exactly, then multiplies by Q_INV, modulo Q. */
  lemma InvNttCongExact(s: seq<i16>)
    requires |s| == N && AllSmall(s)
    ensures CongSeq(InvNttSpec(s), ScaleExact(Q_INV, InvExactFrom(ZETAS, s, 2)))
  {
    InvFromCong(ZETAS, s, s, 2);
    ScaleAllCong(InvFrom(ZETAS, s, 2), InvExactFrom(ZETAS, s, 2));
  }

  // ---------------------------------------------------------------------
  // The in-place loops
  // ---------------------------------------------------------------------

  /** Forward NTT in place. `used` lists the zeta indices in the order the
      loop reads them: 1, 2, ..., 127. */
  method Ntt(p: array<i16>) returns (ghost used: seq<int>)
    requires p.Length == N
    modifies p
    ensures p[..] == NttSpec(old(p[..]))
    ensures AllSmall(p[..])
    ensures used == seq(127, n => n + 1)
  {
    var k := 1;
    var len := 128;
    used := [];
    while len >= 2
      invariant len == 1 || IsLen(len)
      invariant k == Blocks(len)
      invariant |used| == k - 1 && forall n :: 0 <= n < |used| ==> used[n] == n + 1
      invariant FwdFrom(ZETAS, p[..], len) == NttSpec(old(p[..]))
    {
      LevelCounts(len);
      ghost var more;
      k, more := FwdLevel(p, ZETAS, len, k);
      used := used + more;
      len := len / 2;
    }
    assert len == 1 && k == 128;
    assert used == seq(127, n => n + 1);
    NttRange(old(p[..]));
  }

  /** One forward level of half-length len: block by block, each with the
      next entry of the zeta table. Returns the advanced zeta counter and
      the indices read. */
  method FwdLevel(p: array<i16>, zetas: seq<i16>, len: int, k0: int) returns (k: int, ghost used: seq<int>)
    requires p.Length == N && |zetas| == 128 && IsLen(len) && k0 == Blocks(len)
    modifies p
    ensures p[..] == FwdLayer(zetas, old(p[..]), len)
    ensures k == k0 + Blocks(len) && used == seq(Blocks(len), n => k0 + n)
  {
    ghost var s := p[..];
    ghost var want := FwdLayer(zetas, s, len);
    k := k0;
    used := [];
    var start := 0;
    ghost var b := 0;
    while start < N
      invariant 0 <= b <= Blocks(len) && start == 2 * len * b
      invariant k == k0 + b
      invariant |used| == b && forall n :: 0 <= n < b ==> used[n] == k0 + n
      invariant forall i :: 0 <= i < start ==> p[i] == want[i]
      invariant forall i :: start <= i < N ==> p[i] == s[i]
    {
      BlockBound(len, b);
      var zeta := zetas[k];
      FwdBlockValues(zetas, s, want, len, b, start, zeta);
      used := used + [k];
      k := k + 1;
      FwdBlock(p, s, want, len, start, zeta);
      start := start + 2 * len;
      b := b + 1;
    }
    BlockBound(len, b);
    assert p[..] == want;
  }

  /** The butterflies of one forward block `[start, start + 2len)` with a
      fixed zeta: they write exactly that block, with the butterfly outputs
      of the pre-level values `s`, which `want` lists. */
  method FwdBlock(p: array<i16>, ghost s: seq<i16>, ghost want: seq<i16>, len: int, start: int, zeta: i16)
    requires p.Length == N && |s| == N && |want| == N
    requires 1 <= len && 0 <= start && start + 2 * len <= N
    requires forall j :: start <= j < start + len ==> want[j] == FwdLo(s[j], s[j + len], zeta)
    requires forall i :: start + len <= i < start + 2 * len ==> want[i] == FwdHi(s[i - len], s[i], zeta)
    requires forall i :: 0 <= i < start ==> p[i] == want[i]
    requires forall i :: start <= i < N ==> p[i] == s[i]
    modifies p
    ensures forall i :: 0 <= i < start + 2 * len ==> p[i] == want[i]
    ensures forall i :: start + 2 * len <= i < N ==> p[i] == s[i]
  {
    var j := start;
    while j < start + len
      invariant start <= j <= start + len
      invariant forall i :: 0 <= i < j ==> p[i] == want[i]
      invariant forall i :: j <= i < start + len ==> p[i] == s[i]
      invariant forall i :: start + len <= i < j + len ==> p[i] == want[i]
      invariant forall i :: j + len <= i < N ==> p[i] == s[i]
    {
      FwdButterfly(p, j, len, zeta);
      j := j + 1;
    }
  }

  /** One forward butterfly on the pair (j, j + len); nothing else changes. */
  method FwdButterfly(p: array<i16>, j: int, len: int, zeta: i16)
    requires p.Length == N && 0 <= j && 1 <= len && j + len < N
    modifies p
    ensures p[j] == FwdLo(old(p[j]), old(p[j + len]), zeta)
    ensures p[j + len] == FwdHi(old(p[j]), old(p[j + len]), zeta)
    ensures forall i :: 0 <= i < N && i != j && i != j + len ==> p[i] == old(p[i])
  {
    var t := RemQ(zeta * p[j + len]);
    p[j + len] := RemQ(Wrap16(p[j] - t + Q));
    p[j] := RemQ(Wrap16(p[j] + t));
  }

  /** Inverse NTT in place, followed by the Q_INV scaling pass. `used` lists
      the zeta indices in the order the loop reads them: 127, 126, ..., 1. */
  method InvNtt(p: array<i16>) returns (ghost used: seq<int>)
    requires p.Length == N
    modifies p
    ensures p[..] == InvNttSpec(old(p[..]))
    ensures AllSmall(p[..])
    ensures used == seq(127, n => 127 - n)
  {
    var k := 127;
    var len := 2;
    used := [];
    while len <= 128
      invariant len == 256 || IsLen(len)
      invariant k == InvBase(len)
      invariant |used| == 127 - k && forall n :: 0 <= n < |used| ==> used[n] == 127 - n
      invariant InvFrom(ZETAS, p[..], len) == InvFrom(ZETAS, old(p[..]), 2)
    {
      LevelCounts(len);
      ghost var more;
      k, more := InvLevel(p, ZETAS, len, k);
      used := used + more;
      len := len * 2;
    }
    assert len == 256 && k == 0;
    assert used == seq(127, n => 127 - n);
    assert p[..] == InvFrom(ZETAS, old(p[..]), 2);
    ScalePass(p);
  }

  /** The closing loop of `inv_ntt`: `p[i] = (p[i] * Q_INV) % Q` for every i. */
  method ScalePass(p: array<i16>)
    modifies p
    ensures p[..] == ScaleAll(old(p[..]))
  {
    for i := 0 to p.Length
      invariant forall n :: 0 <= n < i ==> p[n] == Scale(old(p[n]))
      invariant forall n :: i <= n < p.Length ==> p[n] == old(p[n])
    {
      p[i] := RemQ(p[i] * Q_INV);
    }
  }

  /** One inverse level of half-length len; the zeta counter runs downwards. */
  method InvLevel(p: array<i16>, zetas: seq<i16>, len: int, k0: int) returns (k: int, ghost used: seq<int>)
    requires p.Length == N && |zetas| == 128 && IsLen(len) && k0 == InvBase(len)
    modifies p
    ensures p[..] == InvLayer(zetas, old(p[..]), len)
    ensures k == k0 - Blocks(len) && used == seq(Blocks(len), n => k0 - n)
  {
    ghost var s := p[..];
    ghost var want := InvLayer(zetas, s, len);
    k := k0;
    used := [];
    var start := 0;
    ghost var b := 0;
    while start < N
      invariant 0 <= b <= Blocks(len) && start == 2 * len * b
      invariant k == k0 - b
      invariant |used| == b && forall n :: 0 <= n < b ==> used[n] == k0 - n
      invariant forall i :: 0 <= i < start ==> p[i] == want[i]
      invariant forall i :: start <= i < N ==> p[i] == s[i]
    {
      BlockBound(len, b);
      var zeta := zetas[k];
      InvBlockValues(zetas, s, want, len, b, start, zeta);
      used := used + [k];
      k := k - 1;
      InvBlock(p, s, want, len, start, zeta);
      start := start + 2 * len;
      b := b + 1;
    }
    BlockBound(len, b);
    assert p[..] == want;
  }

  /** The butterflies of one inverse block `[start, start + 2len)` with a
      fixed zeta. */
  method InvBlock(p: array<i16>, ghost s: seq<i16>, ghost want: seq<i16>, len: int, start: int, zeta: i16)
    requires p.Length == N && |s| == N && |want| == N
    requires 1 <= len && 0 <= start && start + 2 * len <= N
    requires forall j :: start <= j < start + len ==> want[j] == InvLo(s[j], s[j + len])
    requires forall i :: start + len <= i < start + 2 * len ==> want[i] == InvHi(s[i - len], s[i], zeta)
    requires forall i :: 0 <= i < start ==> p[i] == want[i]
    requires forall i :: start <= i < N ==> p[i] == s[i]
    modifies p
    ensures forall i :: 0 <= i < start + 2 * len ==> p[i] == want[i]
    ensures forall i :: start + 2 * len <= i < N ==> p[i] == s[i]
  {
    var j := start;
    while j < start + len
      invariant start <= j <= start + len
      invariant forall i :: 0 <= i < j ==> p[i] == want[i]
      invariant forall i :: j <= i < start + len ==> p[i] == s[i]
      invariant forall i :: start + len <= i < j + len ==> p[i] == want[i]
      invariant forall i :: j + len <= i < N ==> p[i] == s[i]
    {
      InvButterfly(p, j, len, zeta);
      j := j + 1;
    }
  }

  /** One inverse butterfly on the pair (j, j + len); nothing else changes. */
  method InvButterfly(p: array<i16>, j: int, len: int, zeta: i16)
    requires p.Length == N && 0 <= j && 1 <= len && j + len < N
    modifies p
    ensures p[j] == InvLo(old(p[j]), old(p[j + len]))
    ensures p[j + len] == InvHi(old(p[j]), old(p[j + len]), zeta)
    ensures forall i :: 0 <= i < N && i != j && i != j + len ==> p[i] == old(p[i])
  {
    var t: int := p[j];
    p[j] := RemQ(Wrap16(t + p[j + len]));
    p[j + len] := RemQ(Wrap16(Wrap16(t - p[j + len]) + Q));
    p[j + len] := RemQ(zeta * p[j + len]);
  }
}

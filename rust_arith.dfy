/** The fixed-width Rust integer operations the arithmetic code relies on,
    written over unbounded integers: two's-complement truncation to i16,
    the truncating remainder by Q, and congruence modulo Q. */
module RustArith {
  import opened Params

  type i16 = x: int | -0x8000 <= x < 0x8000
  type u8 = x: int | 0 <= x < 0x100

  /** A byte of a buffer, as the bit pattern the bitwise operators act on. */
  type byte = bv8

  predicate InI32(x: int) { -0x8000_0000 <= x < 0x8000_0000 }

  /** x and y are congruent modulo Q. */
  predicate Cong(x: int, y: int) { (x - y) % Q == 0 }

  /** Strictly inside (-Q, Q): the range a truncating `% Q` produces. */
  predicate Small(x: int) { -Q < x < Q }

  predicate AllSmall(s: seq<int>) { forall i :: 0 <= i < |s| ==> Small(s[i]) }

  /** `x as i16` (and the wrapping i16 `+`/`-` of a release build): keep the
      low 16 bits and read them in two's complement. */
  function Wrap16(x: int): (r: i16)
    ensures -0x8000 <= x < 0x8000 ==> r == x
    ensures (r - x) % 0x1_0000 == 0
  {
    (x + 0x8000) % 0x1_0000 - 0x8000
  }

  /** Rust's `x % Q`: the remainder takes the sign of the dividend. */
  function RemQ(x: int): (r: int)
    ensures Small(r) && Cong(r, x)
    ensures x >= 0 ==> r >= 0
    ensures x <= 0 ==> r <= 0
  {
    if x >= 0 then x % Q else -((-x) % Q)
  }

  /** A difference that is a multiple of Q is a congruence. */
  lemma CongByMultiple(x: int, y: int, m: int)
    requires x - y == Q * m
    ensures Cong(x, y)
  {
  }

  lemma CongTrans(x: int, y: int, z: int)
    requires Cong(x, y) && Cong(y, z)
    ensures Cong(x, z)
  {
    CongByMultiple(x, z, (x - y) / Q + (y - z) / Q);
  }

  /** Congruences add up. */
  lemma CongAdd(x1: int, y1: int, x2: int, y2: int)
    requires Cong(x1, y1) && Cong(x2, y2)
    ensures Cong(x1 + x2, y1 + y2) && Cong(x1 - x2, y1 - y2)
  {
    CongByMultiple(x1 + x2, y1 + y2, (x1 - y1) / Q + (x2 - y2) / Q);
    CongByMultiple(x1 - x2, y1 - y2, (x1 - y1) / Q - (x2 - y2) / Q);
  }

  /** Congruence is preserved by multiplication on the left. */
  lemma CongMulLeft(z: int, x: int, y: int)
    requires Cong(x, y)
    ensures Cong(z * x, z * y)
  {
    var m := (x - y) / Q;
    assert x - y == Q * m;
    calc {
      z * x - z * y;
      z * (x - y);
      z * (Q * m);
      Q * (z * m);
    }
    CongByMultiple(z * x, z * y, z * m);
  }

  /** Two i16 values multiply without leaving the i32 range. */
  lemma MulFitsI32(a: i16, b: i16)
    ensures InI32(a * b)
  {
    var ua: nat := if a < 0 then -(a as int) else a;
    var ub: nat := if b < 0 then -(b as int) else b;
    MulBelow(ua, ub, 0x8000);
    MulBelow(ub, 0x8000, 0x8000);
    assert a * b == ua * ub || a * b == -(ua * ub);
  }

  lemma MulBelow(x: nat, y: nat, c: nat)
    requires x <= c
    ensures x * y <= c * y
  {
    assert c * y - x * y == (c - x) * y;
  }

  /** A number below 256 survives the trip through a byte. */
  lemma ByteValue(n: int)
    requires 0 <= n < 0x100
    ensures (n as byte) as int == n
  {
    assert n % 0x100 == n;
  }
}

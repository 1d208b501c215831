/** The polynomial type of src/poly.rs: N i16 coefficients held in a
    fixed-size array that the methods update in place. */
module Polynomial {
  import opened Params
  import opened RustArith
  import Transform = Ntt

  /** One coefficient of `add`: i16 `(a + b) % Q`. When the sum does not wrap
      it is a + b modulo Q, and it keeps the sign of the sum; canonical
      inputs give a canonical output. */
  function AddCoeff(a: i16, b: i16): (r: i16)
    ensures Small(r)
    ensures -0x8000 <= a + b < 0x8000 ==> Cong(r, a + b) && (a + b >= 0 ==> r >= 0)
    ensures 0 <= a < Q && 0 <= b < Q ==> 0 <= r < Q && Cong(r, a + b)
  {
    RemQ(Wrap16(a + b))
  }

  /** One coefficient of `sub`: i16 `(a - b + Q) % Q`. When neither i16
      operation wraps it is a - b modulo Q; canonical inputs give a
      canonical output. */
  function SubCoeff(a: i16, b: i16): (r: i16)
    ensures Small(r)
    ensures -0x8000 <= a - b && a - b + Q < 0x8000 ==> Cong(r, a - b) && (a - b + Q >= 0 ==> r >= 0)
    ensures 0 <= a < Q && 0 <= b < Q ==> 0 <= r < Q && Cong(r, a - b)
  {
    RemQ(Wrap16(Wrap16(a - b) + Q))
  }

  /** One coefficient of `pointwise_mul`: `((a as i32 * b as i32) % Q) as i16`.
      The i32 product never overflows and the final cast never wraps: the
      result is a * b modulo Q, strictly inside (-Q, Q), and non-negative
      when the product is. */
  function MulCoeff(a: i16, b: i16): (r: i16)
    ensures InI32(a * b)
    ensures Small(r) && Cong(r, a * b)
    ensures a * b >= 0 ==> r >= 0
    ensures 0 <= a && 0 <= b ==> 0 <= r < Q
  {
    MulFitsI32(a, b);
    MulSign(a, b);
    Wrap16(RemQ(a * b))
  }

  lemma MulSign(a: int, b: int)
    ensures 0 <= a && 0 <= b ==> a * b >= 0
  {
    if 0 <= a && 0 <= b {
      MulBelow(0, b, a);
    }
  }

  /** The N-coefficient all-zero polynomial. */
  function Zero(): (r: seq<i16>)
    ensures |r| == N && forall i :: 0 <= i < N ==> r[i] == 0
  {
    seq(N, i => 0)
  }

  /** Coefficient-wise sum: index i depends on index i of each operand only. */
  function AddAll(a: seq<i16>, b: seq<i16>): (r: seq<i16>)
    requires |a| == |b|
    ensures |r| == |a|
  {
    seq(|a|, i requires 0 <= i < |a| => AddCoeff(a[i], b[i]))
  }

  function SubAll(a: seq<i16>, b: seq<i16>): (r: seq<i16>)
    requires |a| == |b|
    ensures |r| == |a|
  {
    seq(|a|, i requires 0 <= i < |a| => SubCoeff(a[i], b[i]))
  }

  function MulAll(a: seq<i16>, b: seq<i16>): (r: seq<i16>)
    requires |a| == |b|
    ensures |r| == |a|
  {
    seq(|a|, i requires 0 <= i < |a| => MulCoeff(a[i], b[i]))
  }

  /** Every coefficient in the canonical range [0, Q). */
  predicate Canonical(s: seq<int>)
  {
    forall i :: 0 <= i < |s| ==> 0 <= s[i] < Q
  }

  /** On canonical operands `add` stays canonical and computes a + b modulo Q
      at every index. */
  lemma AddCanonical(a: seq<i16>, b: seq<i16>)
    requires |a| == |b| && Canonical(a) && Canonical(b)
    ensures Canonical(AddAll(a, b))
    ensures forall i :: 0 <= i < |a| ==> Cong(AddAll(a, b)[i], a[i] as int + b[i])
  {
    forall i | 0 <= i < |a|
      ensures 0 <= AddAll(a, b)[i] < Q && Cong(AddAll(a, b)[i], a[i] as int + b[i])
    {
      assert AddAll(a, b)[i] == AddCoeff(a[i], b[i]);
    }
  }

  /** On canonical operands `sub` stays canonical and computes a - b modulo Q. */
  lemma SubCanonical(a: seq<i16>, b: seq<i16>)
    requires |a| == |b| && Canonical(a) && Canonical(b)
    ensures Canonical(SubAll(a, b))
    ensures forall i :: 0 <= i < |a| ==> Cong(SubAll(a, b)[i], a[i] as int - b[i])
  {
    forall i | 0 <= i < |a|
      ensures 0 <= SubAll(a, b)[i] < Q && Cong(SubAll(a, b)[i], a[i] as int - b[i])
    {
      assert SubAll(a, b)[i] == SubCoeff(a[i], b[i]);
    }
  }

  /** `pointwise_mul` computes a * b modulo Q at every index, inside (-Q, Q)
      for any operands and canonical for non-negative ones. */
  lemma MulProduct(a: seq<i16>, b: seq<i16>)
    requires |a| == |b|
    ensures AllSmall(MulAll(a, b))
    ensures forall i :: 0 <= i < |a| ==> Cong(MulAll(a, b)[i], a[i] as int * b[i])
    ensures (forall i :: 0 <= i < |a| ==> a[i] >= 0 && b[i] >= 0) ==> Canonical(MulAll(a, b))
  {
    forall i | 0 <= i < |a|
      ensures Small(MulAll(a, b)[i]) && Cong(MulAll(a, b)[i], a[i] as int * b[i])
      ensures a[i] >= 0 && b[i] >= 0 ==> 0 <= MulAll(a, b)[i] < Q
    {
      assert MulAll(a, b)[i] == MulCoeff(a[i], b[i]);
    }
  }

  /** `Poly`: a polynomial whose coefficients live in its own array. */
  class Poly {
    const coeffs: array<i16>

    predicate Valid()
    {
      coeffs.Length == N
    }

    /** `Poly::new()` and `Poly::default()`: N zero coefficients. */
    constructor ()
      ensures Valid() && fresh(coeffs)
      ensures coeffs[..] == Zero()
    {
      coeffs := new i16[N](i => 0);
    }

    /** `add`: every coefficient replaced by AddCoeff of itself and b's. */
    method Add(b: Poly)
      requires Valid() && b.Valid() && b.coeffs != coeffs
      modifies coeffs
      ensures coeffs[..] == AddAll(old(coeffs[..]), b.coeffs[..])
      ensures unchanged(b.coeffs)
    {
      for i := 0 to N
        invariant forall k :: 0 <= k < i ==> coeffs[k] == AddCoeff(old(coeffs[k]), b.coeffs[k])
        invariant forall k :: i <= k < N ==> coeffs[k] == old(coeffs[k])
      {
        var a: int := coeffs[i];
        coeffs[i] := RemQ(Wrap16(a + b.coeffs[i]));
      }
    }

    /** `sub`: every coefficient replaced by SubCoeff of itself and b's. */
    method Sub(b: Poly)
      requires Valid() && b.Valid() && b.coeffs != coeffs
      modifies coeffs
      ensures coeffs[..] == SubAll(old(coeffs[..]), b.coeffs[..])
      ensures unchanged(b.coeffs)
    {
      for i := 0 to N
        invariant forall k :: 0 <= k < i ==> coeffs[k] == SubCoeff(old(coeffs[k]), b.coeffs[k])
        invariant forall k :: i <= k < N ==> coeffs[k] == old(coeffs[k])
      {
        var a: int := coeffs[i];
        coeffs[i] := RemQ(Wrap16(Wrap16(a - b.coeffs[i]) + Q));
      }
    }

    /** `pointwise_mul`: every coefficient replaced by MulCoeff of itself and b's. */
    method PointwiseMul(b: Poly)
      requires Valid() && b.Valid() && b.coeffs != coeffs
      modifies coeffs
      ensures coeffs[..] == MulAll(old(coeffs[..]), b.coeffs[..])
      ensures unchanged(b.coeffs)
    {
      for i := 0 to N
        invariant forall k :: 0 <= k < i ==> coeffs[k] == MulCoeff(old(coeffs[k]), b.coeffs[k])
        invariant forall k :: i <= k < N ==> coeffs[k] == old(coeffs[k])
      {
        var a: int := coeffs[i];
        coeffs[i] := Wrap16(RemQ(a * b.coeffs[i]));
      }
    }

    /** `ntt`: the forward transform of src/ntt.rs on the coefficients. */
    method Ntt()
      requires Valid()
      modifies coeffs
      ensures coeffs[..] == Transform.NttSpec(old(coeffs[..]))
      ensures AllSmall(coeffs[..])
    {
      ghost var used := Transform.Ntt(coeffs);
    }

    /** `inv_ntt`: the inverse transform of src/ntt.rs on the coefficients. */
    method InvNtt()
      requires Valid()
      modifies coeffs
      ensures coeffs[..] == Transform.InvNttSpec(old(coeffs[..]))
      ensures AllSmall(coeffs[..])
    {
      ghost var used := Transform.InvNtt(coeffs);
    }
  }
}

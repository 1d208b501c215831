/** Compile-time parameters of the Kyber / ML-KEM engine: the ring constants
    shared by every security level and the three parameter modules with the
    byte sizes derived from them. Everything here is a constant. */
module Params {

  /** Ring dimension: every polynomial has N coefficients. */
  const N: nat := 256
  /** The prime modulus. */
  const Q: int := 3329
  /** The constant the inverse NTT multiplies by in its final pass. */
  const Q_INV: int := 62209

  /** The three parameter modules of the source. */
  datatype ParamSet = Kyber512 | Kyber768 | Kyber1024

  /** Outcome of the feature-driven re-export: one set, or two glob
      re-exports of the same names when both features are on. */
  datatype Selection = Selected(ps: ParamSet) | Ambiguous

  /** Which parameter set the crate re-exports for the given cargo features. */
  function Select(kyber768: bool, kyber1024: bool): Selection
  {
    if kyber768 && kyber1024 then Ambiguous
    else if kyber768 then Selected(Kyber768)
    else if kyber1024 then Selected(Kyber1024)
    else Selected(Kyber512)
  }

  function K(ps: ParamSet): nat
  {
    match ps
    case Kyber512 => 2
    case Kyber768 => 3
    case Kyber1024 => 4
  }

  function Eta1(ps: ParamSet): nat
  {
    match ps
    case Kyber512 => 3
    case Kyber768 => 2
    case Kyber1024 => 2
  }

  function Eta2(ps: ParamSet): nat { 2 }

  function Du(ps: ParamSet): nat
  {
    if ps == Kyber1024 then 11 else 10
  }

  function Dv(ps: ParamSet): nat
  {
    if ps == Kyber1024 then 5 else 4
  }

  function PolyBytes(ps: ParamSet): nat { 384 }

  function PolyVecBytes(ps: ParamSet): nat { K(ps) * PolyBytes(ps) }

  function PolyCompressedBytes(ps: ParamSet): nat
  {
    if ps == Kyber1024 then 160 else 128
  }

  function PolyVecCompressedBytes(ps: ParamSet): nat
  {
    K(ps) * (if ps == Kyber1024 then 352 else 320)
  }

  function SecretKeyBytes(ps: ParamSet): nat { PolyVecBytes(ps) }

  function PublicKeyBytes(ps: ParamSet): nat { PolyVecBytes(ps) + 32 }

  function CiphertextBytes(ps: ParamSet): nat
  {
    PolyVecCompressedBytes(ps) + PolyCompressedBytes(ps)
  }

  function SharedSecretBytes(ps: ParamSet): nat { 32 }

  /** Bytes written by the 13-bit dense polynomial codec (8 coefficients per 13 bytes). */
  const DENSE_POLY_BYTES: nat := 13 * N / 8

  /** The default build (no feature) is kyber512, and only the two features
      together fail to pick a single set. */
  lemma SelectDefault(kyber768: bool, kyber1024: bool)
    ensures Select(kyber768, kyber1024) == Selected(Kyber512) <==> !kyber768 && !kyber1024
    ensures Select(kyber768, kyber1024) == Ambiguous <==> kyber768 && kyber1024
    ensures Select(kyber768, kyber1024).Selected? ==> K(Select(kyber768, kyber1024).ps) in {2, 3, 4}
  {
  }

  /** A public key is K serialised polynomials of 384 bytes plus the 32-byte seed. */
  lemma PublicKeyLayout(ps: ParamSet)
    ensures PublicKeyBytes(ps) == K(ps) * 384 + 32
    ensures PublicKeyBytes(ps) == (match ps case Kyber512 => 800 case Kyber768 => 1184 case Kyber1024 => 1568)
  {
  }

  /** The ciphertext size is K compressed polynomials of N*DU/8 bytes plus one
      of N*DV/8 bytes. */
  lemma CiphertextLayout(ps: ParamSet)
    ensures CiphertextBytes(ps) == K(ps) * (N * Du(ps) / 8) + N * Dv(ps) / 8
    ensures CiphertextBytes(ps) == (match ps case Kyber512 => 768 case Kyber768 => 1088 case Kyber1024 => 1568)
  {
  }

  /** The secret key holds the serialised secret vector and nothing else: it
      has no room for the public key, its hash and the rejection seed. */
  lemma SecretKeyHasNoTrailer(ps: ParamSet)
    ensures SecretKeyBytes(ps) == PolyVecBytes(ps)
    ensures SecretKeyBytes(ps) < PolyVecBytes(ps) + PublicKeyBytes(ps) + 32 + 32
  {
  }

  /** POLY_BYTES is the 12-bit size 12*N/8, smaller than the 13*N/8 bytes the
      dense codec writes for one polynomial. */
  lemma PolyBytesBelowDenseSize(ps: ParamSet)
    ensures PolyBytes(ps) == 12 * N / 8
    ensures DENSE_POLY_BYTES == 416 && PolyBytes(ps) < DENSE_POLY_BYTES
  {
  }

  /** The 4-bit compression routine writes N*4/8 = 128 bytes; only the
      kyber1024 set declares a different compressed size. */
  lemma CompressedSizeMatchesFourBits(ps: ParamSet)
    ensures PolyCompressedBytes(ps) == N * 4 / 8 <==> ps != Kyber1024
    ensures PolyCompressedBytes(ps) == N * Dv(ps) / 8
  {
  }

  /** Q_INV is the inverse of Q modulo 2^16 (not its negation), and modulo Q
      it is 2287, which differs from the inverse of N modulo Q (3316). */
  lemma QInvFacts()
    ensures (Q * Q_INV) % 65536 == 1
    ensures (Q * Q_INV + 1) % 65536 != 0
    ensures Q_INV % Q == 2287
    ensures (N * 3316) % Q == 1 && (N * 2287) % Q != 1
  {
  }

  lemma SharedSecretSize(ps: ParamSet)
    ensures SharedSecretBytes(ps) == 32
  {
  }

  /** The kyber512 set declares ETA1 = 3, a width the fixed 2-bit sampler
      does not produce; the other noise widths are 2. */
  lemma NoiseWidths(ps: ParamSet)
    ensures Eta2(ps) == 2
    ensures Eta1(ps) == 2 <==> ps != Kyber512
  {
  }
}

# Kyber polynomial arithmetic and codecs, in Dafny

This project models the arithmetic and byte-codec layer of a Rust Kyber /
ML-KEM crate and proves what that layer does. The layer covers:

- the parameter sets;
- the forward and inverse number-theoretic transform (NTT) over a 128-entry
  zeta table;
- the `Poly` type with its coefficient-wise operations;
- the centred-binomial noise sampler `cbd`;
- the rejection sampler `sample_ntt`;
- the 4-bit coefficient compression;
- the 13-bit dense polynomial serialization.

Every polynomial has N = 256 `i16` coefficients, and Q = 3329.

The model follows the source's own form:

- `ntt`, `inv_ntt`, the `Poly` methods and the buffer-filling loops of
  `src/utils.rs` are Dafny methods. They work in place on arrays, with loop
  invariants.
- Each method is proved against a specification function of its old state.
- The two 13-byte round functions are pure functions over bit-vectors.
- The parameter set is a datatype with functions for each constant.

Rust's fixed-width arithmetic is written out explicitly (module `RustArith`):

- `as i16` and the wrapping `i16` `+`/`-` of a release build keep the low
  16 bits and read them as two's complement (`Wrap16`).
- `%` is the truncating remainder, whose sign follows the dividend (`RemQ`).
- `u32` arithmetic wraps modulo 2^32 (`U32`).
- Bit operations on `i16` act on the 16-bit two's-complement pattern, with
  arithmetic `>>` (`Serialization.Bits`, `Serialization.Asr`).

Modules:

- `Params` models `src/params.rs`.
- `RustArith` holds the integer semantics shared by the other modules.
- `Ntt` models `src/ntt.rs`.
- `Polynomial` models `src/poly.rs`.
- `Sampling` models `cbd` and `sample_ntt` from `src/utils.rs`.
- `Compression` models `poly_compress` and `poly_decompress` from
  `src/utils.rs`.
- `Serialization` models `poly_to_bytes`, `poly_from_bytes` and the two
  round functions from `src/utils.rs`.

## Where the code differs from ML-KEM

FIPS 203 (ML-KEM) specifies canonical coefficients in [0, Q), an inverse
transform scaled by N⁻¹ modulo Q, a 12-bit mask on both sampling
candidates and a secret key that also holds the public key, its hash and
a rejection seed. The model follows the code, which differs as follows:

- **NTT range.** `ntt`, `inv_ntt` and `pointwise_mul` reduce with Rust's
  truncating `%`. Their outputs lie in (-Q, Q) and can be negative
  (`Ntt.NttRange`, `Polynomial.MulProduct`).
- **Scaling constant.** `Q_INV` = 62209 is the inverse of Q modulo 2^16, not
  its negation. Modulo Q it is 2287, not the inverse of N, which is 3316. The
  closing pass of `inv_ntt` therefore scales by 2287 (`Params.QInvFacts`,
  `Ntt.ScaleCong`).
- **`cbd` window.** `cbd` reads the word `buf[i..i+4]` for every i, so
  windows overlap and coefficient 4i + j depends on one byte only
  (`Sampling.CbdCoefficient`).
- **Noise width.** `cbd` always uses 2 bits, although kyber512 declares
  ETA1 = 3 (`Params.NoiseWidths`).
- **Unmasked candidate.** The first candidate of `sample_ntt` is not masked
  to 12 bits (`Sampling.FirstCandidateUnmasked`).
- **Compression width.** Compression is fixed at 4 bits, whatever DU and DV
  are (`Params.CompressedSizeMatchesFourBits`).
- **Negative compression input.** A negative input goes through `as u32` and
  wraps (`Compression.CompressNegativeWraps`).
- **Dense codec size.** The codec writes 13 bits per coefficient, 416 bytes
  per polynomial. `POLY_BYTES` is the 12-bit size 384
  (`Params.PolyBytesBelowDenseSize`).
- **Decoded range.** Decoded coefficients lie in [0, 2^13), not in [0, Q)
  (`Serialization.FromBytesRange`).
- **Lossy for negatives.** A negative coefficient corrupts its neighbour in
  the encoding (`Serialization.NegativeSpills`).
- **Secret key size.** The secret key size leaves no room for the public key,
  its hash or the rejection seed (`Params.SecretKeyHasNoTrailer`).

## Model

| member | source | states |
|---|---|---|
| Params.SelectDefault | src/params.rs:8-16 | `Select` (the feature flags) chooses kyber512 exactly when neither feature is on; both features together do not pick a single set; `K` is 2, 3 or 4 |
| Params.PublicKeyLayout | src/params.rs:25-30 | `PublicKeyBytes` (PUBLIC_KEY_BYTES, built from `PolyVecBytes` and `PolyBytes`) = K·384 + 32, i.e. 800, 1184, 1568 |
| Params.CiphertextLayout | src/params.rs:23-31 | `CiphertextBytes` (CIPHERTEXT_BYTES, built from `PolyVecCompressedBytes` and `PolyCompressedBytes`) = K·(N·`Du`/8) + N·`Dv`/8, i.e. 768, 1088, 1568 |
| Params.SecretKeyHasNoTrailer | src/params.rs:29 | `SecretKeyBytes` (SECRET_KEY_BYTES) = `PolyVecBytes`, smaller than the size that would also hold pk, H(pk) and z |
| Params.PolyBytesBelowDenseSize | src/params.rs:25 | `PolyBytes` (POLY_BYTES) = 12·N/8 = 384 < 416 = 13·N/8, the size the dense codec writes |
| Params.CompressedSizeMatchesFourBits | src/params.rs:56-59 | `PolyCompressedBytes` (POLY_COMPRESSED_BYTES) = N·`Dv`/8 in every set; it equals the 128 bytes of the 4-bit routine exactly when the set is not kyber1024 |
| Params.QInvFacts | src/params.rs:5-6 | Q·Q_INV ≡ 1 (mod 2^16), not −1; Q_INV ≡ 2287 (mod Q), which is not N⁻¹ (3316) |
| Params.SharedSecretSize | src/params.rs:32 | `SharedSecretBytes` (SHARED_SECRET_BYTES) = 32 |
| Params.NoiseWidths | src/params.rs:21-22 | `Eta2` (ETA2) = 2 everywhere; `Eta1` (ETA1) = 2 exactly when the set is not kyber512 |
| RustArith.Wrap16 | src/ntt.rs:30-31 | `as i16`: the identity on i16 values, and always congruent to its input modulo 2^16 |
| RustArith.RemQ | src/ntt.rs:29 | truncating `% Q`: in (−Q, Q), congruent to its input, with the sign of the dividend |
| Ntt.FwdLo | src/ntt.rs:29-31 | new p[j] of a forward butterfly lies in (−Q, Q) |
| Ntt.FwdHi | src/ntt.rs:29-30 | new p[j+len] of a forward butterfly lies in (−Q, Q) |
| Ntt.InvLo | src/ntt.rs:49-50 | new p[j] of an inverse butterfly lies in (−Q, Q) |
| Ntt.InvHi | src/ntt.rs:49-52 | new p[j+len] of an inverse butterfly lies in (−Q, Q) |
| Ntt.Scale | src/ntt.rs:60 | the final scaling of one coefficient lies in (−Q, Q) |
| Ntt.FwdButterflyCong | src/ntt.rs:29-31 | when p[j] keeps the casts from wrapping, nothing overflows: the i32 product fits, neither cast wraps, new p[j] ≡ p[j] + ζ·p[j+len] and new p[j+len] ≡ p[j] − ζ·p[j+len] |
| Ntt.InvButterflyCong | src/ntt.rs:49-52 | on a pair in (−Q, Q) no i16 operation wraps, the i32 product fits, new p[j] ≡ t + p[j+len] and new p[j+len] ≡ ζ·(t − p[j+len]) |
| Ntt.ScaleCong | src/ntt.rs:59-61 | the i32 product fits and the result is ≡ 2287·c (mod Q) |
| Ntt.Blocks | src/ntt.rs:24-33 | the number of blocks at half-length len is between 1 and 128 (at most 64 for a real level) |
| Ntt.InvBase | src/ntt.rs:41-47 | the first inverse zeta index of a level lies in 0..127 |
| Ntt.BlockOf | src/ntt.rs:24-33 | an index inside block b has block number i / 2len = b and offset i − 2len·b |
| Ntt.BlockBound | src/ntt.rs:25-33 | a block that starts below N ends within N, and the loop leaves with start = N after exactly Blocks(len) blocks |
| Ntt.LevelCounts | src/ntt.rs:21-57 | halving or doubling len keeps it a level; the forward counter doubles and the inverse counter steps down by Blocks(len) |
| Ntt.PartnerInRange | src/ntt.rs:28-31 | the butterfly partner i ± len of every index stays inside 0..N |
| Ntt.FwdZeta | src/ntt.rs:26-27 | the forward zeta index of any index lies in 1..127 |
| Ntt.InvZeta | src/ntt.rs:46-47 | the inverse zeta index of any index lies in 1..127 |
| Ntt.FwdAt | src/ntt.rs:28-31 | the value a forward level writes at an index lies in (−Q, Q) |
| Ntt.InvAt | src/ntt.rs:48-52 | the value an inverse level writes at an index lies in (−Q, Q) |
| Ntt.FwdLayer | src/ntt.rs:24-34 | one forward level yields N coefficients in (−Q, Q) |
| Ntt.InvLayer | src/ntt.rs:44-55 | one inverse level yields N coefficients in (−Q, Q) |
| Ntt.FwdFrom | src/ntt.rs:23-36 | the remaining forward levels yield N coefficients |
| Ntt.InvFrom | src/ntt.rs:43-57 | the remaining inverse levels yield N coefficients |
| Ntt.ScaleAll | src/ntt.rs:59-61 | the scaling pass keeps the length and yields coefficients in (−Q, Q) |
| Ntt.InBlock | src/ntt.rs:24-33 | inside block b: the lower half pairs with i + len and the upper half with i − len, both in range; the zeta is Blocks(len) + b going forward and InvBase(len) − b going back |
| Ntt.FwdLayerAtLo | src/ntt.rs:28-31 | the lower half of forward block b holds FwdLo of the pair with zeta Blocks(len) + b |
| Ntt.FwdLayerAtHi | src/ntt.rs:28-30 | the upper half of forward block b holds FwdHi of the pair |
| Ntt.InvLayerAtLo | src/ntt.rs:48-50 | the lower half of inverse block b holds InvLo of the pair |
| Ntt.InvLayerAtHi | src/ntt.rs:48-52 | the upper half of inverse block b holds InvHi of the pair with zeta InvBase(len) − b |
| Ntt.FwdBlockValues | src/ntt.rs:25-33 | a forward level's values in block b are the butterflies of that block only |
| Ntt.InvBlockValues | src/ntt.rs:45-55 | an inverse level's values in block b are the butterflies of that block only |
| Ntt.FwdExactLayer | src/ntt.rs:28-31 | the exact-integer forward level, (a, b) ↦ (a + ζb, a − ζb), has N coefficients |
| Ntt.InvExactLayer | src/ntt.rs:48-52 | the exact-integer inverse level, (a, b) ↦ (a + b, ζ(a − b)), has N coefficients |
| Ntt.FwdExactFrom | src/ntt.rs:23-36 | the exact forward levels have N coefficients |
| Ntt.InvExactFrom | src/ntt.rs:43-57 | the exact inverse levels have N coefficients |
| Ntt.ScaleExact | src/ntt.rs:59-61 | scaling by a constant keeps the length |
| Ntt.FwdAtCong | src/ntt.rs:28-31 | one forward output is congruent to the exact butterfly when the casts do not wrap |
| Ntt.FwdLayerCong | src/ntt.rs:24-34 | a forward level agrees modulo Q with the exact level when the casts do not wrap |
| Ntt.InvAtCong | src/ntt.rs:48-52 | one inverse output is congruent to the exact butterfly on inputs in (−Q, Q) |
| Ntt.InvLayerCong | src/ntt.rs:44-55 | an inverse level agrees modulo Q with the exact level on inputs in (−Q, Q) |
| Ntt.FwdFromCong | src/ntt.rs:23-36 | the remaining forward levels agree modulo Q with the exact levels |
| Ntt.InvFromCong | src/ntt.rs:43-57 | the remaining inverse levels agree modulo Q with the exact levels |
| Ntt.FwdFromSmall | src/ntt.rs:23-36 | after any forward level every coefficient lies in (−Q, Q), whatever the input |
| Ntt.NttRange | src/ntt.rs:20-37 | `NttSpec`, `ntt` as a value (all forward levels from len = 128 down to 2), leaves every coefficient in (−Q, Q) |
| Ntt.NttCongExact | src/ntt.rs:20-37 | for inputs that do not make the first level's casts wrap (every input in (−Q, Q) or in [0, 2^13), by `NoWrapInputs`), `NttSpec` is the exact Cooley-Tukey network modulo Q |
| Ntt.NoWrapInputs | src/ntt.rs:29-31 | every coefficient in (−Q, Q) and every 13-bit value keeps both casts of the first forward level from wrapping |
| Ntt.ScaleAllCong | src/ntt.rs:59-61 | the scaling pass multiplies by Q_INV modulo Q |
| Ntt.InvNttCongExact | src/ntt.rs:40-62 | on inputs in (−Q, Q), `InvNttSpec` (`inv_ntt` as a value: all inverse levels, then the scaling pass) is Q_INV times the exact Gentleman-Sande network, modulo Q |
| Ntt.Ntt | src/ntt.rs:20-37 | the array becomes the forward levels of its old contents, all in (−Q, Q); the zetas are read at indices 1, 2, …, 127, each once and in order |
| Ntt.FwdLevel | src/ntt.rs:24-34 | one pass of the `start` loop turns the array into the forward level of its old contents and reads zetas k0 … k0 + Blocks(len) − 1 |
| Ntt.FwdBlock | src/ntt.rs:28-32 | the `j` loop finishes block [start, start + 2len) and touches no other index |
| Ntt.FwdButterfly | src/ntt.rs:29-31 | one butterfly sets p[j] and p[j+len] from their old values; nothing else changes |
| Ntt.InvNtt | src/ntt.rs:40-62 | the array becomes the inverse levels followed by the scaling pass, all in (−Q, Q); the zetas are read at indices 127, 126, …, 1, each once, so k ends at 0 |
| Ntt.ScalePass | src/ntt.rs:59-61 | every coefficient becomes Scale of its old value |
| Ntt.InvLevel | src/ntt.rs:44-56 | one pass of the `start` loop turns the array into the inverse level and reads zetas k0 down to k0 − Blocks(len) + 1 |
| Ntt.InvBlock | src/ntt.rs:48-53 | the `j` loop finishes one inverse block and touches no other index |
| Ntt.InvButterfly | src/ntt.rs:49-52 | one inverse butterfly sets p[j] and p[j+len] from their old values; nothing else changes |
| Polynomial.AddCoeff | src/poly.rs:23 | result in (−Q, Q); ≡ a + b with the sign of the sum when the i16 sum does not wrap; in [0, Q) and ≡ a + b for canonical inputs |
| Polynomial.SubCoeff | src/poly.rs:30 | result in (−Q, Q); ≡ a − b when no i16 step wraps; in [0, Q) and ≡ a − b for canonical inputs |
| Polynomial.MulCoeff | src/poly.rs:47 | the i32 product fits; the result is in (−Q, Q), ≡ a·b, non-negative when the product is, and canonical for non-negative operands |
| Polynomial.Zero | src/poly.rs:9-13 | N coefficients, all zero |
| Polynomial.AddAll | src/poly.rs:21-25 | same length as its operands; index i is AddCoeff of index i of each |
| Polynomial.SubAll | src/poly.rs:28-32 | same length as its operands; index i is SubCoeff of index i of each |
| Polynomial.MulAll | src/poly.rs:45-49 | same length as its operands; index i is MulCoeff of index i of each |
| Polynomial.AddCanonical | src/poly.rs:21-25 | canonical operands give a canonical sum, ≡ a + b at every index |
| Polynomial.SubCanonical | src/poly.rs:28-32 | canonical operands give a canonical difference, ≡ a − b at every index |
| Polynomial.MulProduct | src/poly.rs:45-49 | every product coefficient is in (−Q, Q) and ≡ a·b; canonical when both operands are non-negative |
| Polynomial.Poly.constructor | src/poly.rs:9-18 | a fresh polynomial of N zero coefficients |
| Polynomial.Poly.Add | src/poly.rs:21-25 | self becomes AddAll(old self, b); b is unchanged |
| Polynomial.Poly.Sub | src/poly.rs:28-32 | self becomes SubAll(old self, b); b is unchanged |
| Polynomial.Poly.PointwiseMul | src/poly.rs:45-49 | self becomes MulAll(old self, b); b is unchanged |
| Polynomial.Poly.Ntt | src/poly.rs:35-37 | the coefficients become `ntt` of their old values, in (−Q, Q) |
| Polynomial.Poly.InvNtt | src/poly.rs:40-42 | the coefficients become `inv_ntt` of their old values, in (−Q, Q) |
| Sampling.PairSumField | src/utils.rs:10-11 | every 2-bit field of `PairSums(t)` (d = (t & 0x55555555) + ((t >> 1) & 0x55555555)) counts the set bits of the same field of t |
| Sampling.CbdLaneBits | src/utils.rs:9-15 | `CbdLane(t, j)`, coefficient j of a word as the source computes it from d, is (bit 4j + bit 4j+1) − (bit 4j+2 + bit 4j+3) |
| Sampling.CbdLaneRange | src/utils.rs:13-15 | every `cbd` coefficient lies in [−2, 2] |
| Sampling.NibbleCbd | src/utils.rs:13-15 | the centred-binomial value of a nibble lies in [−2, 2] |
| Sampling.LeWordByte0 | src/utils.rs:9 | the low 8 bits of the little-endian word `LeWord` (`u32::from_le_bytes`) are buf[i] |
| Sampling.LeWordByte1 | src/utils.rs:9 | bits 8 to 15 of the little-endian word are buf[i + 1] |
| Sampling.LaneOfBytes | src/utils.rs:9-15 | lanes 0 and 1 read only buf[i], lanes 2 and 3 only buf[i + 1] |
| Sampling.CbdSpec | src/utils.rs:7-17 | `cbd` as a value: N coefficients, each in [−2, 2] |
| Sampling.CbdSpecAt | src/utils.rs:8-16 | coefficient 4i + j is lane j of the word buf[i..i+4] |
| Sampling.CbdCoefficient | src/utils.rs:8-16 | coefficient k is the nibble value of byte buf[k/4 + (k mod 4)/2] alone |
| Sampling.CbdDependsOnPrefix | src/utils.rs:8-9 | `cbd` reads buf[0..67) but its output depends only on buf[0..65) |
| Sampling.Cbd | src/utils.rs:7-18 | the polynomial becomes CbdSpec(buf), all N coefficients written |
| Sampling.CbdWord | src/utils.rs:9-16 | one pass of the outer loop writes coefficients 4i to 4i + 3 as specified and leaves the earlier ones alone |
| Sampling.D1 | src/utils.rs:145 | the first candidate `t1 OR (t2 << 8)` is a 16-bit value, not masked to 12 bits |
| Sampling.D2 | src/utils.rs:146 | the second candidate is a 12-bit value |
| Sampling.D1Bits | src/utils.rs:140-145 | D1 equals the source's u16 expression `t1 OR (t2 << 8)` on the widened bytes |
| Sampling.D2Bits | src/utils.rs:141-146 | D2 equals the source's u16 expression `(t2 >> 4) OR (t3 << 4)` on the widened bytes |
| Sampling.Kept | src/utils.rs:148-155 | a group keeps at most two candidates |
| Sampling.Accept | src/utils.rs:140-155 | a group of three bytes accepts at most two candidates |
| Sampling.AcceptedUpTo | src/utils.rs:139-156 | g groups accept at most 2g candidates |
| Sampling.SampleSpec | src/utils.rs:136-157 | `sample_ntt` as a value: the first N accepted candidates |
| Sampling.AcceptedPrefix | src/utils.rs:139-156 | reading more groups only appends accepted candidates |
| Sampling.AcceptedBelowQ | src/utils.rs:148-154 | every accepted candidate is in [0, Q) |
| Sampling.SampleCanonical | src/utils.rs:148-154 | every coefficient `sample_ntt` writes is in [0, Q) |
| Sampling.Candidates | src/utils.rs:140-146 | g groups give exactly 2g candidates |
| Sampling.Pair | src/utils.rs:140-146 | the two candidates of one group |
| Sampling.BelowQ | src/utils.rs:148-154 | filtering never lengthens a sequence |
| Sampling.AcceptedIsFilter | src/utils.rs:139-156 | the accepted sequence is exactly the candidates below Q, in stream order |
| Sampling.FirstCandidateUnmasked | src/utils.rs:145-148 | d1 < Q exactly when t2 < 13, or t2 = 13 and t1 = 0: the high nibble of t2 is not discarded, so every t2 ≥ 16 rejects d1, while the 12-bit value a mask would keep is below Q whenever t2 mod 16 < 13 |
| Sampling.SampleNtt | src/utils.rs:136-157 | given `EnoughCandidates(xof)` (N candidates accepted within the whole groups of the stream), the polynomial becomes SampleSpec(xof), so j fills 0..N in order |
| Sampling.RoomForGroup | src/utils.rs:139-142 | while fewer than N candidates are accepted, bytes i, i + 1 and i + 2 exist |
| Sampling.SampleDone | src/utils.rs:139 | once N candidates are accepted, the N written are the output |
| Sampling.SampleGroup | src/utils.rs:140-155 | one group appends its accepted candidates at j, and d2 is dropped once j = N |
| Compression.U32 | src/utils.rs:25 | u32 wrap-around: the result is in [0, 2^32) and is the identity there |
| Compression.CompressCoeff | src/utils.rs:25 | every compressed value is a nibble |
| Compression.CompressWrapping | src/utils.rs:25 | CompressCoeff is the source expression with the cast, the shift and the addition each wrapping in u32 |
| Compression.DecompressNibble | src/utils.rs:41-42 | every decompressed value is in [0, 3121] |
| Compression.PackSplit | src/utils.rs:27-30 | `Pack(t0, t1)`, the packed byte, keeps both nibbles: the low nibble is t0 and the high nibble t1 |
| Compression.PackBits | src/utils.rs:27-30 | Pack equals the source's u8 expression `t0 OR (t1 << 4)` for two nibbles |
| Compression.NibbleBits | src/utils.rs:38-39 | `buf[k] & 0x0F` and `buf[k] >> 4` are buf[k] mod 16 and buf[k] / 16, the forms DecompressSpec and PolyDecompress use |
| Compression.DecompressShift | src/utils.rs:41-42 | DecompressNibble equals the source's u32 expression `(t * Q + 8) >> 4`, which does not overflow for a nibble |
| Compression.Nibbles | src/utils.rs:24-26 | one nibble per coefficient, each below 16 |
| Compression.NibblesAt | src/utils.rs:24-26 | nibble i is CompressCoeff of coefficient i |
| Compression.PackPairs | src/utils.rs:27-30 | packing halves the length |
| Compression.PackPairsAt | src/utils.rs:27-30 | byte k packs nibbles 2k (low) and 2k + 1 (high) |
| Compression.PackPairsUnique | src/utils.rs:27-31 | any buffer whose byte k packs nibbles 2k and 2k + 1 is the packed sequence |
| Compression.CompressSpec | src/utils.rs:20-33 | `poly_compress` as a value: half as many bytes as coefficients |
| Compression.CompressSpecAt | src/utils.rs:23-31 | byte k holds coefficient 2k in its low nibble and 2k + 1 in its high nibble |
| Compression.DecompressSpec | src/utils.rs:35-44 | `poly_decompress` as a value: N coefficients |
| Compression.CompressCanonical | src/utils.rs:25 | for c in [0, Q) the nibble is ⌊(16c + 1664)/Q⌋ mod 16, with no u32 wrap |
| Compression.CompressNegativeWraps | src/utils.rs:25 | −200 and its residue Q − 200 compress to different nibbles, 6 and 15 |
| Compression.NibbleRoundTrip | src/utils.rs:25-42 | compressing a decompressed nibble gives the nibble back |
| Compression.DecompressThenCompress | src/utils.rs:20-44 | compress(decompress(buf)) = buf[0..128) for every buffer |
| Compression.DecompressCanonical | src/utils.rs:41-42 | decompressed coefficients are in [0, Q) |
| Compression.CompressError | src/utils.rs:20-44 | for c in [0, Q), decompress(compress(c)) is within 104 of c modulo Q |
| Compression.PolyCompress | src/utils.rs:20-33 | buf[0..128) becomes CompressSpec(coeffs) and the rest of buf is unchanged |
| Compression.CompressGroup | src/utils.rs:24-31 | one pass writes bytes 4i to 4i + 3 and nothing else |
| Compression.CompressEight | src/utils.rs:24-26 | the scratch `t` holds the nibbles of coefficients 8i to 8i + 7 |
| Compression.PolyDecompress | src/utils.rs:35-44 | the polynomial becomes DecompressSpec(buf) |
| Serialization.Unsigned | src/utils.rs:66-82 | the unsigned reading of an i16 pattern is in [0, 2^16) and is the identity on non-negative values |
| Serialization.BitsValue | src/utils.rs:66-95 | reading back the two's-complement pattern of an i16 gives the i16 |
| Serialization.ValueBits | src/utils.rs:66-95 | the pattern of the value of a pattern is that pattern |
| Serialization.ValueInjective | src/utils.rs:66-95 | different patterns stand for different i16 values |
| Serialization.ThirteenBits | src/utils.rs:84-95 | a pattern is below 2^13 exactly when its value is in [0, 2^13) |
| Serialization.RoundWord | src/utils.rs:86-93 | every coefficient `poly_frombytes_round` builds has at most 13 bits |
| Serialization.ToRoundBits | src/utils.rs:66-82 | `poly_tobytes_round` on patterns, byte m being `RoundByte(p, m)` (r[m], with `Asr` for the arithmetic `>>` of i16), produces 13 bytes |
| Serialization.FromRoundBits | src/utils.rs:84-95 | `poly_frombytes_round` produces 8 patterns, each below 2^13 |
| Serialization.RoundTripWord | src/utils.rs:86-93 | coefficient k of a 13-bit round is rebuilt from its bytes |
| Serialization.RoundTripWord0 | src/utils.rs:86 | r[0] rebuilds coefficient 0 from bytes 0 and 1 |
| Serialization.RoundTripWord1 | src/utils.rs:87 | r[1] rebuilds coefficient 1 from bytes 1, 2 and 3 |
| Serialization.RoundTripWord2 | src/utils.rs:88 | r[2] rebuilds coefficient 2 from bytes 3 and 4 |
| Serialization.RoundTripWord3 | src/utils.rs:89 | r[3] rebuilds coefficient 3 from bytes 4, 5 and 6 |
| Serialization.RoundTripWord4 | src/utils.rs:90 | r[4] rebuilds coefficient 4 from bytes 6, 7 and 8 |
| Serialization.RoundTripWord5 | src/utils.rs:91 | r[5] rebuilds coefficient 5 from bytes 8 and 9 |
| Serialization.RoundTripWord6 | src/utils.rs:92 | r[6] rebuilds coefficient 6 from bytes 9, 10 and 11 |
| Serialization.RoundTripWord7 | src/utils.rs:93 | r[7] rebuilds coefficient 7 from bytes 11 and 12 |
| Serialization.RoundTripByte | src/utils.rs:68-80 | byte m of a round is rebuilt from the decoded coefficients |
| Serialization.RoundTripBits | src/utils.rs:66-95 | decoding the round of eight 13-bit patterns gives them back |
| Serialization.RoundTripBytes | src/utils.rs:66-95 | encoding the patterns decoded from 13 bytes gives the bytes back |
| Serialization.FromRound | src/utils.rs:84-95 | every decoded coefficient is in [0, 2^13) |
| Serialization.RoundTrip | src/utils.rs:66-95 | `poly_frombytes_round(poly_tobytes_round(p)) == p`, with `ToRound` for `poly_tobytes_round` on i16 values, when every coefficient is in [0, 2^13) |
| Serialization.RoundTripEncoded | src/utils.rs:66-95 | `poly_tobytes_round(poly_frombytes_round(b)) == b` for all 13 bytes |
| Serialization.NegativeSpills | src/utils.rs:70-88 | with coefficient 1 = −1 and coefficients 2, 3 = 0, coefficient 2 decodes as 63, not 0 |
| Serialization.SpilledBytes | src/utils.rs:71-72 | the sign bits of −1 fill byte 3, and byte 4 stays 0 |
| Serialization.Group | src/utils.rs:50-52 | group g holds coefficients 8g to 8g + 7 |
| Serialization.EncodeRounds | src/utils.rs:49-54 | n rounds give 13n bytes |
| Serialization.DecodeRounds | src/utils.rs:59-63 | n rounds give 8n coefficients |
| Serialization.EncodeRoundsPrefix | src/utils.rs:49-54 | the first n rounds depend only on the first 8n coefficients |
| Serialization.DecodeRoundsPrefix | src/utils.rs:59-63 | the first 8n coefficients depend only on the first 13n bytes |
| Serialization.EncodeRoundsLast | src/utils.rs:53 | encoding n groups appends the round of group n − 1 to the encoding of n − 1 groups |
| Serialization.DecodeRoundsLast | src/utils.rs:60-62 | decoding n rounds appends the coefficients of round n − 1 |
| Serialization.DecodeEncode | src/utils.rs:47-64 | a round decoder that undoes its encoder on 13-bit rounds undoes it on any run of rounds |
| Serialization.EncodeDecode | src/utils.rs:47-64 | a round encoder that undoes its decoder undoes it on any run of rounds |
| Serialization.DecodeRange | src/utils.rs:58-64 | rounds that decode to 13-bit values decode a run to 13-bit values |
| Serialization.RoundCodecDecodes | src/utils.rs:66-95 | the source's round functions: decoding undoes encoding on 13-bit rounds |
| Serialization.RoundCodecEncodes | src/utils.rs:66-95 | the source's round functions: encoding undoes decoding on every round |
| Serialization.ToBytesSpec | src/utils.rs:47-55 | `poly_to_bytes` writes 416 bytes |
| Serialization.FromBytesSpec | src/utils.rs:58-64 | `poly_from_bytes` yields N coefficients |
| Serialization.PolyRoundTrip | src/utils.rs:47-64 | from_bytes(to_bytes(p)) == p when every coefficient is in [0, 2^13), canonical ones included |
| Serialization.BytesRoundTrip | src/utils.rs:47-64 | to_bytes(from_bytes(b)) == b[0..416) for every buffer |
| Serialization.FromBytesReadsPrefix | src/utils.rs:59-62 | `poly_from_bytes` depends only on buf[0..416) |
| Serialization.FromBytesRange | src/utils.rs:58-64 | decoded coefficients are in [0, 2^13) |
| Serialization.PolyToBytes | src/utils.rs:47-55 | buf[0..416) becomes ToBytesSpec(coeffs) and the rest of buf is unchanged |
| Serialization.GatherEight | src/utils.rs:50-52 | the scratch `t` holds coefficients 8i to 8i + 7 |
| Serialization.CopyInto | src/utils.rs:53 | `copy_from_slice`: the slice takes the new values and every other byte is unchanged |
| Serialization.PolyFromBytes | src/utils.rs:58-64 | the polynomial becomes FromBytesSpec(buf) |

## Left out

- The SHA-3 wrappers `h`, `g`, `prf`, `kdf` and `xof` (src/utils.rs:97-133)
  are thin calls into an external hash crate. `sample_ntt` and `cbd` take
  their byte streams as parameters.
- `src/kem.rs`, `src/keygen.rs`, `src/encaps.rs`, `src/decaps.rs`,
  `src/lib.rs` and the known-answer tests are not part of this model.
- The inverse law of the NTT and the ring homomorphism are not stated,
  because the code does not deliver them. The scaling constant is not N⁻¹,
  and `pointwise_mul` is coefficient-wise rather than base-case
  multiplication. The model instead states what each level computes, modulo
  Q, as an exact butterfly network.
- Overflow panics of a debug build are not modelled. Every `as i16` and every
  `i16` `+`/`-` wraps as in a release build. The NTT lemmas give the input
  conditions under which nothing wraps.
- Constant-time behaviour and zeroization are non-functional concerns.
- Out-of-range indexing panics are not modelled. The buffer-length and
  enough-candidates preconditions of `Sampling.Cbd`, `Sampling.SampleNtt`,
  `Compression.PolyCompress`, `Compression.PolyDecompress`,
  `Serialization.PolyToBytes` and `Serialization.PolyFromBytes` stand for
  them.
- Sampling.SampleNtt: requires the stream to hold N acceptable candidates in
  whole groups. The source panics otherwise, and the panic is not modelled.
- Read-only `&Poly` and `&[u8]` arguments are passed as sequences. Output
  buffers are arrays, and `&mut Poly` is a `Poly` object.
- Local scratch arrays (`t` in `poly_compress` and `poly_to_bytes`, the
  round arrays) are sequence values, so no aliasing is possible for them.
- Some inner loop bodies are split into helper methods. `CbdWord`,
  `CompressGroup`, `CompressEight`, `SampleGroup`, `GatherEight`, the level,
  block and butterfly methods of `Ntt`, and `CopyInto` for
  `copy_from_slice` are each one pass of the source's loop.
- In `Compression` and the `sample_ntt` part of `Sampling`, bytes are `u8`
  integers and the source's bit operations, whose bits never overlap or
  overflow, are written as arithmetic: `|` of disjoint fields as `+`, `<<` as
  a product and `>>` and `& 0x0F` as quotient and remainder. `D1Bits`,
  `D2Bits`, `PackBits`, `NibbleBits` and `DecompressShift` prove each
  rewriting equal to the source's expression on bit-vectors. In `cbd` and
  `Serialization`, where the bit fields do interact, bytes are `bv8`.
- The serialization of a whole polynomial is proved once, generically over
  any round encoder and decoder that undo each other. It is then
  instantiated with the source's round functions.

# SEAL RLWE sampling and encryptions of zero, in Dafny

This project models `native/src/seal/util/rlwe.cpp` of Microsoft SEAL. That file
turns generator randomness into RNS polynomials and assembles "encryptions of zero"
from them. The model covers:

- the four polynomial samplers:
  - `sample_poly_ternary`;
  - `sample_poly_normal`, its integer part;
  - `sample_poly_cbd`, with its `hw` and `cbd` helpers;
  - `sample_poly_uniform`, with its rejection loop;
- `encrypt_zero_asymmetric`, which computes `c[j] = pk[j] * u + e[j]`;
- `encrypt_zero_symmetric`, which computes `(c0, c1) = (-(a*s + e), a)`, with the
  option of compressing `c1` to a seed.

## Data layout

Every buffer is flat and limb-major, as in the source. Coefficient `i` of limb `j`
(its residue modulo `moduli[j]`) sits at index `i + j * coeffCount` (`Rns.Idx`). A
ciphertext is `size` such polynomials, one after the other.

## How the model is built

- **Loops.** The source's loops are Dafny methods over `array<u64>`. Each is proved
  against a specification function on sequences: `TernaryPoly`, `NormalPoly`,
  `CbdPoly`, `UniformPoly`, `AsymLimb`, `C0Limb` and `C1Final`.
- **Lemmas.** They state what those functions mean. Examples: every limb of a noise
  polynomial holds the residue of the same signed value; every uniform word comes
  from an accepted draw below `max_multiple`; `c0 + c1*s` is `-e`; a stored seed is
  recognised and regenerates `c1`.
- **The ciphertext.** `Ciphertexts.Ciphertext` is a class holding the fields the
  routines set: `data`, `size` and `isNttForm` (the source's `is_ntt_form`).
- **Randomness.** Every random source is an explicit input sequence:
  - `Trit` draws for the ternary sampler;
  - Gaussian values already truncated toward zero by `static_cast<int64_t>`, or raw bytes for the noise;
  - 32-bit engine outputs for the uniform sampler.

  The seeded generator of the symmetric routine is a function from the seed to its
  output stream, so the same seed always gives the same stream.
- **Running out.** A finite stream can end before a rejection loop accepts a value.
  That case is the error `RandomnessExhausted`.
- **Kernels.** The NTT and its inverse are uninterpreted limb functions
  (`Rns.Transforms`). Only which limbs they are applied to, and in what order, enters
  the results. `dyadic_product_coeffmod`, `add_poly_coeffmod` and
  `negate_poly_coeffmod` are exact coefficient-wise operations modulo `q`.
- **Word arithmetic.** Unsigned 64-bit wrap-around, the all-ones selector mask and
  the bitwise AND, OR and shift are written out in module `Words`.

Where the code and the usual description of the algorithm differ, the model follows
the code:

- **Binomial range.** `cbd` masks bytes 2 and 5 to five bits, so a sample lies in
  [-21, 21], not [-15, 15].
- **Rejection bound.** The uniform sampler rejects on `rand >= max_multiple`. Since
  `max_multiple + 1 = floor((2^64-1)/q) * q`, residue `q - 1` has one accepted
  representative fewer than the other residues. The model makes no uniformity claim.
- **Order of the 32-bit draws.** In `(engine() << 32) | engine()` C++ does not fix
  which call runs first. The model takes the first output as the high half.
- **Seed size.** A seed is eight 64-bit words (`random_seed_type`).

## Model

| member | source | states |
|---|---|---|
| `Words.Wrap` | native/src/seal/util/rlwe.cpp:61 | `static_cast<uint64_t>` of a value within one word of the range adds or subtracts 2^64 exactly once |
| `Words.SignMask` | native/src/seal/util/rlwe.cpp:32 | `-static_cast<int64_t>(cond)` as `uint64_t` is all ones exactly when the condition holds, and 0 otherwise |
| `Words.MaskSelects` | native/src/seal/util/rlwe.cpp:35 | `flag & q` is `q` when the flag is set and 0 otherwise: the branchless select |
| `Words.ShiftOrIsCombine32` | native/src/seal/util/rlwe.cpp:133 | `(hi << 32) \| lo` equals `hi * 2^32 + lo`, and the high and low halves of the result give back `hi` and `lo` |
| `Rns.Params.IdxInverse` | native/src/seal/util/rlwe.cpp:135 | index `i + j*coeff_count` is inside the polynomial and determines both `i` and `j`, so no two (coefficient, limb) pairs share a word |
| `Rns.MulMod` | native/src/seal/util/rlwe.cpp:182-184 | the dyadic product keeps the limb length and leaves every word below the modulus |
| `Rns.AddMod` | native/src/seal/util/rlwe.cpp:210-212 | the coefficient-wise sum keeps the limb length and leaves every word below the modulus |
| `Rns.NegMod` | native/src/seal/util/rlwe.cpp:306 | the coefficient-wise negation keeps the limb length and leaves every word below the modulus |
| `Rns.NegSumPlus` | native/src/seal/util/rlwe.cpp:303-306 | adding `c` back to `-(x + c) mod q` leaves `-x mod q`, the identity behind `c0 + a*s = -e` |
| `Rns.WriteLimb` | native/src/seal/util/rlwe.cpp:182-184 | a kernel writing to `buffer + m*coeff_count` changes exactly that limb and no other word |
| `Samplers.TernaryResidue` | native/src/seal/util/rlwe.cpp:31-35 | `rand + (flag & q) - 1` is below `q` and equals `(rand - 1) mod q` for every draw in {0,1,2} |
| `Samplers.TernaryPolyAt` | native/src/seal/util/rlwe.cpp:30-36 | every limb `j` of coefficient `i` holds `(draws[i] - 1) mod q_j`: one draw per coefficient, shared by all limbs, reduced below each modulus |
| `Samplers.SampleTernary` | native/src/seal/util/rlwe.cpp:21-37 | the nested loops (coefficients outer, limbs inner) leave the buffer equal to `TernaryPoly` of the draws |
| `Samplers.SignedResidue` | native/src/seal/util/rlwe.cpp:57-61 | for noise smaller in magnitude than `q`, `(uint64_t)noise + (flag & q)` is below `q` and congruent to the noise |
| `Samplers.SignedPolyAt` | native/src/seal/util/rlwe.cpp:56-62 | every limb of coefficient `i` holds the residue of the same signed value `values[i]`, provided its magnitude is below the limb's modulus |
| `Samplers.StoreSigned` | native/src/seal/util/rlwe.cpp:59-61 | the inner loop writes the mapped noise into coefficient `i` of every limb and changes no other word |
| `Samplers.SetZero` | native/src/seal/util/rlwe.cpp:48 | `set_zero_poly` leaves every word of the buffer zero |
| `Samplers.SampleNormal` | native/src/seal/util/rlwe.cpp:39-63 | zero shortcut: all zeros and no draw consumed; otherwise exactly one draw per coefficient, and the buffer is the signed map of the draws |
| `Samplers.Hw` | native/src/seal/util/rlwe.cpp:84-92 | the SWAR `hw` lambda is the population count of the byte: at most 8, and at most 5 when the top three bits are clear |
| `Samplers.CbdSample` | native/src/seal/util/rlwe.cpp:94-100 | `cbd` is three popcounts minus three popcounts, with bytes 2 and 5 cut to five bits, and lies in [-21, 21] |
| `Samplers.CbdValues` | native/src/seal/util/rlwe.cpp:102-103 | one binomial sample per coefficient, six bytes each in order, every one in [-21, 21] |
| `Samplers.CbdPolyAt` | native/src/seal/util/rlwe.cpp:102-108 | when limb `j`'s modulus is above 21, limb `j` of coefficient `i` holds the residue of the one sample from bytes `6i .. 6i+6` |
| `Samplers.SampleCbd` | native/src/seal/util/rlwe.cpp:65-109 | zero check first (zeros, no error, no bytes used); then the error for a standard deviation other than 3.2, with the buffer untouched; otherwise six bytes per coefficient and the signed map of the samples |
| `Samplers.NoisePoly` | native/src/seal/util/rlwe.cpp:72-82 | the error polynomial fails exactly when the binomial sampler is selected, the maximum deviation is nonzero and the deviation is not 3.2; under the zero shortcut it is all zeros |
| `Samplers.NoisePolyAt` | native/src/seal/util/rlwe.cpp:102-107 | every limb of the error polynomial holds the same signed noise value of its coefficient, reduced modulo that limb's modulus |
| `Samplers.SampleNoise` | native/src/seal/util/rlwe.cpp:196-202 | the `SEAL_USE_GAUSSIAN` dispatch fills the buffer with `NoisePoly`, and its only error is the unsupported deviation |
| `Uniform.MaxMultipleShape` | native/src/seal/util/rlwe.cpp:122-126 | `max_multiple + 1` is the largest multiple of `q` not above `2^64 - 1`, and lies within `q` of it |
| `Uniform.NextAccepted` | native/src/seal/util/rlwe.cpp:131-134 | an accepted draw is below the bound, is the glue of the two 32-bit outputs just consumed, and advances the stream by at least two outputs |
| `Uniform.NextAcceptedRejects` | native/src/seal/util/rlwe.cpp:131-134 | every 64-bit value glued before the accepted one was rejected (`>= bound`); when the stream runs out, every value in it was |
| `Uniform.DrawBelow` | native/src/seal/util/rlwe.cpp:130-134 | the do-while loop returns exactly the first accepted draw, or reports that the stream ended |
| `Uniform.UniformFrom` | native/src/seal/util/rlwe.cpp:123-137 | the loops from flat coefficient `k` on add one accepted draw per remaining coefficient, in limb-major order, without passing the end of the stream |
| `Uniform.UniformFromBelow` | native/src/seal/util/rlwe.cpp:126-134 | every accepted draw lies below the `max_multiple` of its own limb's modulus |
| `Uniform.UniformPolyAt` | native/src/seal/util/rlwe.cpp:125-135 | the word for coefficient `i` of limb `j` is `rand mod q_j < q_j`, where `rand` is an accepted draw below that limb's `max_multiple` |
| `Uniform.FillOne` | native/src/seal/util/rlwe.cpp:130-135 | one coefficient: draw, store the residue at its flat index `k`, and advance the rest of the computation by one step; every other word of the buffer keeps its value |
| `Uniform.FillLimb` | native/src/seal/util/rlwe.cpp:127-136 | the coefficient loop of one limb fills the next `coeff_count` words with the residues of successive accepted draws; every word outside that limb keeps its value |
| `Uniform.SampleUniform` | native/src/seal/util/rlwe.cpp:111-138 | succeeds exactly when the stream suffices; then the polynomial is `UniformPoly` of the stream, and nothing outside the polynomial changes |
| `Ciphertexts.Ciphertext.Resize` | native/src/seal/util/rlwe.cpp:163-164 | the destination gets room for exactly `count` polynomials and keeps its form flag |
| `Ciphertexts.TransformComponent` | native/src/seal/util/rlwe.cpp:309-316 | the loop over limbs applies the transform once to each limb of one component, in place, and changes no other component |
| `Encrypt.KeyLimbAtOwnLevel` | native/src/seal/util/rlwe.cpp:180-184 | a key of exactly the level's size satisfies `KeyShape`, and the limb read at `key + i * coeff_count` is limb `i` of the key as a polynomial |
| `Encrypt.KeyProduct` | native/src/seal/util/rlwe.cpp:177-192 | limb `i` of `u * pk[j]` is reduced below `q_i`: it is the product with the forward NTT of limb `i` of `u`, inverse-transformed unless in NTT form |
| `Encrypt.AsymLimb` | native/src/seal/util/rlwe.cpp:203-213 | a limb of `pk[j]*u + e[j]` has `coeff_count` words, all reduced below the limb's modulus |
| `Encrypt.AsymLimbAt` | native/src/seal/util/rlwe.cpp:194-214 | outside NTT form each word is the product word plus the signed noise of its coefficient, modulo `q_i`: the noise is added once, after the product |
| `Encrypt.AsymZeroNoise` | native/src/seal/util/rlwe.cpp:194-214 | under the zero shortcut a non-NTT component equals its key product: the zero noise changes nothing |
| `Encrypt.MultiplyLimb` | native/src/seal/util/rlwe.cpp:180-191 | for limb `i`, every component's limb `i` becomes the product with the transformed `u` limb; every other limb is unchanged |
| `Encrypt.MultiplyAll` | native/src/seal/util/rlwe.cpp:177-192 | each limb of `u` is transformed exactly once, before its products, so every component limb is `KeyProduct` of the ternary `u`, and `u` is left as the forward transform of each of its limbs |
| `Encrypt.AddNoise` | native/src/seal/util/rlwe.cpp:203-213 | for component `j`, every limb gets the noise (transformed first only in NTT form) added mod `q_i`; other components are unchanged; the noise buffer is left forward-transformed limb by limb in NTT form and unchanged otherwise |
| `Encrypt.EncryptZeroAsymmetric` | native/src/seal/util/rlwe.cpp:140-215 | `public_key.size()` components in the requested form; fails only on an unsupported deviation; otherwise every limb is `pk[j]*u + e[j]`, with one fresh error polynomial per component drawn after all products; the key may be made at a higher level than `parms_id`, and only its first `coeff_modulus_size` limbs are read |
| `Encrypt.SeedKept` | native/src/seal/util/rlwe.cpp:238-243 | `save_seed` survives exactly when it was requested and the polynomial has at least `seed size + 1` words; otherwise it is dropped without an error |
| `Encrypt.SeedWritesInBounds` | native/src/seal/util/rlwe.cpp:318-323 | when the seed is kept, the marker and seed words written from `c1` onwards end inside the two-polynomial buffer |
| `Encrypt.C0Limb` | native/src/seal/util/rlwe.cpp:288-307 | a limb of `c0` has `coeff_count` words, all reduced below the limb's modulus |
| `Encrypt.C0CancelsProduct` | native/src/seal/util/rlwe.cpp:288-307 | `c0 + s*c1` (product in the ciphertext's form) is `-e` modulo `q_i`, word by word, in either form |
| `Encrypt.C0Noise` | native/src/seal/util/rlwe.cpp:288-307 | outside NTT form `c0 + s*c1` is the negated signed noise of each coefficient, modulo `q_i` |
| `Encrypt.SeedRoundTrip` | native/src/seal/util/rlwe.cpp:318-323 | with the seed kept, a reader finds the marker in `c1[0]` and the seed in `c1[1..8]`; the words after them are those of `c1` as multiplied into `c0` |
| `Encrypt.MarkerOnlyWithSeed` | native/src/seal/util/rlwe.cpp:309-323 | without a kept seed, `c1[0]` is a residue below a 64-bit modulus, so it is never the marker and cannot be mistaken for a seed |
| `Encrypt.PrepareC1` | native/src/seal/util/rlwe.cpp:264-279 | `c1` is `a` as sampled, or its forward NTT limb by limb when it is non-NTT and compressed to a seed; `c0` is unchanged |
| `Encrypt.C0Step` | native/src/seal/util/rlwe.cpp:291-306 | one limb `i`: product, then NTT of the noise or inverse NTT of the product, then add, then negate; `c0` limb `i` becomes `C0Limb`, noise limb `i` becomes its NTT in NTT form and stays otherwise, and nothing else changes |
| `Encrypt.ComputeC0` | native/src/seal/util/rlwe.cpp:288-307 | every limb of `c0` becomes `C0Limb` of the secret key, `c1` and the noise; `c1` is untouched; each noise limb ends forward-transformed in NTT form and unchanged otherwise |
| `Encrypt.WriteSeed` | native/src/seal/util/rlwe.cpp:318-323 | `c1[0]` becomes `0xFFFFFFFFFFFFFFFF` and `c1[1..8]` the seed; the rest of `c1`, and all of `c0`, are unchanged |
| `Encrypt.FinishC1` | native/src/seal/util/rlwe.cpp:309-323 | `c1` is inverse-transformed only when neither in NTT form nor compressed, then the seed is written when kept; `c0` is unchanged |
| `Encrypt.EncryptZeroSymmetric` | native/src/seal/util/rlwe.cpp:217-324 | two components in the requested form. `a` comes only from the seed's stream and `e` only from the bootstrap draws. Every limb of `c0` is `-(a*s + e)`. `c1` is `C1Final`. The two errors are "stream too short" and "unsupported deviation"; the key may be made at a higher level than `parms_id`, and only its first `coeff_modulus_size` limbs are read |

## Left out

- Floating point is not modelled: `ClippedNormalDistribution`, `are_close` and the `!= 3.2` test. The noise values, truncated toward zero by `static_cast<int64_t>`, and the outcomes of the two tests are inputs (`NoiseConfig`, `NoiseDraws`).
- Generator internals are not modelled: `UniformRandomGenerator`, `BlakePRNGFactory`, `RandomToStandardAdapter`, and how `uniform_int_distribution` maps bytes to {0,1,2}. The draws are given sequences, and the seeded generator is a function from seed to stream.
- In the source, the asymmetric routine draws `u` and every `e[j]` from one generator. The symmetric routine draws the seed and then the noise from the bootstrap generator. The model takes each of these as a separate input, so how one generator's output is split between its uses is not modelled.
- The NTT, the inverse NTT and the Barrett reduction are external kernels. The transforms are uninterpreted. Their validity (`Transforms.Valid`) says only that they keep a limb's length and leave residues below the modulus. The model does not claim that the inverse undoes the forward transform.
- Resource plumbing is not modelled: the memory pool with clear-on-destruction, `allocate_poly`, and the context and `parms_id` lookup. The model's `Resize` allocates a zeroed buffer and does not model what `Ciphertext::resize` keeps of old data.
- Sizes and indices are unbounded `nat`, not `size_t`. The overflow check of `mul_safe` when computing the polynomial size is not modelled; for parameters that pass the validity checks that product fits.
- The `SEAL_DEBUG` `is_valid_for` key checks are replaced by the preconditions `PublicKey.ValidFor` and `SecretKey.ValidFor`. These admit a key made at the level `parms_id` or at any higher level: every key polynomial holds whole limbs, at least as many as the level has moduli, and only its first `coeff_modulus_size` limbs are read. The model does not check that the key's moduli agree with those of `parms_id`. That is a property of the context's modulus chain, which is not modelled.
- `scale() = 1.0` is not modelled: it is a floating-point field.
- No statistical claim is made: uniformity, variance, decryption-noise bounds, or termination of the rejection loop. The draw sequences are finite, and running out is the error `RandomnessExhausted`.
- Errors are returned as an `Option<Failure>` instead of a thrown `logic_error`. As in the source, the parts of the destination written before the error keep their values; the contracts say nothing about them.
- Samplers.NoisePolyAt: states the residue property only for noise smaller in magnitude than the modulus. For larger noise the stored word is the wrap-around value that `SignedResidue` computes, and no property of it is stated.
- Encrypt.AsymLimbAt: the same magnitude bound as NoisePolyAt. There is no word-level statement in NTT form, where the noise passes through the uninterpreted transform.
- Encrypt.C0Noise: the same magnitude bound as NoisePolyAt, stated outside NTT form only.
- Encrypt.AsymZeroNoise: stated outside NTT form only. In NTT form the zero noise passes through the uninterpreted forward transform, which the model does not require to map zero to zero.

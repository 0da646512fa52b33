/** The three small-noise polynomial samplers of rlwe.cpp: ternary
    (sample_poly_ternary), clipped normal (sample_poly_normal) and
    centered binomial (sample_poly_cbd). Each fills a caller-owned buffer of
    `coeffCount * |moduli|` words from one draw per coefficient, storing the
    same signed value in every limb through a branchless selector mask. */
module Samplers {
  import opened Words
  import opened Rns
  import opened Outcomes

  /** One draw of uniform_int_distribution<uint64_t>(0, 2). */
  type Trit = r: int | 0 <= r <= 2

  /** The global noise configuration as the samplers test it:
      `are_close(noise_max_deviation, 0.0)` and
      `noise_standard_deviation != 3.2` are floating-point tests, given here
      by their outcome; `useGaussian` is the SEAL_USE_GAUSSIAN build switch. */
  datatype NoiseConfig = NoiseConfig(useGaussian: bool, maxDeviationIsZero: bool, standardDeviationIs3_2: bool)

  /** The randomness one noise sampler call consumes, as produced by the
      generator: clipped-normal values, each truncated toward zero by
      `static_cast<int64_t>`, for the Gaussian sampler, raw generator bytes for the binomial sampler. */
  datatype NoiseDraws = Truncated(values: seq<i64>) | Bytes(bytes: seq<bv8>)

  // ---------------------------------------------------------------- ternary

  /** `rand + (flag & q) - 1` with `flag` all ones exactly when `rand == 0`:
      the residue of `rand - 1`, in {-1, 0, 1}, modulo `q`. */
  function TernaryResidue(r: Trit, q: u64): (v: u64)
    requires q > 1
    ensures v < q
    ensures v == (r as int - 1) % q as int
  {
    MaskSelects(r == 0, q);
    ModOfSmall(r - 1, q);
    Wrap(r + And64(SignMask(r == 0), q) - 1)
  }

  /** The buffer sample_poly_ternary writes for draws `draws`, one per
      coefficient. */
  function TernaryPoly(p: Params, draws: seq<Trit>): (r: seq<u64>)
    requires p.Valid() && |draws| == p.coeffCount
    ensures |r| == p.PolySize()
  {
    seq(p.PolySize(), k requires 0 <= k < p.PolySize() =>
      TernaryResidue(draws[p.CoeffOf(k)], p.moduli[p.LimbOf(k)]))
  }

  /** Limb `j` holds at coefficient `i` the residue of `draws[i] - 1` modulo
      the limb's modulus: one draw per coefficient, shared by every limb. */
  lemma TernaryPolyAt(p: Params, draws: seq<Trit>, i: nat, j: nat)
    requires p.Valid() && |draws| == p.coeffCount
    requires i < p.coeffCount && j < |p.moduli|
    ensures Idx(i, j, p.coeffCount) < p.PolySize()
    ensures TernaryPoly(p, draws)[Idx(i, j, p.coeffCount)] == (draws[i] as int - 1) % p.moduli[j] as int
    ensures TernaryPoly(p, draws)[Idx(i, j, p.coeffCount)] < p.moduli[j]
  {
    p.IdxInverse(i, j);
  }

  method SampleTernary(p: Params, draws: seq<Trit>, dest: array<u64>)
    requires p.Valid() && |draws| == p.coeffCount && dest.Length == p.PolySize()
    modifies dest
    ensures dest[..] == TernaryPoly(p, draws)
  {
    var n, l := p.coeffCount, |p.moduli|;
    ghost var want := TernaryPoly(p, draws);
    for i := 0 to n
      invariant forall k :: 0 <= k < dest.Length && p.CoeffOf(k) < i ==> dest[k] == want[k]
    {
      var rand := draws[i];
      for j := 0 to l
        invariant forall k :: 0 <= k < dest.Length && (p.CoeffOf(k) < i || (p.CoeffOf(k) == i && p.LimbOf(k) < j)) ==>
          dest[k] == want[k]
      {
        p.IdxInverse(i, j);
        dest[i + j * n] := TernaryResidue(rand, p.moduli[j]);
      }
    }
  }

  // ------------------------------------------------------ signed noise map

  /** `static_cast<uint64_t>(noise) + (flag & q)` with `flag` all ones exactly
      when `noise < 0`. For a noise value smaller in magnitude than `q` this is
      the residue of `noise` modulo `q`. */
  function SignedResidue(noise: i64, q: u64): (v: u64)
    ensures -(q as int) < noise as int < q as int ==> v < q && v == noise as int % q as int
  {
    MaskSelects(noise < 0, q);
    ModOfSmall(noise, q);
    Wrap(Wrap(noise) + And64(SignMask(noise < 0), q))
  }

  /** The buffer written for the signed values `values`, one per coefficient. */
  function SignedPoly(p: Params, values: seq<i64>): (r: seq<u64>)
    requires |values| >= p.coeffCount
    ensures |r| == p.PolySize()
  {
    seq(p.PolySize(), k requires 0 <= k < p.PolySize() =>
      SignedResidue(values[p.CoeffOf(k)], p.moduli[p.LimbOf(k)]))
  }

  /** Every limb stores the residue of the same signed value `values[i]`,
      provided the value is smaller in magnitude than the limb's modulus. */
  lemma SignedPolyAt(p: Params, values: seq<i64>, i: nat, j: nat)
    requires |values| >= p.coeffCount
    requires i < p.coeffCount && j < |p.moduli|
    requires -(p.moduli[j] as int) < values[i] as int < p.moduli[j] as int
    ensures Idx(i, j, p.coeffCount) < p.PolySize()
    ensures SignedPoly(p, values)[Idx(i, j, p.coeffCount)] == values[i] as int % p.moduli[j] as int
    ensures SignedPoly(p, values)[Idx(i, j, p.coeffCount)] < p.moduli[j]
  {
    p.IdxInverse(i, j);
  }

  /** Stores `noise` into coefficient `i` of every limb (the inner iteration
      shared by sample_poly_normal and sample_poly_cbd). */
  method StoreSigned(p: Params, noise: i64, i: nat, dest: array<u64>)
    requires i < p.coeffCount && dest.Length == p.PolySize()
    modifies dest
    ensures forall k :: 0 <= k < dest.Length ==>
      dest[k] == if p.CoeffOf(k) == i then SignedResidue(noise, p.moduli[p.LimbOf(k)]) else old(dest[k])
  {
    var n, l := p.coeffCount, |p.moduli|;
    for j := 0 to l
      invariant forall k :: 0 <= k < dest.Length ==>
        dest[k] == if p.CoeffOf(k) == i && p.LimbOf(k) < j then SignedResidue(noise, p.moduli[p.LimbOf(k)]) else old(dest[k])
    {
      p.IdxInverse(i, j);
      dest[i + j * n] := SignedResidue(noise, p.moduli[j]);
    }
  }

  /** set_zero_poly */
  method SetZero(dest: array<u64>)
    modifies dest
    ensures dest[..] == Zeros(dest.Length)
  {
    forall k | 0 <= k < dest.Length {
      dest[k] := 0;
    }
  }

  // ----------------------------------------------------- clipped normal

  /** The buffer sample_poly_normal writes: all zeros when the maximum
      deviation is zero, otherwise the signed map of one truncated sample per
      coefficient. */
  function NormalPoly(p: Params, maxDeviationIsZero: bool, values: seq<i64>): (r: seq<u64>)
    requires |values| >= p.coeffCount
    ensures |r| == p.PolySize()
  {
    if maxDeviationIsZero then Zeros(p.PolySize()) else SignedPoly(p, values)
  }

  /** Returns the number of draws consumed. */
  method SampleNormal(p: Params, maxDeviationIsZero: bool, values: seq<i64>, dest: array<u64>) returns (used: nat)
    requires |values| >= p.coeffCount && dest.Length == p.PolySize()
    modifies dest
    ensures used == if maxDeviationIsZero then 0 else p.coeffCount
    ensures dest[..] == NormalPoly(p, maxDeviationIsZero, values)
  {
    if maxDeviationIsZero {
      SetZero(dest);
      return 0;
    }
    ghost var want := SignedPoly(p, values);
    for i := 0 to p.coeffCount
      invariant forall k :: 0 <= k < dest.Length && p.CoeffOf(k) < i ==> dest[k] == want[k]
    {
      StoreSigned(p, values[i], i, dest);
    }
    used := p.coeffCount;
  }

  // -------------------------------------------------- centered binomial

  function Bit(x: bv8, k: nat): nat
    requires k < 8
  {
    if (x >> k) & 1 == 1 then 1 else 0
  }

  /** Number of set bits of a byte, bit by bit. */
  function PopCount(x: bv8): nat
  {
    Bit(x, 0) + Bit(x, 1) + Bit(x, 2) + Bit(x, 3) + Bit(x, 4) + Bit(x, 5) + Bit(x, 6) + Bit(x, 7)
  }

  /** The `hw` lambda: a SWAR population count that first adds neighbouring
      bits, then sums the four 2-bit fields. The source applies it to an
      int8_t promoted to int32_t; every mask it applies keeps only bits 0..7,
      so the sign-extended bits never reach the result and the 8-bit
      operations below compute the same value. */
  function Hw(x: bv8): (r: nat)
    ensures r == PopCount(x)
    ensures r <= 8
    ensures x & 0xE0 == 0 ==> r <= 5
  {
    var t := (x & 0x55) + ((x >> 1) & 0x55);
    var h := (t & 0x3) + ((t >> 2) & 0x3) + ((t >> 4) & 0x3) + ((t >> 6) & 0x3);
    h as int
  }

  /** The `cbd` lambda on its six generator bytes: bytes 2 and 5 are cut to
      their low five bits, then three popcounts are added and three
      subtracted. The result lies in [-21, 21]. */
  function CbdSample(x: seq<bv8>): (r: int)
    requires |x| == 6
    ensures -21 <= r <= 21
    ensures r == PopCount(x[0]) + PopCount(x[1]) + PopCount(x[2] & 0x1F)
               - PopCount(x[3]) - PopCount(x[4]) - PopCount(x[5] & 0x1F)
  {
    var x2, x5 := x[2] & 0x1F, x[5] & 0x1F;
    Hw(x[0]) + Hw(x[1]) + Hw(x2) - Hw(x[3]) - Hw(x[4]) - Hw(x5)
  }

  /** The binomial samples of `n` coefficients, six bytes each, in order. */
  function CbdValues(bytes: seq<bv8>, n: nat): (r: seq<i64>)
    requires |bytes| >= 6 * n
    ensures |r| == n
    ensures forall i :: 0 <= i < n ==> -21 <= r[i] <= 21
  {
    seq(n, i requires 0 <= i < n => CbdSample(bytes[6 * i .. 6 * i + 6]))
  }

  /** The outcome of sample_poly_cbd: zeros when the maximum deviation is zero
      (tested first, so no error then), the error for an unsupported standard
      deviation, and otherwise the signed map of one binomial sample per
      coefficient. */
  function CbdPoly(p: Params, maxDeviationIsZero: bool, standardDeviationIs3_2: bool, bytes: seq<bv8>): (r: Option<seq<u64>>)
    requires |bytes| >= 6 * p.coeffCount
    ensures r.Some? ==> |r.value| == p.PolySize()
  {
    if maxDeviationIsZero then Some(Zeros(p.PolySize()))
    else if !standardDeviationIs3_2 then None
    else Some(SignedPoly(p, CbdValues(bytes, p.coeffCount)))
  }

  /** With every modulus above 21 each limb holds the residue of the same
      binomial sample, whose magnitude is at most 21. */
  lemma CbdPolyAt(p: Params, bytes: seq<bv8>, i: nat, j: nat)
    requires |bytes| >= 6 * p.coeffCount
    requires i < p.coeffCount && j < |p.moduli| && p.moduli[j] > 21
    ensures Idx(i, j, p.coeffCount) < p.PolySize()
    ensures var v := CbdSample(bytes[6 * i .. 6 * i + 6]);
      -21 <= v <= 21 &&
      CbdPoly(p, false, true, bytes).value[Idx(i, j, p.coeffCount)] == v % p.moduli[j]
  {
    var values := CbdValues(bytes, p.coeffCount);
    SignedPolyAt(p, values, i, j);
  }

  /** Returns the error of the source, if any, and the number of bytes
      consumed. */
  method SampleCbd(p: Params, maxDeviationIsZero: bool, standardDeviationIs3_2: bool, bytes: seq<bv8>, dest: array<u64>)
    returns (err: Option<Failure>, used: nat)
    requires |bytes| >= 6 * p.coeffCount && dest.Length == p.PolySize()
    modifies dest
    ensures var r := CbdPoly(p, maxDeviationIsZero, standardDeviationIs3_2, bytes);
      (err.None? <==> r.Some?) &&
      (r.Some? ==> dest[..] == r.value) &&
      (r.None? ==> err == Some(UnsupportedStandardDeviation) && dest[..] == old(dest[..]))
    ensures used == if maxDeviationIsZero || !standardDeviationIs3_2 then 0 else 6 * p.coeffCount
  {
    if maxDeviationIsZero {
      SetZero(dest);
      return None, 0;
    }
    if !standardDeviationIs3_2 {
      return Some(UnsupportedStandardDeviation), 0;
    }
    ghost var want := SignedPoly(p, CbdValues(bytes, p.coeffCount));
    used := 0;
    for i := 0 to p.coeffCount
      invariant used == 6 * i
      invariant forall k :: 0 <= k < dest.Length && p.CoeffOf(k) < i ==> dest[k] == want[k]
    {
      var x := bytes[used .. used + 6];
      var noise := CbdSample(x);
      used := used + 6;
      StoreSigned(p, noise, i, dest);
    }
    err := None;
  }

  // ------------------------------------------------------ noise dispatch

  /** The draws match the sampler the configuration selects. */
  predicate DrawsFit(p: Params, cfg: NoiseConfig, d: NoiseDraws)
  {
    if cfg.useGaussian then d.Truncated? && |d.values| >= p.coeffCount
    else d.Bytes? && |d.bytes| >= 6 * p.coeffCount
  }

  /** The binomial sampler rejects every standard deviation but 3.2, once
      the maximum deviation is known to be nonzero. */
  predicate NoiseUnsupported(cfg: NoiseConfig)
  {
    !cfg.useGaussian && !cfg.maxDeviationIsZero && !cfg.standardDeviationIs3_2
  }

  /** The error polynomial e <-- chi of the configured distribution, or None
      when the binomial sampler rejects the configuration. */
  function NoisePoly(p: Params, cfg: NoiseConfig, d: NoiseDraws): (r: Option<seq<u64>>)
    requires DrawsFit(p, cfg, d)
    ensures r.Some? ==> |r.value| == p.PolySize()
    ensures r.None? <==> NoiseUnsupported(cfg)
    ensures cfg.maxDeviationIsZero ==> r == Some(Zeros(p.PolySize()))
  {
    if cfg.useGaussian then Some(NormalPoly(p, cfg.maxDeviationIsZero, d.values))
    else CbdPoly(p, cfg.maxDeviationIsZero, cfg.standardDeviationIs3_2, d.bytes)
  }

  /** The signed noise drawn for coefficient `i`: zero under the zero
      shortcut, else the truncated Gaussian value or the binomial sample. */
  function NoiseValue(p: Params, cfg: NoiseConfig, d: NoiseDraws, i: nat): int
    requires DrawsFit(p, cfg, d) && i < p.coeffCount
  {
    if cfg.maxDeviationIsZero then 0
    else if cfg.useGaussian then d.values[i] as int
    else CbdValues(d.bytes, p.coeffCount)[i]
  }

  /** Every limb of the error polynomial holds the same signed noise value
      of its coefficient, reduced modulo the limb's modulus, provided that
      value is smaller in magnitude than the modulus. */
  lemma NoisePolyAt(p: Params, cfg: NoiseConfig, d: NoiseDraws, i: nat, j: nat)
    requires DrawsFit(p, cfg, d) && !NoiseUnsupported(cfg)
    requires i < p.coeffCount && j < |p.moduli|
    requires -(p.moduli[j] as int) < NoiseValue(p, cfg, d, i) < p.moduli[j] as int
    ensures Idx(i, j, p.coeffCount) < p.PolySize()
    ensures NoisePoly(p, cfg, d).value[Idx(i, j, p.coeffCount)] == NoiseValue(p, cfg, d, i) % p.moduli[j] as int
  {
    p.IdxInverse(i, j);
    if cfg.maxDeviationIsZero {
    } else if cfg.useGaussian {
      SignedPolyAt(p, d.values, i, j);
    } else {
      SignedPolyAt(p, CbdValues(d.bytes, p.coeffCount), i, j);
    }
  }

  /** `#ifdef SEAL_USE_GAUSSIAN sample_poly_normal #else sample_poly_cbd`. */
  method SampleNoise(p: Params, cfg: NoiseConfig, d: NoiseDraws, dest: array<u64>) returns (err: Option<Failure>)
    requires DrawsFit(p, cfg, d) && dest.Length == p.PolySize()
    modifies dest
    ensures err.None? <==> NoisePoly(p, cfg, d).Some?
    ensures err.None? ==> dest[..] == NoisePoly(p, cfg, d).value
    ensures err.Some? ==> err == Some(UnsupportedStandardDeviation)
  {
    if cfg.useGaussian {
      var _ := SampleNormal(p, cfg.maxDeviationIsZero, d.values, dest);
      err := None;
    } else {
      var used;
      err, used := SampleCbd(p, cfg.maxDeviationIsZero, cfg.standardDeviationIs3_2, d.bytes, dest);
    }
  }
}

/** encrypt_zero_asymmetric and encrypt_zero_symmetric: the two encryptions
    of zero, assembled limb by limb from the samplers, the coefficient-wise
    kernels and the (uninterpreted) negacyclic NTT. */
module Encrypt {
  import opened Words
  import opened Rns
  import opened Outcomes
  import opened Samplers
  import opened Uniform
  import opened Ciphertexts

  /** A key polynomial usable at the level `p`: whole limbs of `coeffCount`
      words, at least as many as `p` has moduli. A key made at a higher level
      than the one encrypted to has more limbs; only its first `|p.moduli|`
      limbs are read. */
  predicate KeyShape(p: Params, poly: seq<u64>)
  {
    p.PolySize() <= |poly| && (p.coeffCount > 0 ==> |poly| % p.coeffCount == 0)
  }

  /** Limb `i` of a key polynomial, read at `key + i * coeff_count`. */
  function KeyLimb(p: Params, key: seq<u64>, i: nat): (r: seq<u64>)
    requires KeyShape(p, key) && i < |p.moduli|
    ensures |r| == p.coeffCount
  {
    LimbFits(i, |p.moduli|, p.coeffCount);
    Limb(key, p.coeffCount, i)
  }

  /** At the key's own level its limbs are the limbs of a polynomial. */
  lemma KeyLimbAtOwnLevel(p: Params, key: seq<u64>, i: nat)
    requires |key| == p.PolySize() && i < |p.moduli|
    ensures KeyShape(p, key) && KeyLimb(p, key, i) == PolyLimb(p, key, i)
  {
    if p.coeffCount > 0 {
      assert |key| == |p.moduli| * p.coeffCount;
      ModCongruent(|key|, 0, |p.moduli|, p.coeffCount);
    }
  }

  /** public_key.data(): a ciphertext of `|polys|` polynomials in NTT form. */
  datatype PublicKey = PublicKey(polys: seq<seq<u64>>)
  {
    /** The shape is_valid_for checks against the context, at the key's own
        level, which is the level `p` or a higher one. */
    predicate ValidFor(p: Params)
    {
      forall j :: 0 <= j < |polys| ==> KeyShape(p, polys[j])
    }
  }

  /** secret_key.data(): one polynomial in NTT form. */
  datatype SecretKey = SecretKey(poly: seq<u64>)
  {
    /** As for the public key: the level `p` or a higher one. */
    predicate ValidFor(p: Params)
    {
      KeyShape(p, poly)
    }
  }

  // ------------------------------------------------------- limb formulas

  /** The noise limb as it is added: transformed to NTT form only when the
      ciphertext is to be in NTT form. */
  function NoiseForm(p: Params, T: Transforms, isNtt: bool, i: nat, e: seq<u64>): (r: seq<u64>)
    requires T.Valid(p) && i < |p.moduli|
    ensures |r| == |e|
  {
    if isNtt then T.forward(i, e) else e
  }

  /** A product computed in NTT form, brought back out of it only when the
      ciphertext is not to be in NTT form. */
  function ProductForm(p: Params, T: Transforms, isNtt: bool, i: nat, prod: seq<u64>): (r: seq<u64>)
    requires T.Valid(p) && i < |p.moduli|
    ensures |r| == |prod|
  {
    if isNtt then prod else T.inverse(i, prod)
  }

  /** Limb `i` of `u * public_key[j]`: limb `i` of the ternary `u` after
      exactly one forward NTT, times limb `i` of the key component. */
  function KeyProduct(p: Params, T: Transforms, isNtt: bool, u: seq<u64>, key: seq<u64>, i: nat): (r: seq<u64>)
    requires p.Valid() && T.Valid(p) && |u| == p.PolySize() && KeyShape(p, key) && i < |p.moduli|
    ensures |r| == p.coeffCount
    ensures forall t :: 0 <= t < |r| ==> r[t] < p.moduli[i]
  {
    ProductForm(p, T, isNtt, i, MulMod(T.forward(i, PolyLimb(p, u, i)), KeyLimb(p, key, i), p.moduli[i]))
  }

  /** Limb `i` of component `j` of the asymmetric encryption of zero:
      `public_key[j] * u + e[j]`. */
  function AsymLimb(p: Params, T: Transforms, isNtt: bool, u: seq<u64>, key: seq<u64>, e: seq<u64>, i: nat): (r: seq<u64>)
    requires p.Valid() && T.Valid(p) && |u| == p.PolySize() == |e| && KeyShape(p, key) && i < |p.moduli|
    ensures |r| == p.coeffCount
    ensures forall t :: 0 <= t < |r| ==> r[t] < p.moduli[i]
  {
    AddMod(NoiseForm(p, T, isNtt, i, PolyLimb(p, e, i)), KeyProduct(p, T, isNtt, u, key, i), p.moduli[i])
  }

  /** Outside NTT form, each word of a component is the product word plus the
      signed noise of its coefficient, modulo the limb's modulus: the noise
      is added exactly once, after the product. */
  lemma AsymLimbAt(p: Params, T: Transforms, u: seq<u64>, key: seq<u64>, cfg: NoiseConfig, d: NoiseDraws, i: nat, t: nat)
    requires p.Valid() && T.Valid(p) && |u| == p.PolySize() && KeyShape(p, key)
    requires DrawsFit(p, cfg, d) && !NoiseUnsupported(cfg)
    requires i < |p.moduli| && t < p.coeffCount
    requires -(p.moduli[i] as int) < NoiseValue(p, cfg, d, t) < p.moduli[i] as int
    ensures AsymLimb(p, T, false, u, key, NoisePoly(p, cfg, d).value, i)[t]
      == (NoiseValue(p, cfg, d, t) + KeyProduct(p, T, false, u, key, i)[t]) % p.moduli[i] as int
  {
    var e := NoisePoly(p, cfg, d).value;
    var v := NoiseValue(p, cfg, d, t);
    NoiseLimbAt(p, cfg, d, i, t);
    AsymLimbWord(p, T, u, key, e, i, t, v);
  }

  /** Limb `i` of the error polynomial holds the residue of each
      coefficient's signed noise. */
  lemma NoiseLimbAt(p: Params, cfg: NoiseConfig, d: NoiseDraws, i: nat, t: nat)
    requires DrawsFit(p, cfg, d) && !NoiseUnsupported(cfg)
    requires i < |p.moduli| && t < p.coeffCount
    requires -(p.moduli[i] as int) < NoiseValue(p, cfg, d, t) < p.moduli[i] as int
    ensures PolyLimb(p, NoisePoly(p, cfg, d).value, i)[t] == NoiseValue(p, cfg, d, t) % p.moduli[i] as int
  {
    var e := NoisePoly(p, cfg, d).value;
    NoisePolyAt(p, cfg, d, t, i);
    LimbFits(i, |p.moduli|, p.coeffCount);
    LimbAt(e, p.coeffCount, i, t);
  }

  /** A word of a non-NTT component, for any `u` and any noise word that is
      the residue of `v`. */
  lemma AsymLimbWord(p: Params, T: Transforms, u: seq<u64>, key: seq<u64>, e: seq<u64>, i: nat, t: nat, v: int)
    requires p.Valid() && T.Valid(p) && |u| == p.PolySize() == |e| && KeyShape(p, key) && i < |p.moduli| && t < p.coeffCount
    requires PolyLimb(p, e, i)[t] == v % p.moduli[i] as int
    ensures AsymLimb(p, T, false, u, key, e, i)[t] == (v + KeyProduct(p, T, false, u, key, i)[t]) % p.moduli[i] as int
  {
    var kp := KeyProduct(p, T, false, u, key, i);
    AddModLeft(v, kp[t], p.moduli[i] as int);
  }

  /** Under the zero shortcut (maximum deviation zero) a non-NTT component is
      exactly its key product: the zero noise polynomial changes nothing. */
  lemma AsymZeroNoise(p: Params, T: Transforms, u: seq<u64>, key: seq<u64>, cfg: NoiseConfig, d: NoiseDraws, i: nat)
    requires p.Valid() && T.Valid(p) && |u| == p.PolySize() && KeyShape(p, key)
    requires DrawsFit(p, cfg, d) && cfg.maxDeviationIsZero && i < |p.moduli|
    ensures AsymLimb(p, T, false, u, key, NoisePoly(p, cfg, d).value, i) == KeyProduct(p, T, false, u, key, i)
  {
    var c := AsymLimb(p, T, false, u, key, NoisePoly(p, cfg, d).value, i);
    var kp := KeyProduct(p, T, false, u, key, i);
    forall t | 0 <= t < p.coeffCount
      ensures c[t] == kp[t]
    {
      assert NoiseValue(p, cfg, d, t) == 0;
      AsymLimbAt(p, T, u, key, cfg, d, i, t);
      assert c[t] == kp[t] % p.moduli[i] as int;
      ModOfSmall(kp[t], p.moduli[i] as int);
    }
  }

  // ------------------------------------------------ encrypt_zero_asymmetric

  /** The inner loop over components for limb `i`: limb `i` of every
      component becomes `uHat * public_key[j]` in limb `i`, brought out of NTT
      form unless the ciphertext stays in it. */
  method MultiplyLimb(p: Params, T: Transforms, isNtt: bool, uHat: seq<u64>, pk: PublicKey, data: array<u64>, i: nat)
    requires p.Valid() && T.Valid(p) && pk.ValidFor(p)
    requires i < |p.moduli| && |uHat| == p.coeffCount && data.Length == |pk.polys| * p.PolySize()
    modifies data
    ensures forall j :: 0 <= j < |pk.polys| ==>
      CtLimb(p, |pk.polys|, data[..], j, i) == ProductForm(p, T, isNtt, i, MulMod(uHat, KeyLimb(p, pk.polys[j], i), p.moduli[i]))
    ensures forall j, i2 :: 0 <= j < |pk.polys| && 0 <= i2 < |p.moduli| && i2 != i ==>
      CtLimb(p, |pk.polys|, data[..], j, i2) == CtLimb(p, |pk.polys|, old(data[..]), j, i2)
  {
    var size := |pk.polys|;
    for j := 0 to size
      invariant forall j2 :: 0 <= j2 < j ==>
        CtLimb(p, size, data[..], j2, i) == ProductForm(p, T, isNtt, i, MulMod(uHat, KeyLimb(p, pk.polys[j2], i), p.moduli[i]))
      invariant forall j2, i2 :: 0 <= j2 < size && 0 <= i2 < |p.moduli| && (i2 != i || j2 >= j) ==>
        CtLimb(p, size, data[..], j2, i2) == CtLimb(p, size, old(data[..]), j2, i2)
    {
      var prod := MulMod(uHat, KeyLimb(p, pk.polys[j], i), p.moduli[i]);
      WriteCtLimb(p, size, data, j, i, ProductForm(p, T, isNtt, i, prod));
    }
  }

  /** The first loop of the source: limb by limb, one forward NTT of limb
      `i` of `u` and then its product into limb `i` of every component. */
  method MultiplyAll(p: Params, T: Transforms, isNtt: bool, pk: PublicKey, u: array<u64>, data: array<u64>)
    requires p.Valid() && T.Valid(p) && pk.ValidFor(p)
    requires u.Length == p.PolySize() && data.Length == |pk.polys| * p.PolySize() && u != data
    modifies u, data
    ensures forall j, i :: 0 <= j < |pk.polys| && 0 <= i < |p.moduli| ==>
      CtLimb(p, |pk.polys|, data[..], j, i) == KeyProduct(p, T, isNtt, old(u[..]), pk.polys[j], i)
    ensures forall i :: 0 <= i < |p.moduli| ==> PolyLimb(p, u[..], i) == T.forward(i, PolyLimb(p, old(u[..]), i))
  {
    var size := |pk.polys|;
    ghost var ternary := u[..];
    for i := 0 to |p.moduli|
      invariant forall i2 :: 0 <= i2 < i ==> PolyLimb(p, u[..], i2) == T.forward(i2, PolyLimb(p, ternary, i2))
      invariant forall i2 :: i <= i2 < |p.moduli| ==> PolyLimb(p, u[..], i2) == PolyLimb(p, ternary, i2)
      invariant forall j, i2 :: 0 <= j < size && 0 <= i2 < i ==>
        CtLimb(p, size, data[..], j, i2) == KeyProduct(p, T, isNtt, ternary, pk.polys[j], i2)
    {
      WritePolyLimb(p, u, i, T.forward(i, PolyLimb(p, u[..], i)));
      MultiplyLimb(p, T, isNtt, PolyLimb(p, u[..], i), pk, data, i);
    }
  }

  /** The inner loop over limbs for component `j`: limb by limb, the noise in
      `u` is transformed when the ciphertext is in NTT form and added into
      the component. */
  method AddNoise(p: Params, T: Transforms, isNtt: bool, u: array<u64>, size: nat, data: array<u64>, j: nat)
    requires p.Valid() && T.Valid(p) && u.Length == p.PolySize() && data.Length == size * p.PolySize()
    requires j < size && u != data
    modifies u, data
    ensures forall i :: 0 <= i < |p.moduli| ==>
      CtLimb(p, size, data[..], j, i) == AddMod(NoiseForm(p, T, isNtt, i, PolyLimb(p, old(u[..]), i)), CtLimb(p, size, old(data[..]), j, i), p.moduli[i])
    ensures forall j2, i :: 0 <= j2 < size && j2 != j && 0 <= i < |p.moduli| ==>
      CtLimb(p, size, data[..], j2, i) == CtLimb(p, size, old(data[..]), j2, i)
    ensures forall i :: 0 <= i < |p.moduli| ==> PolyLimb(p, u[..], i) == NoiseForm(p, T, isNtt, i, PolyLimb(p, old(u[..]), i))
  {
    ghost var e := u[..];
    for i := 0 to |p.moduli|
      invariant forall i2 :: 0 <= i2 < i ==> PolyLimb(p, u[..], i2) == NoiseForm(p, T, isNtt, i2, PolyLimb(p, e, i2))
      invariant forall i2 :: i <= i2 < |p.moduli| ==> PolyLimb(p, u[..], i2) == PolyLimb(p, e, i2)
      invariant forall i2 :: 0 <= i2 < i ==>
        CtLimb(p, size, data[..], j, i2) == AddMod(NoiseForm(p, T, isNtt, i2, PolyLimb(p, e, i2)), CtLimb(p, size, old(data[..]), j, i2), p.moduli[i2])
      invariant forall j2, i2 :: 0 <= j2 < size && 0 <= i2 < |p.moduli| && (j2 != j || i2 >= i) ==>
        CtLimb(p, size, data[..], j2, i2) == CtLimb(p, size, old(data[..]), j2, i2)
    {
      if isNtt {
        WritePolyLimb(p, u, i, T.forward(i, PolyLimb(p, u[..], i)));
      }
      WriteCtLimb(p, size, data, j, i, AddMod(PolyLimb(p, u[..], i), CtLimb(p, size, data[..], j, i), p.moduli[i]));
    }
  }

  /** `c[j] = public_key[j] * u + e[j]` with `u` ternary and one fresh error
      polynomial per component, drawn only after every product is written.
      `trits` are the draws of `u`, `noise[j]` those of `e[j]`. */
  method EncryptZeroAsymmetric(p: Params, pk: PublicKey, T: Transforms, isNtt: bool, cfg: NoiseConfig,
                               trits: seq<Trit>, noise: seq<NoiseDraws>, dest: Ciphertext)
    returns (err: Option<Failure>)
    requires p.Valid() && T.Valid(p) && pk.ValidFor(p) && |trits| == p.coeffCount
    requires |noise| == |pk.polys| && forall j :: 0 <= j < |noise| ==> DrawsFit(p, cfg, noise[j])
    modifies dest
    ensures fresh(dest.data) && dest.size == |pk.polys| && dest.isNttForm == isNtt
    ensures dest.data.Length == dest.size * p.PolySize()
    ensures err.Some? <==> |pk.polys| > 0 && NoiseUnsupported(cfg)
    ensures err.Some? ==> err == Some(UnsupportedStandardDeviation)
    ensures err.None? ==> forall j, i :: 0 <= j < dest.size && 0 <= i < |p.moduli| ==>
      CtLimb(p, dest.size, dest.data[..], j, i)
      == AsymLimb(p, T, isNtt, TernaryPoly(p, trits), pk.polys[j], NoisePoly(p, cfg, noise[j]).value, i)
  {
    err := None;
    var size := |pk.polys|;
    dest.Resize(p, size);
    dest.isNttForm := isNtt;
    var data := dest.data;
    var u := new u64[p.PolySize()];
    SampleTernary(p, trits, u);
    ghost var ternary := u[..];
    MultiplyAll(p, T, isNtt, pk, u, data);
    for j := 0 to size
      invariant err.None? && (j > 0 ==> !NoiseUnsupported(cfg))
      invariant dest.data == data && dest.size == size && dest.isNttForm == isNtt
      invariant forall j2, i :: 0 <= j2 < size && 0 <= i < |p.moduli| ==>
        CtLimb(p, size, data[..], j2, i)
        == if j2 < j then AsymLimb(p, T, isNtt, ternary, pk.polys[j2], NoisePoly(p, cfg, noise[j2]).value, i)
           else KeyProduct(p, T, isNtt, ternary, pk.polys[j2], i)
    {
      err := SampleNoise(p, cfg, noise[j], u);
      if err.Some? {
        return;
      }
      AddNoise(p, T, isNtt, u, size, data, j);
    }
  }

  // ------------------------------------------------- encrypt_zero_symmetric

  /** random_seed_type: eight 64-bit words. */
  const SEED_WORDS: nat := 8

  /** The word written to c1[0] to flag that c1 carries a seed. */
  const SEED_MARKER: u64 := MAX_U64

  /** save_seed after the capacity guard: it is dropped, without an error,
      exactly when the polynomial has no room for the marker and the seed. */
  function SeedKept(saveSeed: bool, polySize: nat): (keep: bool)
    ensures keep ==> saveSeed && SEED_WORDS + 1 <= polySize
    ensures saveSeed && SEED_WORDS + 1 <= polySize ==> keep
  {
    if saveSeed && polySize < SEED_WORDS + 1 then false else saveSeed
  }

  /** The guard is what keeps the seed writes inside c1: with the seed kept,
      the marker and the seed occupy words `P .. P + 8` of the two-polynomial
      buffer (`P` = PolySize), and the last of them lies below its end `2 * P`. */
  lemma SeedWritesInBounds(saveSeed: bool, p: Params)
    requires SeedKept(saveSeed, p.PolySize())
    ensures p.PolySize() + SEED_WORDS < 2 * p.PolySize()
  {
  }

  /** c1 after the seed is written over its first words: the marker, then
      the seed words, then the rest of `c1` as it was. */
  function WithSeed(c1: seq<u64>, seed: seq<u64>): (r: seq<u64>)
    requires |seed| == SEED_WORDS && SEED_WORDS + 1 <= |c1|
    ensures |r| == |c1|
  {
    [SEED_MARKER] + seed + c1[SEED_WORDS + 1 ..]
  }

  /** How a reader of c1 tells a stored seed from polynomial data. */
  function SeedOf(c1: seq<u64>): (r: Option<seq<u64>>)
    ensures r.Some? ==> |r.value| == SEED_WORDS
  {
    if SEED_WORDS + 1 <= |c1| && c1[0] == SEED_MARKER then Some(c1[1 .. SEED_WORDS + 1]) else None
  }

  /** c1 as it is multiplied into c0: the uniform polynomial `a`, which is
      sampled directly as an NTT-form value, or its forward NTT when it was
      sampled in the non-NTT form that is compressed to a seed. */
  function C1Used(p: Params, T: Transforms, isNtt: bool, keep: bool, a: seq<u64>): (r: seq<u64>)
    requires T.Valid(p) && |a| == p.PolySize()
    ensures |r| == p.PolySize()
  {
    if !isNtt && keep then MapLimbs(p, T.forward, a) else a
  }

  /** c1 as it is left: with the seed written over it when the seed is kept,
      else `a` brought out of NTT form unless the ciphertext is in NTT form. */
  function C1Final(p: Params, T: Transforms, isNtt: bool, keep: bool, a: seq<u64>, seed: seq<u64>): (r: seq<u64>)
    requires T.Valid(p) && |a| == p.PolySize() && |seed| == SEED_WORDS
    requires keep ==> SEED_WORDS + 1 <= p.PolySize()
    ensures |r| == p.PolySize()
  {
    if keep then WithSeed(C1Used(p, T, isNtt, keep, a), seed)
    else if !isNtt then MapLimbs(p, T.inverse, a)
    else a
  }

  /** Limb `i` of c0 = -(a * s + e): the product of the secret key and c1
      limbs (computed in NTT form), the noise added in the ciphertext's form,
      then the sum negated. */
  function C0Limb(p: Params, T: Transforms, isNtt: bool, skLimb: seq<u64>, c1Limb: seq<u64>, eLimb: seq<u64>, i: nat): (r: seq<u64>)
    requires p.Valid() && T.Valid(p) && i < |p.moduli| && |skLimb| == |c1Limb| == |eLimb|
    ensures |r| == |skLimb| && forall t :: 0 <= t < |r| ==> r[t] < p.moduli[i]
  {
    var q := p.moduli[i];
    var prod := ProductForm(p, T, isNtt, i, MulMod(skLimb, c1Limb, q));
    NegMod(AddMod(NoiseForm(p, T, isNtt, i, eLimb), prod, q), q)
  }

  /** c0 + c1 * s = -e: adding the product back to c0 leaves the negated
      noise, in either form. */
  lemma C0CancelsProduct(p: Params, T: Transforms, isNtt: bool, skLimb: seq<u64>, c1Limb: seq<u64>, eLimb: seq<u64>, i: nat, t: nat)
    requires p.Valid() && T.Valid(p) && i < |p.moduli| && |skLimb| == |c1Limb| == |eLimb| && t < |skLimb|
    ensures var q := p.moduli[i];
      var prod := ProductForm(p, T, isNtt, i, MulMod(skLimb, c1Limb, q));
      (C0Limb(p, T, isNtt, skLimb, c1Limb, eLimb, i)[t] + prod[t]) % q as int
      == (-NoiseForm(p, T, isNtt, i, eLimb)[t]) % q as int
  {
    var q := p.moduli[i];
    var prod := ProductForm(p, T, isNtt, i, MulMod(skLimb, c1Limb, q));
    NegatedSumCancels(NoiseForm(p, T, isNtt, i, eLimb), prod, q, t);
  }

  /** Coefficient `t` of -(x + y), plus y, is -x modulo `q`. */
  lemma NegatedSumCancels(x: seq<u64>, y: seq<u64>, q: u64, t: nat)
    requires |x| == |y| && q > 0 && t < |x|
    ensures (NegMod(AddMod(x, y, q), q)[t] + y[t]) % q as int == (-x[t]) % q as int
  {
    var sum := AddMod(x, y, q);
    var neg := NegMod(sum, q);
    assert sum[t] == (x[t] + y[t]) % q as int;
    assert neg[t] == (-sum[t]) % q as int;
    NegSumPlus(x[t] as int, y[t] as int, q as int, sum[t] as int, neg[t] as int);
  }

  /** Outside NTT form, c0 + c1 * s is the negated signed noise of the
      coefficient, modulo the limb's modulus. */
  lemma C0Noise(p: Params, T: Transforms, skLimb: seq<u64>, c1Limb: seq<u64>, cfg: NoiseConfig, d: NoiseDraws, i: nat, t: nat)
    requires p.Valid() && T.Valid(p) && i < |p.moduli| && |skLimb| == |c1Limb| == p.coeffCount
    requires DrawsFit(p, cfg, d) && !NoiseUnsupported(cfg) && t < p.coeffCount
    requires -(p.moduli[i] as int) < NoiseValue(p, cfg, d, t) < p.moduli[i] as int
    ensures var q := p.moduli[i];
      var e := NoisePoly(p, cfg, d).value;
      var prod := ProductForm(p, T, false, i, MulMod(skLimb, c1Limb, q));
      (C0Limb(p, T, false, skLimb, c1Limb, PolyLimb(p, e, i), i)[t] + prod[t]) % q as int
      == (-NoiseValue(p, cfg, d, t)) % q as int
  {
    var e := NoisePoly(p, cfg, d).value;
    NoiseLimbAt(p, cfg, d, i, t);
    C0Word(p, T, skLimb, c1Limb, PolyLimb(p, e, i), i, t, NoiseValue(p, cfg, d, t));
  }

  /** A word of a non-NTT `c0`, for any noise word that is the residue of `v`. */
  lemma C0Word(p: Params, T: Transforms, skLimb: seq<u64>, c1Limb: seq<u64>, eLimb: seq<u64>, i: nat, t: nat, v: int)
    requires p.Valid() && T.Valid(p) && i < |p.moduli| && |skLimb| == |c1Limb| == |eLimb| && t < |skLimb|
    requires eLimb[t] == v % p.moduli[i] as int
    ensures var q := p.moduli[i];
      var prod := ProductForm(p, T, false, i, MulMod(skLimb, c1Limb, q));
      (C0Limb(p, T, false, skLimb, c1Limb, eLimb, i)[t] + prod[t]) % q as int == (-v) % q as int
  {
    C0CancelsProduct(p, T, false, skLimb, c1Limb, eLimb, i, t);
    NegOfResidue(v, p.moduli[i] as int);
  }

  lemma NegOfResidue(v: int, q: int)
    requires q > 0
    ensures (-(v % q)) % q == (-v) % q
  {
    assert v == v / q * q + v % q;
    ModCongruent(-(v % q), -v, v / q, q);
  }

  /** With the seed kept, c1 starts with the marker and the seed, so a reader
      regenerates the sampled polynomial from it; the words after the seed
      are those of c1 as multiplied into c0. */
  lemma SeedRoundTrip(p: Params, T: Transforms, isNtt: bool, a: seq<u64>, seed: seq<u64>)
    requires T.Valid(p) && |a| == p.PolySize() && |seed| == SEED_WORDS && SEED_WORDS + 1 <= p.PolySize()
    ensures SeedOf(C1Final(p, T, isNtt, true, a, seed)) == Some(seed)
    ensures C1Final(p, T, isNtt, true, a, seed)[SEED_WORDS + 1 ..] == C1Used(p, T, isNtt, true, a)[SEED_WORDS + 1 ..]
  {
    var c1 := C1Final(p, T, isNtt, true, a, seed);
    assert c1[1 .. SEED_WORDS + 1] == seed;
  }

  /** Without a kept seed c1 holds residues, all below a 64-bit modulus, so
      its first word is never the marker: a reader cannot mistake it for a
      seed. */
  lemma MarkerOnlyWithSeed(p: Params, T: Transforms, isNtt: bool, words: seq<u32>, seed: seq<u64>)
    requires p.Valid() && T.Valid(p) && UniformPoly(p, words).Some? && |seed| == SEED_WORDS
    ensures SeedOf(C1Final(p, T, isNtt, false, UniformPoly(p, words).value, seed)).None?
  {
    var a := UniformPoly(p, words).value;
    var c1 := C1Final(p, T, isNtt, false, a, seed);
    if SEED_WORDS + 1 <= |c1| {
      p.IdxInverse(0, 0);
      LimbFits(0, |p.moduli|, p.coeffCount);
      if isNtt {
        UniformPolyAt(p, words, 0, 0);
      } else {
        MapLimbsAt(p, T.inverse, a, 0);
        LimbAt(c1, p.coeffCount, 0, 0);
      }
    }
  }

  /** The c1 branch before the noise: keep `a` as sampled, or transform it
      limb by limb when it is to be compressed to a seed in non-NTT form. */
  method PrepareC1(p: Params, T: Transforms, isNtt: bool, keep: bool, ghost a: seq<u64>, data: array<u64>)
    requires T.Valid(p) && |a| == p.PolySize() && data.Length == 2 * p.PolySize()
    requires Component(p, 2, data[..], 1) == a
    modifies data
    ensures forall i :: 0 <= i < |p.moduli| ==> CtLimb(p, 2, data[..], 1, i) == PolyLimb(p, C1Used(p, T, isNtt, keep, a), i)
    ensures forall i :: 0 <= i < |p.moduli| ==> CtLimb(p, 2, data[..], 0, i) == CtLimb(p, 2, old(data[..]), 0, i)
  {
    if !isNtt && keep {
      TransformComponent(p, 2, data, 1, T.forward);
    }
    forall i | 0 <= i < |p.moduli|
      ensures CtLimb(p, 2, data[..], 1, i) == PolyLimb(p, C1Used(p, T, isNtt, keep, a), i)
    {
      CtLimbOfComponent(p, 2, old(data[..]), 1, i);
      if !isNtt && keep {
        MapLimbsAt(p, T.forward, a, i);
      }
    }
  }

  /** The loop over limbs that computes c0 = -(a * s + e), limb by limb. */
  method ComputeC0(p: Params, T: Transforms, isNtt: bool, sk: SecretKey, e: array<u64>, data: array<u64>)
    requires p.Valid() && T.Valid(p) && sk.ValidFor(p)
    requires e.Length == p.PolySize() && data.Length == 2 * p.PolySize() && e != data
    modifies e, data
    ensures forall i :: 0 <= i < |p.moduli| ==>
      CtLimb(p, 2, data[..], 0, i) == C0Limb(p, T, isNtt, KeyLimb(p, sk.poly, i), CtLimb(p, 2, old(data[..]), 1, i), PolyLimb(p, old(e[..]), i), i)
    ensures forall i :: 0 <= i < |p.moduli| ==> CtLimb(p, 2, data[..], 1, i) == CtLimb(p, 2, old(data[..]), 1, i)
    ensures forall i :: 0 <= i < |p.moduli| ==> PolyLimb(p, e[..], i) == NoiseForm(p, T, isNtt, i, PolyLimb(p, old(e[..]), i))
  {
    ghost var e0 := e[..];
    for i := 0 to |p.moduli|
      invariant forall i2 :: 0 <= i2 < i ==> PolyLimb(p, e[..], i2) == NoiseForm(p, T, isNtt, i2, PolyLimb(p, e0, i2))
      invariant forall i2 :: i <= i2 < |p.moduli| ==> PolyLimb(p, e[..], i2) == PolyLimb(p, e0, i2)
      invariant forall i2 :: 0 <= i2 < i ==>
        CtLimb(p, 2, data[..], 0, i2) == C0Limb(p, T, isNtt, KeyLimb(p, sk.poly, i2), CtLimb(p, 2, old(data[..]), 1, i2), PolyLimb(p, e0, i2), i2)
      invariant forall i2 :: 0 <= i2 < |p.moduli| ==> CtLimb(p, 2, data[..], 1, i2) == CtLimb(p, 2, old(data[..]), 1, i2)
    {
      C0Step(p, T, isNtt, sk, e, data, i);
    }
  }

  /** One pass of that loop, for limb `i`. */
  method C0Step(p: Params, T: Transforms, isNtt: bool, sk: SecretKey, e: array<u64>, data: array<u64>, i: nat)
    requires p.Valid() && T.Valid(p) && sk.ValidFor(p) && i < |p.moduli|
    requires e.Length == p.PolySize() && data.Length == 2 * p.PolySize() && e != data
    modifies e, data
    ensures CtLimb(p, 2, data[..], 0, i)
      == C0Limb(p, T, isNtt, KeyLimb(p, sk.poly, i), CtLimb(p, 2, old(data[..]), 1, i), PolyLimb(p, old(e[..]), i), i)
    ensures PolyLimb(p, e[..], i) == NoiseForm(p, T, isNtt, i, PolyLimb(p, old(e[..]), i))
    ensures forall i2 :: 0 <= i2 < |p.moduli| && i2 != i ==> PolyLimb(p, e[..], i2) == PolyLimb(p, old(e[..]), i2)
    ensures forall j, i2 :: 0 <= j < 2 && 0 <= i2 < |p.moduli| && (j, i2) != (0, i) ==>
      CtLimb(p, 2, data[..], j, i2) == CtLimb(p, 2, old(data[..]), j, i2)
  {
    var q := p.moduli[i];
    WriteCtLimb(p, 2, data, 0, i, MulMod(KeyLimb(p, sk.poly, i), CtLimb(p, 2, data[..], 1, i), q));
    if isNtt {
      WritePolyLimb(p, e, i, T.forward(i, PolyLimb(p, e[..], i)));
    } else {
      WriteCtLimb(p, 2, data, 0, i, T.inverse(i, CtLimb(p, 2, data[..], 0, i)));
    }
    WriteCtLimb(p, 2, data, 0, i, AddMod(PolyLimb(p, e[..], i), CtLimb(p, 2, data[..], 0, i), q));
    WriteCtLimb(p, 2, data, 0, i, NegMod(CtLimb(p, 2, data[..], 0, i), q));
  }

  /** c1[0] = marker, then the seed words copied to c1[1..]. */
  method WriteSeed(p: Params, data: array<u64>, seed: seq<u64>)
    requires data.Length == 2 * p.PolySize() && |seed| == SEED_WORDS && SEED_WORDS + 1 <= p.PolySize()
    modifies data
    ensures Component(p, 2, data[..], 1) == WithSeed(Component(p, 2, old(data[..]), 1), seed)
    ensures Component(p, 2, data[..], 0) == Component(p, 2, old(data[..]), 0)
  {
    var n := p.PolySize();
    ghost var c0, c1 := data[..n], data[n .. n + n];
    assert Component(p, 2, old(data[..]), 0) == c0 && Component(p, 2, old(data[..]), 1) == c1;
    data[n] := SEED_MARKER;
    for t := 0 to SEED_WORDS
      invariant data[..n] == c0 && data[n] == SEED_MARKER
      invariant forall t2 :: 0 <= t2 < t ==> data[n + 1 + t2] == seed[t2]
      invariant forall k :: n + 1 + SEED_WORDS <= k < n + n ==> data[k] == c1[k - n]
    {
      data[n + 1 + t] := seed[t];
    }
    ghost var want := WithSeed(c1, seed);
    forall k | 0 <= k < n
      ensures data[n + k] == want[k]
    {
      if 0 < k <= SEED_WORDS {
        assert data[n + 1 + (k - 1)] == seed[k - 1];
      }
    }
    assert data[n .. n + n] == want;
    assert Component(p, 2, data[..], 1) == data[n .. n + n];
  }

  /** The c1 branch after c0: bring c1 out of NTT form when it is neither
      in NTT form nor compressed, then write the seed over it when kept. */
  method FinishC1(p: Params, T: Transforms, isNtt: bool, keep: bool, ghost a: seq<u64>, seed: seq<u64>, data: array<u64>)
    requires T.Valid(p) && |a| == p.PolySize() && |seed| == SEED_WORDS && data.Length == 2 * p.PolySize()
    requires keep ==> SEED_WORDS + 1 <= p.PolySize()
    requires forall i :: 0 <= i < |p.moduli| ==> CtLimb(p, 2, data[..], 1, i) == PolyLimb(p, C1Used(p, T, isNtt, keep, a), i)
    modifies data
    ensures Component(p, 2, data[..], 1) == C1Final(p, T, isNtt, keep, a, seed)
    ensures forall i :: 0 <= i < |p.moduli| ==> CtLimb(p, 2, data[..], 0, i) == CtLimb(p, 2, old(data[..]), 0, i)
  {
    if !isNtt && !keep {
      TransformComponent(p, 2, data, 1, T.inverse);
      forall i | 0 <= i < |p.moduli|
        ensures CtLimb(p, 2, data[..], 1, i) == PolyLimb(p, MapLimbs(p, T.inverse, a), i)
      {
        MapLimbsAt(p, T.inverse, a, i);
      }
      ComponentFromLimbs(p, 2, data[..], 1, MapLimbs(p, T.inverse, a));
    } else {
      ComponentFromLimbs(p, 2, data[..], 1, C1Used(p, T, isNtt, keep, a));
      if keep {
        WriteSeed(p, data, seed);
        forall i | 0 <= i < |p.moduli|
          ensures CtLimb(p, 2, data[..], 0, i) == CtLimb(p, 2, old(data[..]), 0, i)
        {
          CtLimbOfComponent(p, 2, data[..], 0, i);
          CtLimbOfComponent(p, 2, old(data[..]), 0, i);
        }
      }
    }
  }

  /** (c0, c1) = (-(a * s + e), a) with `a` uniform from the stream keyed by
      `seed` and `e` from the bootstrap draws `noise`. With `saveSeed` (kept
      only when c1 has room) c1 is overwritten by the marker and the seed in
      either form; outside NTT form `a` is first forward-transformed, so c0
      is computed from the NTT form of `a`. */
  method EncryptZeroSymmetric(p: Params, sk: SecretKey, T: Transforms, isNtt: bool, saveSeed: bool, cfg: NoiseConfig,
                              seed: seq<u64>, stream: seq<u64> -> seq<u32>, noise: NoiseDraws, dest: Ciphertext)
    returns (err: Option<Failure>)
    requires p.Valid() && T.Valid(p) && sk.ValidFor(p) && |seed| == SEED_WORDS && DrawsFit(p, cfg, noise)
    modifies dest
    ensures fresh(dest.data) && dest.size == 2 && dest.isNttForm == isNtt
    ensures dest.data.Length == 2 * p.PolySize()
    ensures err == Some(RandomnessExhausted) <==> UniformPoly(p, stream(seed)).None?
    ensures err == Some(UnsupportedStandardDeviation) <==> UniformPoly(p, stream(seed)).Some? && NoiseUnsupported(cfg)
    ensures err.None? ==>
      var keep := SeedKept(saveSeed, p.PolySize());
      var a := UniformPoly(p, stream(seed)).value;
      var e := NoisePoly(p, cfg, noise).value;
      (forall i :: 0 <= i < |p.moduli| ==>
        CtLimb(p, 2, dest.data[..], 0, i) == C0Limb(p, T, isNtt, KeyLimb(p, sk.poly, i), PolyLimb(p, C1Used(p, T, isNtt, keep, a), i), PolyLimb(p, e, i), i)) &&
      Component(p, 2, dest.data[..], 1) == C1Final(p, T, isNtt, keep, a, seed)
  {
    var n := p.PolySize();
    var keep := saveSeed;
    if keep && n < SEED_WORDS + 1 {
      keep := false;
    }
    dest.Resize(p, 2);
    dest.isNttForm := isNtt;
    var data := dest.data;
    var ok := SampleUniform(p, stream(seed), data, n);
    if !ok {
      return Some(RandomnessExhausted);
    }
    ghost var a := UniformPoly(p, stream(seed)).value;
    PrepareC1(p, T, isNtt, keep, a, data);
    var e := new u64[n];
    err := SampleNoise(p, cfg, noise, e);
    if err.Some? {
      return;
    }
    ComputeC0(p, T, isNtt, sk, e, data);
    FinishC1(p, T, isNtt, keep, a, seed, data);
  }
}

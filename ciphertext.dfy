/** The buffers the encryption routines fill: a polynomial of `coeffCount *
    |moduli|` words, and a ciphertext of `size` such polynomials stored one
    after the other. Everything is addressed limb by limb, as the kernels
    of the source are called on `buffer + i * coeff_count`. */
module Ciphertexts {
  import opened Words
  import opened Rns

  /** The fields of a ciphertext that the encryption routines set. */
  class Ciphertext {
    var data: array<u64>
    var size: nat
    var isNttForm: bool

    /** resize: room for `count` polynomials of the parameters `p`. */
    method Resize(p: Params, count: nat)
      modifies this
      ensures size == count && data.Length == count * p.PolySize() && fresh(data)
      ensures isNttForm == old(isNttForm)
    {
      data := new u64[count * p.PolySize()](_ => 0);
      size := count;
    }
  }

  /** Limb `i` of a polynomial. */
  function PolyLimb(p: Params, s: seq<u64>, i: nat): (r: seq<u64>)
    requires |s| == p.PolySize() && i < |p.moduli|
    ensures |r| == p.coeffCount
  {
    LimbFits(i, |p.moduli|, p.coeffCount);
    Limb(s, p.coeffCount, i)
  }

  /** Limb `i` of component `j` of a ciphertext of `size` components. */
  function CtLimb(p: Params, size: nat, s: seq<u64>, j: nat, i: nat): (r: seq<u64>)
    requires |s| == size * p.PolySize() && j < size && i < |p.moduli|
    ensures |r| == p.coeffCount
  {
    MulMono(j + 1, size, p.PolySize());
    ComponentLimb(s, p.coeffCount, |p.moduli|, j, i);
    Limb(s, p.coeffCount, LimbIndex(j, i, |p.moduli|))
  }

  /** Component `j` of a ciphertext, as a polynomial. */
  function Component(p: Params, size: nat, s: seq<u64>, j: nat): (r: seq<u64>)
    requires |s| == size * p.PolySize() && j < size
    ensures |r| == p.PolySize()
  {
    MulMono(j + 1, size, p.PolySize());
    s[j * p.PolySize() .. j * p.PolySize() + p.PolySize()]
  }

  /** A limb of a component is the limb of the component read as a
      polynomial. */
  lemma CtLimbOfComponent(p: Params, size: nat, s: seq<u64>, j: nat, i: nat)
    requires |s| == size * p.PolySize() && j < size && i < |p.moduli|
    ensures CtLimb(p, size, s, j, i) == PolyLimb(p, Component(p, size, s, j), i)
  {
    MulMono(j + 1, size, p.PolySize());
    ComponentLimb(s, p.coeffCount, |p.moduli|, j, i);
  }

  /** A polynomial is determined by its limbs. */
  lemma LimbsDetermine(p: Params, s: seq<u64>, s2: seq<u64>)
    requires |s| == p.PolySize() == |s2|
    requires forall i :: 0 <= i < |p.moduli| ==> PolyLimb(p, s, i) == PolyLimb(p, s2, i)
    ensures s == s2
  {
    forall k | 0 <= k < |s|
      ensures s[k] == s2[k]
    {
      var i, j := p.CoeffOf(k), p.LimbOf(k);
      LimbFits(j, |p.moduli|, p.coeffCount);
      LimbAt(s, p.coeffCount, j, i);
      LimbAt(s2, p.coeffCount, j, i);
      assert PolyLimb(p, s, j)[i] == PolyLimb(p, s2, j)[i];
    }
  }

  /** A component whose every limb is the matching limb of `poly` is `poly`. */
  lemma ComponentFromLimbs(p: Params, size: nat, s: seq<u64>, j: nat, poly: seq<u64>)
    requires |s| == size * p.PolySize() && j < size && |poly| == p.PolySize()
    requires forall i :: 0 <= i < |p.moduli| ==> CtLimb(p, size, s, j, i) == PolyLimb(p, poly, i)
    ensures Component(p, size, s, j) == poly
  {
    forall i | 0 <= i < |p.moduli|
      ensures PolyLimb(p, Component(p, size, s, j), i) == PolyLimb(p, poly, i)
    {
      CtLimbOfComponent(p, size, s, j, i);
    }
    LimbsDetermine(p, Component(p, size, s, j), poly);
  }

  /** The polynomial whose limb `i` is `f(i, limb i of s)`: the result of a
      loop that transforms every limb of `s` in place. */
  function MapLimbs(p: Params, f: (nat, seq<u64>) -> seq<u64>, s: seq<u64>): (r: seq<u64>)
    requires |s| == p.PolySize()
    requires forall i: nat, x: seq<u64> :: |f(i, x)| == |x|
    ensures |r| == p.PolySize()
  {
    seq(p.PolySize(), k requires 0 <= k < p.PolySize() =>
      f(p.LimbOf(k), PolyLimb(p, s, p.LimbOf(k)))[p.CoeffOf(k)])
  }

  lemma MapLimbsAt(p: Params, f: (nat, seq<u64>) -> seq<u64>, s: seq<u64>, i: nat)
    requires |s| == p.PolySize() && i < |p.moduli|
    requires forall i: nat, x: seq<u64> :: |f(i, x)| == |x|
    ensures PolyLimb(p, MapLimbs(p, f, s), i) == f(i, PolyLimb(p, s, i))
  {
    var r := MapLimbs(p, f, s);
    LimbFits(i, |p.moduli|, p.coeffCount);
    forall t | 0 <= t < p.coeffCount
      ensures PolyLimb(p, r, i)[t] == f(i, PolyLimb(p, s, i))[t]
    {
      p.IdxInverse(t, i);
      LimbAt(r, p.coeffCount, i, t);
    }
  }

  /** Overwrites limb `i` of the polynomial `a`. */
  method WritePolyLimb(p: Params, a: array<u64>, i: nat, s: seq<u64>)
    requires a.Length == p.PolySize() && i < |p.moduli| && |s| == p.coeffCount
    modifies a
    ensures PolyLimb(p, a[..], i) == s
    ensures forall i2 :: 0 <= i2 < |p.moduli| && i2 != i ==> PolyLimb(p, a[..], i2) == PolyLimb(p, old(a[..]), i2)
  {
    LimbFits(i, |p.moduli|, p.coeffCount);
    WriteLimb(a, p.coeffCount, i, s);
    forall i2 | 0 <= i2 < |p.moduli| && i2 != i
      ensures PolyLimb(p, a[..], i2) == PolyLimb(p, old(a[..]), i2)
    {
      LimbFits(i2, |p.moduli|, p.coeffCount);
    }
  }

  /** Overwrites limb `i` of component `j` of the ciphertext buffer `a`. */
  method WriteCtLimb(p: Params, size: nat, a: array<u64>, j: nat, i: nat, s: seq<u64>)
    requires a.Length == size * p.PolySize() && j < size && i < |p.moduli| && |s| == p.coeffCount
    modifies a
    ensures CtLimb(p, size, a[..], j, i) == s
    ensures forall j2, i2 :: 0 <= j2 < size && 0 <= i2 < |p.moduli| && (j2 != j || i2 != i) ==>
      CtLimb(p, size, a[..], j2, i2) == CtLimb(p, size, old(a[..]), j2, i2)
  {
    var n, l := p.coeffCount, |p.moduli|;
    MulMono(j + 1, size, p.PolySize());
    ComponentLimb(a[..], n, l, j, i);
    WriteLimb(a, n, LimbIndex(j, i, l), s);
    forall j2, i2 | 0 <= j2 < size && 0 <= i2 < l && (j2 != j || i2 != i)
      ensures CtLimb(p, size, a[..], j2, i2) == CtLimb(p, size, old(a[..]), j2, i2)
    {
      MulMono(j2 + 1, size, p.PolySize());
      ComponentLimb(old(a[..]), n, l, j2, i2);
      if LimbIndex(j2, i2, l) == LimbIndex(j, i, l) {
        LimbIndexInjective(j2, i2, j, i, l);
      }
    }
  }

  /** Applies the limb transform `f` to every limb of component `j`, limb by
      limb, as the loops over `coeff_modulus_size` that call an NTT on
      `c + i * coeff_count` do. */
  method TransformComponent(p: Params, size: nat, a: array<u64>, j: nat, f: (nat, seq<u64>) -> seq<u64>)
    requires a.Length == size * p.PolySize() && j < size
    requires forall i: nat, s: seq<u64> :: |f(i, s)| == |s|
    modifies a
    ensures forall i :: 0 <= i < |p.moduli| ==>
      CtLimb(p, size, a[..], j, i) == f(i, CtLimb(p, size, old(a[..]), j, i))
    ensures forall j2, i :: 0 <= j2 < size && j2 != j && 0 <= i < |p.moduli| ==>
      CtLimb(p, size, a[..], j2, i) == CtLimb(p, size, old(a[..]), j2, i)
  {
    for i := 0 to |p.moduli|
      invariant forall i2 :: 0 <= i2 < i ==>
        CtLimb(p, size, a[..], j, i2) == f(i2, CtLimb(p, size, old(a[..]), j, i2))
      invariant forall j2, i2 :: 0 <= j2 < size && 0 <= i2 < |p.moduli| && (j2 != j || i2 >= i) ==>
        CtLimb(p, size, a[..], j2, i2) == CtLimb(p, size, old(a[..]), j2, i2)
    {
      WriteCtLimb(p, size, a, j, i, f(i, CtLimb(p, size, a[..], j, i)));
    }
  }
}

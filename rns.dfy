/** Residue-number-system layout of a polynomial and the external per-modulus
    kernels the core calls.

    A polynomial is a flat buffer of `coeffCount * |moduli|` words in limb-major
    order: coefficient `i` of limb `j` (the residue modulo `moduli[j]`) sits at
    index `i + j * coeffCount`. A ciphertext is `size` such polynomials one after
    another, so its limb `i` of component `j` is limb number `j * |moduli| + i`
    of the whole buffer. */
module Rns {
  import opened Words

  /** The encryption parameters the core reads: `poly_modulus_degree` and the
      ordered coefficient modulus list (the RNS base). */
  datatype Params = Params(coeffCount: nat, moduli: seq<u64>)
  {
    /** Every coefficient modulus is at least 2 and fits in a word. */
    predicate Valid()
    {
      forall j :: 0 <= j < |moduli| ==> 1 < moduli[j]
    }

    /** poly_uint64_count: the number of words of one polynomial. */
    function PolySize(): nat
    {
      coeffCount * |moduli|
    }

    /** The coefficient stored at flat index `k` of a polynomial. */
    function CoeffOf(k: nat): (i: nat)
      requires k < PolySize()
      ensures i < coeffCount
      ensures k == Idx(i, LimbOf(k), coeffCount)
    {
      IndexCovers(k, coeffCount, |moduli|);
      k % coeffCount
    }

    /** The limb (modulus index) of flat index `k` of a polynomial. */
    function LimbOf(k: nat): (j: nat)
      requires k < PolySize()
      ensures j < |moduli|
    {
      IndexCovers(k, coeffCount, |moduli|);
      k / coeffCount
    }

    /** Coefficient `i` of limb `j` is stored at `Idx(i, j, coeffCount)` and
        nowhere else. */
    lemma IdxInverse(i: nat, j: nat)
      requires i < coeffCount && j < |moduli|
      ensures Idx(i, j, coeffCount) < PolySize()
      ensures CoeffOf(Idx(i, j, coeffCount)) == i && LimbOf(Idx(i, j, coeffCount)) == j
    {
      IndexInRange(i, j, coeffCount, |moduli|);
      IndexSplit(i, j, coeffCount);
    }
  }

  /** Flat index of coefficient `i` of limb `j` when limbs hold `n` words. */
  function Idx(i: nat, j: nat, n: nat): nat
  {
    i + j * n
  }

  /** Number of limb `i` of component `j` in a buffer of components of `l` limbs. */
  function LimbIndex(j: nat, i: nat, l: nat): nat
  {
    j * l + i
  }

  lemma MulMono(a: nat, b: nat, n: nat)
    requires a <= b
    ensures a * n <= b * n
  {
  }

  /** Coefficient `i < n` of limb `j < l` lies inside the `n * l` words. */
  lemma IndexInRange(i: nat, j: nat, n: nat, l: nat)
    requires i < n && j < l
    ensures Idx(i, j, n) < n * l
  {
    MulMono(j + 1, l, n);
  }

  /** The flat index determines the coefficient and the limb. */
  lemma IndexSplit(i: nat, j: nat, n: nat)
    requires i < n
    ensures Idx(i, j, n) % n == i && Idx(i, j, n) / n == j
  {
    var k := i + j * n;
    ModCongruent(k, i, j, n);
    var d := k / n;
    assert k == d * n + i;
    MulCancel(d, j, n);
  }

  /** Multiplication by a positive `n` is injective. */
  lemma MulCancel(a: int, b: int, n: int)
    requires n > 0 && a * n == b * n
    ensures a == b
  {
    if a < b {
      MulStrict(a, b, n);
    } else if b < a {
      MulStrict(b, a, n);
    }
  }

  lemma MulStrict(a: int, b: int, n: int)
    requires n > 0 && a < b
    ensures a * n < b * n
  {
    assert b * n - a * n == (b - a) * n;
  }

  /** Every word of an `n * l` buffer is some coefficient of some limb. */
  lemma IndexCovers(k: nat, n: nat, l: nat)
    requires k < n * l
    ensures n > 0 && k % n < n && k / n < l && k == Idx(k % n, k / n, n)
  {
    if k / n >= l {
      MulMono(l, k / n, n);
    }
  }

  lemma LimbIndexInjective(j: nat, i: nat, j2: nat, i2: nat, l: nat)
    requires i < l && i2 < l
    requires LimbIndex(j, i, l) == LimbIndex(j2, i2, l)
    ensures j == j2 && i == i2
  {
    IndexSplit(i, j, l);
    IndexSplit(i2, j2, l);
  }

  /** Limb `m` of a flat buffer whose limbs hold `n` words. */
  function Limb(s: seq<u64>, n: nat, m: nat): (r: seq<u64>)
    requires m * n + n <= |s|
    ensures |r| == n
  {
    s[m * n .. m * n + n]
  }

  lemma LimbFits(m: nat, count: nat, n: nat)
    requires m < count
    ensures m * n + n <= count * n
  {
    MulMono(m + 1, count, n);
  }

  /** Limb `j + 1` starts right after limb `j`, and limb `j < l` ends inside
      an `n * l` buffer. */
  lemma NextLimbStart(j: nat, n: nat, l: nat)
    requires j < l
    ensures (j + 1) * n == j * n + n
    ensures j * n + n <= n * l
  {
    MulMono(j + 1, l, n);
  }

  lemma LimbsApart(m: nat, m2: nat, n: nat)
    requires m < m2
    ensures m * n + n <= m2 * n
  {
    MulMono(m + 1, m2, n);
  }

  /** Entry `i` of limb `j` is the word at the flat index `Idx(i, j, n)`. */
  lemma LimbAt(s: seq<u64>, n: nat, j: nat, i: nat)
    requires j * n + n <= |s| && i < n
    ensures Limb(s, n, j)[i] == s[Idx(i, j, n)]
  {
  }

  lemma ComponentOffset(n: nat, l: nat, j: nat, i: nat)
    requires i < l
    ensures LimbIndex(j, i, l) * n == j * (n * l) + i * n
    ensures i * n + n <= n * l
    ensures (j + 1) * (n * l) == j * (n * l) + n * l
  {
    LimbFits(i, l, n);
    calc {
      LimbIndex(j, i, l) * n;
      (j * l + i) * n;
      j * l * n + i * n;
      { assert j * l * n == j * (n * l); }
      j * (n * l) + i * n;
    }
  }

  /** A limb of a sub-buffer is the matching slice of the whole buffer. */
  lemma SubLimb(s: seq<u64>, base: nat, size: nat, n: nat, i: nat)
    requires base + size <= |s| && i * n + n <= size
    ensures Limb(s[base .. base + size], n, i) == s[base + i * n .. base + i * n + n]
  {
    var sub := s[base .. base + size];
    assert Limb(sub, n, i) == sub[i * n .. i * n + n];
    assert sub[i * n .. i * n + n] == s[base + i * n .. base + i * n + n];
  }

  /** Limb `i` of component `j` read through the component's own buffer. */
  lemma ComponentLimb(s: seq<u64>, n: nat, l: nat, j: nat, i: nat)
    requires i < l && (j + 1) * (n * l) <= |s|
    ensures LimbIndex(j, i, l) * n + n <= |s|
    ensures j * (n * l) + n * l <= |s|
    ensures i * n + n <= n * l
    ensures Limb(s, n, LimbIndex(j, i, l)) == Limb(s[j * (n * l) .. j * (n * l) + n * l], n, i)
  {
    ComponentOffset(n, l, j, i);
    SubLimb(s, j * (n * l), n * l, n, i);
  }

  /** The all-zero polynomial written by set_zero_poly. */
  function Zeros(count: nat): (r: seq<u64>)
    ensures |r| == count && forall k :: 0 <= k < count ==> r[k] == 0
  {
    seq(count, k => 0)
  }

  // External kernels of polyarithsmallmod, on one limb, coefficient-wise modulo q.

  /** dyadic_product_coeffmod */
  function MulMod(a: seq<u64>, b: seq<u64>, q: u64): (r: seq<u64>)
    requires |a| == |b| && q > 0
    ensures |r| == |a| && forall k :: 0 <= k < |r| ==> r[k] < q
  {
    seq(|a|, k requires 0 <= k < |a| => (a[k] * b[k]) % q)
  }

  /** add_poly_coeffmod */
  function AddMod(a: seq<u64>, b: seq<u64>, q: u64): (r: seq<u64>)
    requires |a| == |b| && q > 0
    ensures |r| == |a| && forall k :: 0 <= k < |r| ==> r[k] < q
  {
    seq(|a|, k requires 0 <= k < |a| => (a[k] + b[k]) % q)
  }

  /** negate_poly_coeffmod */
  function NegMod(a: seq<u64>, q: u64): (r: seq<u64>)
    requires q > 0
    ensures |r| == |a| && forall k :: 0 <= k < |r| ==> r[k] < q
  {
    seq(|a|, k requires 0 <= k < |a| => (-a[k]) % q)
  }

  /** Values that differ by a multiple of `q` have the same residue. */
  lemma ModCongruent(a: int, b: int, k: int, q: int)
    requires q > 0 && a == b + k * q
    ensures a % q == b % q
  {
    var m := b / q + k - a / q;
    assert a % q - b % q == m * q;
    if m >= 1 {
      MulMono(1, m, q);
    }
  }

  /** Reducing an addend first does not change the sum modulo `q`. */
  lemma AddModLeft(x: int, c: int, q: int)
    requires q > 0
    ensures (x % q + c) % q == (x + c) % q
  {
    ModCongruent(x % q + c, x + c, -(x / q), q);
  }

  /** The negated sum of `x` and `c`, plus `c`, is `-x` modulo `q`: with
      `m == (x + c) mod q` and `y == -m mod q`, `(y + c) mod q == -x mod q`. */
  lemma NegSumPlus(x: int, c: int, q: int, m: int, y: int)
    requires q > 0 && m == (x + c) % q && y == (-m) % q
    ensures (y + c) % q == (-x) % q
  {
    assert x + c == (x + c) / q * q + m;
    assert -m == (-m) / q * q + y;
    ModCongruent(y + c, -x, (x + c) / q - (-m) / q, q);
  }

  /** The forward and inverse negacyclic NTT (ntt_negacyclic_harvey and
      inverse_ntt_negacyclic_harvey) of limb `i` under the tables of modulus
      `i`. They are not interpreted: only which limb is transformed, how often
      and in what order enters the model. */
  datatype Transforms = Transforms(forward: (nat, seq<u64>) -> seq<u64>, inverse: (nat, seq<u64>) -> seq<u64>)
  {
    /** Both transforms work in place, so they keep the length of a limb,
        and both leave every word of limb `i` reduced modulo `moduli[i]`. */
    ghost predicate Valid(p: Params)
    {
      (forall i: nat, s: seq<u64> :: |forward(i, s)| == |s|) &&
      (forall i: nat, s: seq<u64> :: |inverse(i, s)| == |s|) &&
      (forall i: nat, s: seq<u64>, t: nat :: i < |p.moduli| && t < |forward(i, s)| ==> forward(i, s)[t] < p.moduli[i]) &&
      (forall i: nat, s: seq<u64>, t: nat :: i < |p.moduli| && t < |inverse(i, s)| ==> inverse(i, s)[t] < p.moduli[i])
    }
  }

  /** Overwrites limb `m` of `a` with `s`: the in-place write of a kernel or
      transform whose destination is one limb of a buffer. */
  method WriteLimb(a: array<u64>, n: nat, m: nat, s: seq<u64>)
    requires |s| == n && m * n + n <= a.Length
    modifies a
    ensures Limb(a[..], n, m) == s
    ensures forall k :: 0 <= k < a.Length && !(m * n <= k < m * n + n) ==> a[k] == old(a[k])
    ensures forall m2: nat :: m2 != m && m2 * n + n <= a.Length ==>
      Limb(a[..], n, m2) == Limb(old(a[..]), n, m2)
  {
    var start := m * n;
    forall k | start <= k < start + n {
      a[k] := s[k - start];
    }
    forall m2: nat | m2 != m && m2 * n + n <= a.Length
      ensures Limb(a[..], n, m2) == Limb(old(a[..]), n, m2)
    {
      if m2 < m {
        LimbsApart(m2, m, n);
      } else {
        LimbsApart(m, m2, n);
      }
    }
  }
}

/** sample_poly_uniform: rejection sampling of every limb independently,
    limbs outer and coefficients inner, from a stream of 32-bit engine
    outputs. */
module Uniform {
  import opened Words
  import opened Rns
  import opened Outcomes

  /** `max_random - barrett_reduce_64(max_random, q) - 1` with
      `max_random = 0xFFFFFFFFFFFFFFFF`. One more than this bound is the
      largest multiple of `q` that fits in 64 bits, so the accepted range
      `[0, m)` holds one value fewer than a whole number of residue classes:
      residue `q - 1` has one accepted representative fewer than the others. */
  function MaxMultiple(q: u64): (m: int)
    requires q > 0
  {
    MAX_U64 - MAX_U64 % q - 1
  }

  lemma MaxMultipleShape(q: u64)
    requires q > 0
    ensures MaxMultiple(q) + 1 == (MAX_U64 / q) * q
    ensures MAX_U64 - q < MaxMultiple(q) + 1 <= MAX_U64
  {
  }

  /** An accepted 64-bit draw and the stream position after it. */
  datatype Draw = Draw(rand: u64, next: nat)

  /** Every 64-bit value glued from the outputs in `[from, to)` was rejected. */
  predicate AllRejected(words: seq<u32>, from: nat, to: nat, bound: int)
    requires from <= to <= |words|
    decreases (to as int) - (from as int)
  {
    from + 2 > to ||
    (Combine32(words[from], words[from + 1]) >= bound && AllRejected(words, from + 2, to, bound))
  }

  /** The do-while loop: glue the next two 32-bit outputs into one 64-bit
      value (the first as the high half) and start over while it is at least
      `bound`. None when the stream ends first. */
  function NextAccepted(words: seq<u32>, pos: nat, bound: int): (r: Option<Draw>)
    requires pos <= |words|
    ensures r.Some? ==> pos + 2 <= r.value.next <= |words|
    ensures r.Some? ==> r.value.rand < bound
    ensures r.Some? ==> r.value.rand == Combine32(words[r.value.next - 2], words[r.value.next - 1])
    decreases |words| - pos
  {
    if pos + 2 > |words| then None
    else
      var rand := Combine32(words[pos], words[pos + 1]);
      if rand >= bound then NextAccepted(words, pos + 2, bound)
      else Some(Draw(rand, pos + 2))
  }

  /** The loop stops at the first accepted value: every value glued before it
      was rejected, and when the stream runs out every value was. */
  lemma {:induction false} NextAcceptedRejects(words: seq<u32>, pos: nat, bound: int)
    requires pos <= |words|
    ensures var r := NextAccepted(words, pos, bound);
      (r.Some? ==> AllRejected(words, pos, r.value.next - 2, bound)) &&
      (r.None? ==> AllRejected(words, pos, |words|, bound))
    decreases |words| - pos
  {
    if pos + 2 <= |words| && Combine32(words[pos], words[pos + 1]) >= bound {
      NextAcceptedRejects(words, pos + 2, bound);
    }
  }

  /** The accepted 64-bit draws so far (one per coefficient, in flat order,
      which is limb-major) and the stream position reached. */
  datatype Progress = Progress(rands: seq<u64>, next: nat)

  /** The rest of the sampling loop, from flat coefficient `k` on: each
      coefficient takes the next value accepted below its limb's
      `max_multiple`. None when the stream runs out first. */
  function UniformFrom(p: Params, words: seq<u32>, k: nat, pr: Progress): (r: Option<Progress>)
    requires p.Valid() && k <= p.PolySize() && pr.next <= |words|
    ensures r.Some? ==> |r.value.rands| == |pr.rands| + (p.PolySize() - k) && r.value.next <= |words|
    decreases p.PolySize() - k
  {
    if k == p.PolySize() then Some(pr)
    else
      match NextAccepted(words, pr.next, MaxMultiple(p.moduli[p.LimbOf(k)]))
      case None => None
      case Some(d) => UniformFrom(p, words, k + 1, Progress(pr.rands + [d.rand], d.next))
  }

  /** The words stored for the accepted draws `rands`: each reduced modulo
      the modulus of its own limb. */
  function Residues(p: Params, rands: seq<u64>): (s: seq<u64>)
    requires p.Valid() && |rands| <= p.PolySize()
    ensures |s| == |rands|
  {
    seq(|rands|, t requires 0 <= t < |rands| => rands[t] % p.moduli[p.LimbOf(t)])
  }

  /** The polynomial sample_poly_uniform writes, or None when the stream is
      too short. */
  function UniformPoly(p: Params, words: seq<u32>): (r: Option<seq<u64>>)
    requires p.Valid()
    ensures r.Some? ==> |r.value| == p.PolySize()
  {
    match UniformFrom(p, words, 0, Progress([], 0))
    case None => None
    case Some(pr) => Some(Residues(p, pr.rands))
  }

  /** The draws of the whole polynomial, when the stream suffices. */
  function UniformDraws(p: Params, words: seq<u32>): (rands: seq<u64>)
    requires p.Valid() && UniformPoly(p, words).Some?
    ensures |rands| == p.PolySize()
    ensures UniformPoly(p, words).value == Residues(p, rands)
  {
    UniformFrom(p, words, 0, Progress([], 0)).value.rands
  }

  /** Every accepted draw lies below the `max_multiple` of its limb: the
      draws from `k` on keep the property the first `k` draws have. */
  lemma {:induction false} UniformFromBelow(p: Params, words: seq<u32>, k: nat, pr: Progress)
    requires p.Valid() && k <= p.PolySize() && pr.next <= |words| && |pr.rands| == k
    requires forall t :: 0 <= t < k ==> pr.rands[t] < MaxMultiple(p.moduli[p.LimbOf(t)])
    requires UniformFrom(p, words, k, pr).Some?
    ensures var rands := UniformFrom(p, words, k, pr).value.rands;
      forall t :: 0 <= t < p.PolySize() ==> rands[t] < MaxMultiple(p.moduli[p.LimbOf(t)])
    decreases p.PolySize() - k
  {
    if k < p.PolySize() {
      var d := NextAccepted(words, pr.next, MaxMultiple(p.moduli[p.LimbOf(k)])).value;
      UniformFromBelow(p, words, k + 1, Progress(pr.rands + [d.rand], d.next));
    }
  }

  /** Coefficient `i` of limb `j` is a residue modulo `moduli[j]`, reduced
      from an accepted 64-bit draw below that limb's `max_multiple`. */
  lemma UniformPolyAt(p: Params, words: seq<u32>, i: nat, j: nat)
    requires p.Valid() && UniformPoly(p, words).Some?
    requires i < p.coeffCount && j < |p.moduli|
    ensures Idx(i, j, p.coeffCount) < p.PolySize()
    ensures var k := Idx(i, j, p.coeffCount);
      var rands := UniformDraws(p, words);
      UniformPoly(p, words).value[k] < p.moduli[j] &&
      rands[k] < MaxMultiple(p.moduli[j]) &&
      UniformPoly(p, words).value[k] == rands[k] % p.moduli[j]
  {
    p.IdxInverse(i, j);
    UniformFromBelow(p, words, 0, Progress([], 0));
  }

  /** The do-while loop of the source, run from stream position `pos`. */
  method DrawBelow(words: seq<u32>, pos: nat, bound: int) returns (r: Option<Draw>)
    requires pos <= |words|
    ensures r == NextAccepted(words, pos, bound)
  {
    var next := pos;
    var rand: u64 := 0;
    var accepted := false;
    while !accepted
      invariant pos <= next <= |words|
      invariant accepted ==> NextAccepted(words, pos, bound) == Some(Draw(rand, next))
      invariant !accepted ==> NextAccepted(words, next, bound) == NextAccepted(words, pos, bound)
      decreases |words| - next, if accepted then 0 else 1
    {
      if next + 2 > |words| {
        return None;
      }
      rand := Combine32(words[next], words[next + 1]);
      next := next + 2;
      accepted := rand < bound;
    }
    return Some(Draw(rand, next));
  }

  /** One pass of the inner loop body: draw the next accepted value and
      store its residue at flat index `k` of the destination. */
  method FillOne(p: Params, words: seq<u32>, dest: array<u64>, off: nat, k: nat,
                 pos: nat, ghost rands: seq<u64>)
    returns (ok: bool, next: nat, ghost rands': seq<u64>)
    requires p.Valid() && k < p.PolySize() && off + p.PolySize() <= dest.Length
    requires pos <= |words| && |rands| == k
    requires dest[off .. off + k] == Residues(p, rands)
    modifies dest
    ensures !ok ==> UniformFrom(p, words, k, Progress(rands, pos)).None?
    ensures ok ==> next <= |words| && |rands'| == k + 1
    ensures ok ==> UniformFrom(p, words, k + 1, Progress(rands', next)) == UniformFrom(p, words, k, Progress(rands, pos))
    ensures ok ==> dest[off .. off + k + 1] == Residues(p, rands')
    ensures forall m :: 0 <= m < dest.Length && m != off + k ==> dest[m] == old(dest[m])
  {
    var q := p.moduli[p.LimbOf(k)];
    var draw := DrawBelow(words, pos, MaxMultiple(q));
    if draw.None? {
      return false, pos, rands;
    }
    var rand := draw.value.rand;
    dest[off + k] := rand % q;
    rands' := rands + [rand];
    assert dest[off .. off + k + 1] == dest[off .. off + k] + [rand % q];
    assert Residues(p, rands') == Residues(p, rands) + [rand % q];
    return true, draw.value.next, rands';
  }

  /** The inner loop for one limb: flat coefficients `base .. base + n`,
      where `base = j * n` for limb `j`. */
  method FillLimb(p: Params, words: seq<u32>, dest: array<u64>, off: nat, base: nat,
                  pos: nat, ghost rands: seq<u64>)
    returns (ok: bool, next: nat, ghost rands': seq<u64>)
    requires p.Valid() && off + p.PolySize() <= dest.Length
    requires base + p.coeffCount <= p.PolySize()
    requires pos <= |words| && |rands| == base
    requires dest[off .. off + base] == Residues(p, rands)
    modifies dest
    ensures !ok ==> UniformFrom(p, words, base, Progress(rands, pos)).None?
    ensures ok ==> next <= |words| && |rands'| == base + p.coeffCount
    ensures ok ==> UniformFrom(p, words, base + p.coeffCount, Progress(rands', next))
                   == UniformFrom(p, words, base, Progress(rands, pos))
    ensures ok ==> dest[off .. off + base + p.coeffCount] == Residues(p, rands')
    ensures forall m :: 0 <= m < dest.Length && !(off + base <= m < off + base + p.coeffCount) ==> dest[m] == old(dest[m])
  {
    next, rands' := pos, rands;
    for k := base to base + p.coeffCount
      invariant next <= |words| && |rands'| == k
      invariant UniformFrom(p, words, k, Progress(rands', next)) == UniformFrom(p, words, base, Progress(rands, pos))
      invariant dest[off .. off + k] == Residues(p, rands')
      invariant forall m :: 0 <= m < dest.Length && !(off + base <= m < off + k) ==> dest[m] == old(dest[m])
    {
      ok, next, rands' := FillOne(p, words, dest, off, k, next, rands');
      if !ok {
        return;
      }
    }
    ok := true;
  }

  /** Writes the sampled polynomial at `dest[off .. off + PolySize()]`, the
      position of `destination` in the source. `ok` is false only when the
      given stream is too short. */
  method SampleUniform(p: Params, words: seq<u32>, dest: array<u64>, off: nat) returns (ok: bool)
    requires p.Valid() && off + p.PolySize() <= dest.Length
    modifies dest
    ensures ok <==> UniformPoly(p, words).Some?
    ensures ok ==> dest[off .. off + p.PolySize()] == UniformPoly(p, words).value
    ensures dest[..off] == old(dest[..off])
    ensures dest[off + p.PolySize() ..] == old(dest[off + p.PolySize() ..])
  {
    var n, l := p.coeffCount, |p.moduli|;
    var pos: nat := 0;
    var base: nat := 0;
    ghost var rands: seq<u64> := [];
    for j := 0 to l
      invariant base == j * n && base <= p.PolySize()
      invariant pos <= |words| && |rands| == base
      invariant UniformFrom(p, words, base, Progress(rands, pos)) == UniformFrom(p, words, 0, Progress([], 0))
      invariant dest[off .. off + base] == Residues(p, rands)
      invariant dest[..off] == old(dest[..off])
      invariant dest[off + p.PolySize() ..] == old(dest[off + p.PolySize() ..])
    {
      NextLimbStart(j, n, l);
      ok, pos, rands := FillLimb(p, words, dest, off, base, pos, rands);
      if !ok {
        return;
      }
      base := base + n;
    }
    assert l * n == p.PolySize();
    ok := true;
  }
}

/** Machine-word arithmetic of the samplers: unsigned 64-bit wrap-around, the
    all-ones / all-zeros selector mask, and the bitwise AND, OR and shift the
    samplers apply to 64-bit words. Bitwise operations are defined bit by bit on
    integers, least significant bit first. */
module Words {
  const WORD: int := 0x1_0000_0000_0000_0000
  /** 0xFFFFFFFFFFFFFFFF, the largest uint64_t value. */
  const MAX_U64: int := 0xFFFF_FFFF_FFFF_FFFF

  type u64 = x: int | 0 <= x < 0x1_0000_0000_0000_0000
  type u32 = x: int | 0 <= x < 0x1_0000_0000
  type i64 = x: int | -0x8000_0000_0000_0000 <= x < 0x8000_0000_0000_0000

  /** The uint64_t value of an integer: C++ unsigned arithmetic and
      static_cast<uint64_t> reduce modulo 2^64. */
  function Wrap(x: int): (r: u64)
    ensures 0 <= x < WORD ==> r == x
    ensures -WORD <= x < 0 ==> r == x + WORD
    ensures WORD <= x < 2 * WORD ==> r == x - WORD
  {
    x % WORD
  }

  /** The least non-negative residue of a value less than `q` away from 0. */
  lemma ModOfSmall(x: int, q: int)
    ensures 0 < q && -q <= x < q ==> x % q == if x < 0 then x + q else x
  {
  }

  function Pow2(k: nat): (r: nat)
    ensures r >= 1
  {
    if k == 0 then 1 else 2 * Pow2(k - 1)
  }

  lemma {:induction false} Pow2Add(a: nat, b: nat)
    ensures Pow2(a + b) == Pow2(a) * Pow2(b)
  {
    if a > 0 {
      Pow2Add(a - 1, b);
      assert Pow2(a + b) == 2 * Pow2(a - 1 + b);
    }
  }

  /** The powers of two the word arithmetic needs. */
  lemma Pow2Values()
    ensures Pow2(16) == 0x1_0000
    ensures Pow2(32) == 0x1_0000_0000
    ensures Pow2(64) == WORD
  {
    Pow2Add(4, 4);
    Pow2Add(8, 8);
    assert Pow2(16) == 0x1_0000;
    Pow2Add(16, 16);
    assert Pow2(32) == 0x1_0000_0000;
    Pow2Add(32, 32);
  }

  /** Bitwise AND of the low `k` bits of `a` and `b`. */
  function AndBits(a: nat, b: nat, k: nat): (r: nat)
    ensures r < Pow2(k)
  {
    if k == 0 then 0
    else 2 * AndBits(a / 2, b / 2, k - 1) + (if a % 2 == 1 && b % 2 == 1 then 1 else 0)
  }

  /** Bitwise OR of the low `k` bits of `a` and `b`. */
  function OrBits(a: nat, b: nat, k: nat): (r: nat)
    ensures r < Pow2(k)
  {
    if k == 0 then 0
    else 2 * OrBits(a / 2, b / 2, k - 1) + (if a % 2 == 1 || b % 2 == 1 then 1 else 0)
  }

  /** `a & b` on uint64_t. */
  function And64(a: u64, b: u64): u64
  {
    Pow2Values();
    AndBits(a, b, 64)
  }

  /** `a | b` on uint64_t. */
  function Or64(a: u64, b: u64): u64
  {
    Pow2Values();
    OrBits(a, b, 64)
  }

  /** `a << s` on uint64_t: the bits shifted past bit 63 are lost. */
  function Shl64(a: u64, s: nat): u64
  {
    Wrap(a * Pow2(s))
  }

  /** `static_cast<uint64_t>(-static_cast<int64_t>(cond))`: the branchless
      selector the samplers compute from a comparison. */
  function SignMask(cond: bool): (m: u64)
    ensures m == (if cond then MAX_U64 else 0)
  {
    Wrap(-(if cond then 1 else 0))
  }

  lemma {:induction false} AndZero(b: nat, k: nat)
    ensures AndBits(0, b, k) == 0
  {
    if k > 0 {
      AndZero(b / 2, k - 1);
    }
  }

  lemma {:induction false} AndAllOnes(b: nat, k: nat)
    requires b < Pow2(k)
    ensures AndBits(Pow2(k) - 1, b, k) == b
  {
    if k > 0 {
      assert (Pow2(k) - 1) / 2 == Pow2(k - 1) - 1;
      assert (Pow2(k) - 1) % 2 == 1;
      AndAllOnes(b / 2, k - 1);
    }
  }

  /** The selector mask picks `q` when the condition holds and 0 otherwise, so
      `flag & q` replaces a data-dependent branch. */
  lemma MaskSelects(cond: bool, q: u64)
    ensures And64(SignMask(cond), q) == (if cond then q else 0)
  {
    Pow2Values();
    if cond {
      AndAllOnes(q, 64);
    } else {
      AndZero(q, 64);
    }
  }

  lemma {:induction false} OrZero(a: nat, k: nat)
    requires a < Pow2(k)
    ensures OrBits(a, 0, k) == a
  {
    if k > 0 {
      OrZero(a / 2, k - 1);
    }
  }

  /** OR-ing `b` into the zero low bits of `a << k` adds it. */
  lemma {:induction false} OrShifted(a: nat, b: nat, k: nat, m: nat)
    requires b < Pow2(k)
    requires a * Pow2(k) + b < Pow2(m)
    ensures OrBits(a * Pow2(k), b, m) == a * Pow2(k) + b
  {
    if k == 0 {
      assert b == 0;
      OrZero(a, m);
    } else {
      var x := a * Pow2(k);
      var h := a * Pow2(k - 1);
      assert x == 2 * h;
      assert x / 2 == h && x % 2 == 0;
      if m > 0 {
        assert h + b / 2 < Pow2(m - 1);
        OrShifted(a, b / 2, k - 1, m - 1);
      }
    }
  }

  /** `(static_cast<uint64_t>(hi) << 32) | static_cast<uint64_t>(lo)`: two
      32-bit draws glued into one 64-bit value, `hi` in the upper half.
      Stated arithmetically; ShiftOrIsCombine32 shows it is the shift-or. */
  function Combine32(hi: u32, lo: u32): u64
  {
    hi * 0x1_0000_0000 + lo
  }

  lemma ShiftOrIsCombine32(hi: u32, lo: u32)
    ensures Or64(Shl64(hi, 32), lo) == Combine32(hi, lo)
    ensures Combine32(hi, lo) / 0x1_0000_0000 == hi && Combine32(hi, lo) % 0x1_0000_0000 == lo
  {
    Pow2Values();
    Pow2Add(32, 32);
    assert Shl64(hi, 32) == hi * Pow2(32);
    OrShifted(hi, lo, 32, 64);
  }
}

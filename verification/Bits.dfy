/** Machine-word arithmetic on mathematical integers. Every shift, mask and wrap of the
    modelled code is written out here, so that no result silently uses unbounded integers. */
module Bits {

  type byte = b: int | 0 <= b < 0x100
  type u32 = w: int | 0 <= w < 0x1_0000_0000
  type u64 = w: int | 0 <= w < 0x1_0000_0000_0000_0000

  const U32_MAX := 0xFFFF_FFFF
  const U32_MOD := 0x1_0000_0000
  const U64_MAX := 0xFFFF_FFFF_FFFF_FFFF
  const U64_MOD := 0x1_0000_0000_0000_0000

  function Min(a: int, b: int): int { if a <= b then a else b }

  function Max(a: int, b: int): int { if a >= b then a else b }

  function Pow2(k: nat): (p: nat)
    ensures p > 0
  {
    if k == 0 then 1 else 2 * Pow2(k - 1)
  }

  /** Bitwise or, bit by bit from the lowest. */
  function Or(a: nat, b: nat): nat
    decreases a + b
  {
    if a == 0 && b == 0 then 0
    else (if a % 2 == 1 || b % 2 == 1 then 1 else 0) + 2 * Or(a / 2, b / 2)
  }

  lemma {:induction false} OrZero(a: nat)
    ensures Or(a, 0) == a
  {
    if a > 0 { OrZero(a / 2); }
  }

  /** When the second operand starts above the bits of the first, `or` is addition. */
  lemma {:induction false} OrDisjoint(a: nat, m: nat, k: nat)
    requires a < Pow2(k)
    ensures Or(a, m * Pow2(k)) == a + m * Pow2(k)
    decreases k
  {
    if k == 0 {
      assert a == 0;
      OrZeroLeft(m);
    } else {
      var h := m * Pow2(k - 1);
      assert m * Pow2(k) == 2 * h;
      OrDisjoint(a / 2, m, k - 1);
      if a == 0 && h == 0 {
      } else {
        assert (2 * h) / 2 == h;
        assert (2 * h) % 2 == 0;
      }
    }
  }

  lemma {:induction false} OrZeroLeft(b: nat)
    ensures Or(0, b) == b
  {
    if b > 0 { OrZeroLeft(b / 2); }
  }

  lemma {:induction false} OrCommutes(a: nat, b: nat)
    ensures Or(a, b) == Or(b, a)
    decreases a + b
  {
    if a > 0 || b > 0 { OrCommutes(a / 2, b / 2); }
  }

  /** `word << k` in a register of `width` bits: the bits pushed out are lost. */
  function Shl(w: nat, k: nat, width: nat): nat { (w * Pow2(k)) % Pow2(width) }

  lemma PowersUsed()
    ensures Pow2(0) == 1 && Pow2(2) == 4 && Pow2(4) == 16 && Pow2(6) == 64 && Pow2(7) == 128 && Pow2(8) == 256
    ensures Pow2(32) == U32_MOD
    ensures Pow2(63) == 0x8000_0000_0000_0000 && Pow2(64) == U64_MOD
  {
    assert Pow2(8) == 256;
    assert Pow2(16) == 0x1_0000 by { assert Pow2(12) == 4096; }
    assert Pow2(24) == 0x100_0000 by { assert Pow2(20) == 0x10_0000; }
    assert Pow2(32) == U32_MOD by { assert Pow2(28) == 0x1000_0000; }
    assert Pow2(48) == 0x1_0000_0000_0000 by {
      assert Pow2(36) == 0x10_0000_0000; assert Pow2(40) == 0x100_0000_0000; assert Pow2(44) == 0x1000_0000_0000;
    }
    assert Pow2(64) == U64_MOD by {
      assert Pow2(52) == 0x10_0000_0000_0000;
      assert Pow2(56) == 0x100_0000_0000_0000;
      assert Pow2(60) == 0x1000_0000_0000_0000;
    }
  }

  lemma {:induction false} Pow2Add(a: nat, b: nat)
    ensures Pow2(a + b) == Pow2(a) * Pow2(b)
    decreases a
  {
    if a == 0 {
      assert Pow2(0) == 1;
    } else {
      Pow2Add(a - 1, b);
      assert Pow2(a + b) == 2 * Pow2(a - 1 + b);
      assert 2 * (Pow2(a - 1) * Pow2(b)) == (2 * Pow2(a - 1)) * Pow2(b);
    }
  }
}

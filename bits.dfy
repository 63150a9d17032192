/**
 * Bitwise OR and XOR on natural numbers, defined bit by bit, and the facts
 * the sample decoder relies on: OR of non-overlapping bit fields is a sum,
 * and XOR with the top bit of a field flips that bit.
 */
module Bits {

  /** `2^k`, the value of `1 << k`. */
  function Pow2(k: nat): (p: nat)
    ensures p >= 1
  {
    if k == 0 then 1 else 2 * Pow2(k - 1)
  }

  /** The shift amounts the 24-bit sample codec uses. */
  lemma Pow2Values()
    ensures Pow2(8) == 0x100 && Pow2(16) == 0x1_0000 && Pow2(23) == 0x80_0000
  {
    assert Pow2(4) == 16;
    assert Pow2(8) == 0x100;
    assert Pow2(12) == 0x1000;
    assert Pow2(16) == 0x1_0000;
    assert Pow2(20) == 0x10_0000;
  }

  /** `a | b` for natural numbers. */
  function Or(a: nat, b: nat): nat
    decreases a + b
  {
    if a == 0 then b
    else if b == 0 then a
    else 2 * Or(a / 2, b / 2) + (if a % 2 == 1 || b % 2 == 1 then 1 else 0)
  }

  /** `a ^ b` for natural numbers. */
  function Xor(a: nat, b: nat): nat
    decreases a + b
  {
    if a == 0 then b
    else if b == 0 then a
    else 2 * Xor(a / 2, b / 2) + (if a % 2 != b % 2 then 1 else 0)
  }

  /** Doubling both operands doubles their OR. */
  lemma OrDouble(x: nat, y: nat)
    ensures Or(2 * x, 2 * y) == 2 * Or(x, y)
  {
  }

  /** One more bit of shift doubles the shifted value. */
  lemma ShiftStep(x: nat, k: nat)
    requires k > 0
    ensures x * Pow2(k) == 2 * (x * Pow2(k - 1))
  {
  }

  /** Shifting both operands left by `k` bits shifts their OR by `k` bits. */
  lemma {:induction false} OrShift(x: nat, y: nat, k: nat)
    ensures Or(x * Pow2(k), y * Pow2(k)) == Or(x, y) * Pow2(k)
  {
    if k > 0 {
      var p := Pow2(k - 1);
      OrShift(x, y, k - 1);
      OrDouble(x * p, y * p);
      ShiftStep(x, k);
      ShiftStep(y, k);
      ShiftStep(Or(x, y), k);
    }
  }

  /** OR of a field shifted left by `k` bits with a value below `2^k` is their sum. */
  lemma {:induction false} OrDisjoint(a: nat, b: nat, k: nat)
    requires b < Pow2(k)
    ensures Or(a * Pow2(k), b) == a * Pow2(k) + b
  {
    if k > 0 && a != 0 && b != 0 {
      var p := Pow2(k - 1);
      assert a * Pow2(k) == 2 * (a * p);
      assert (a * Pow2(k)) / 2 == a * p && (a * Pow2(k)) % 2 == 0;
      OrDisjoint(a, b / 2, k - 1);
    } else if a == 0 {
      assert a * Pow2(k) == 0;
    }
  }

  /**
   * XOR with `2^k` flips bit `k` of a value below `2^(k+1)`: it adds `2^k`
   * when the bit is clear and subtracts it when the bit is set.
   */
  lemma {:induction false} XorTopBit(u: nat, k: nat)
    requires u < 2 * Pow2(k)
    ensures Xor(u, Pow2(k)) == if u < Pow2(k) then u + Pow2(k) else u - Pow2(k)
  {
    if k > 0 && u != 0 {
      XorTopBit(u / 2, k - 1);
    }
  }
}

/** Whole numbers as bit strings: the operators JavaScript applies to 32-bit words. */
module Bits {
  type Word = h: int | 0 <= h < 0x1_0000_0000

  /** Exclusive or, bit by bit. */
  function Xor(a: nat, b: nat): nat {
    if a == 0 && b == 0 then 0 else Bit(a, b) + 2 * Xor(a / 2, b / 2)
  }

  function Bit(a: nat, b: nat): nat { if a % 2 == b % 2 then 0 else 1 }

  lemma XorBits(a: nat, b: nat)
    ensures Xor(a, b) % 2 == Bit(a, b)
    ensures Xor(a, b) / 2 == Xor(a / 2, b / 2)
  {
    ByBit(Bit(a, b), Xor(a / 2, b / 2));
  }

  lemma ByBit(bit: nat, half: nat)
    requires bit < 2
    ensures (bit + 2 * half) % 2 == bit && (bit + 2 * half) / 2 == half
  {
  }

  lemma {:induction false} XorTwice(a: nat, b: nat)
    ensures Xor(Xor(a, b), b) == a
    decreases a + b
  {
    if a != 0 || b != 0 {
      XorTwice(a / 2, b / 2);
      XorBits(a, b);
      XorBits(Xor(a, b), b);
      assert Xor(Xor(a, b), b) == a;
    }
  }

  lemma {:induction false} XorCommutes(a: nat, b: nat)
    ensures Xor(a, b) == Xor(b, a)
  {
    if a != 0 || b != 0 { XorCommutes(a / 2, b / 2); }
  }

  function Pow2(n: nat): nat { if n == 0 then 1 else 2 * Pow2(n - 1) }

  lemma {:induction false} XorBounded(a: nat, b: nat, n: nat)
    requires a < Pow2(n) && b < Pow2(n)
    ensures Xor(a, b) < Pow2(n)
  {
    if n > 0 && (a != 0 || b != 0) { XorBounded(a / 2, b / 2, n - 1); }
  }

  /** Inclusive or, bit by bit. */
  function Or(a: nat, b: nat): nat {
    if a == 0 && b == 0 then 0 else (if a % 2 == 1 || b % 2 == 1 then 1 else 0) + 2 * Or(a / 2, b / 2)
  }

  /** `n << k`, without a width. */
  function Shifted(n: nat, k: nat): nat { if k == 0 then n else 2 * Shifted(n, k - 1) }

  lemma {:induction false} OrZero(b: nat)
    ensures Or(0, b) == b
  {
    if b != 0 { OrZero(b / 2); }
  }

  /** Bits that do not overlap add up. */
  lemma {:induction false} OrAdds(a: nat, c: nat, k: nat)
    requires a < Pow2(k)
    ensures Or(a, Shifted(c, k)) == a + Shifted(c, k)
    decreases k
  {
    if k == 0 {
      OrZero(c);
    } else {
      var half := Shifted(c, k - 1);
      ByBit(0, half);
      OrAdds(a / 2, c, k - 1);
      if a == 0 && half == 0 { assert Shifted(c, k) == 0; }
    }
  }

  lemma {:induction false} ShiftedIs(n: nat, k: nat)
    ensures Shifted(n, k) == n * Pow2(k)
  {
    if k > 0 { ShiftedIs(n, k - 1); }
  }
}

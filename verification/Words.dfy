/** Bit operations on 32-bit words, kept as numbers. */
module Words {
  import opened Arith

  const W: int := 0x1_0000_0000

  /** Bitwise or. */
  function Or(a: nat, b: nat): nat {
    if a == 0 then b
    else if b == 0 then a
    else 2 * Or(a / 2, b / 2) + (if a % 2 == 1 || b % 2 == 1 then 1 else 0)
  }

  function Shl(a: nat, n: nat): nat { (a * Pow2(n)) % W }

  function Shr(a: nat, n: nat): int { a / Pow2(n) }

  /** Where the bits do not meet, or is addition. */
  lemma {:induction false} OrIsSum(c: nat, k: nat, a: nat)
    requires a < Pow2(k)
    ensures Or(c * Pow2(k), a) == c * Pow2(k) + a
    decreases k
  {
    if k > 0 && c * Pow2(k) != 0 && a != 0 {
      OrIsSum(c, k - 1, a / 2);
      MulSwap(c, 2, Pow2(k - 1));
      var b := c * Pow2(k - 1);
      assert c * Pow2(k) == 2 * b && (2 * b) / 2 == b && (2 * b) % 2 == 0;
    }
  }

  lemma OrCommutes(a: nat, b: nat)
    ensures Or(a, b) == Or(b, a)
  {
  }

  lemma Pow2Constants()
    ensures Pow2(8) == 0x100 && Pow2(20) == 0x10_0000 && Pow2(21) == 0x20_0000 && Pow2(23) == 0x80_0000
    ensures Pow2(31) == 0x8000_0000 && Pow2(32) == W && Pow2(52) == 0x10_0000 * W
  {
    assert Pow2(8) == 0x100;
    Pow2Add(8, 8);
    Pow2Add(16, 4);
    Pow2Add(16, 5);
    Pow2Add(16, 7);
    Pow2Add(16, 8);
    Pow2Add(23, 8);
    Pow2Add(16, 16);
    Pow2Add(20, 32);
  }
}

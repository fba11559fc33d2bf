/** Facts about products and remainders that several modules use. */
module Arith {

  lemma MulAtLeast(a: int, b: int)
    requires 1 <= a && 1 <= b
    ensures a <= a * b && b <= a * b
  {
  }

  lemma MulMono(a: int, b: int, c: int)
    requires a <= b && 0 <= c
    ensures a * c <= b * c
  {
  }

  lemma MulNegative(d: int, w: int)
    requires 1 <= w
    ensures d <= -1 ==> d * w <= -w
  {
  }

  lemma MulDistributes(a: int, b: int, c: int)
    ensures a * (b + c) == a * b + a * c
    ensures (b + c) * a == b * a + c * a
  {
  }

  lemma MulAssoc(a: int, b: int, c: int)
    ensures (a * b) * c == a * (b * c)
  {
  }

  lemma MulSwap(a: int, b: int, c: int)
    ensures a * (b * c) == b * (a * c)
  {
  }

  lemma ModOfMultiplePlus(f: int, q: int, r: int)
    requires 0 <= r < f
    ensures (f * q + r) % f == r && (f * q + r) / f == q
  {
    var n := f * q + r;
    var e := q - n / f;
    MulDistributes(f, q, -(n / f));
    assert f * e == n % f - r;
    assert e >= 1 ==> f * e >= f;
    assert e <= -1 ==> f * e <= -f;
  }

  /** A divisor of a factor divides the product. */
  lemma DivisorOfFactor(d: int, a: int, b: int)
    requires d != 0 && a % d == 0
    ensures (a * b) % d == 0
  {
    var q := a / d;
    assert a == d * q;
    MulAssoc(d, q, b);
    if 0 < d {
      ModOfMultiplePlus(d, q * b, 0);
    } else {
      ModOfMultiplePlus(-d, -(q * b), 0);
      assert (a * b) == (-d) * (-(q * b));
    }
  }

  lemma DividesThrough(d: int, p: int, n: int)
    requires d != 0 && p != 0 && p % d == 0 && n % p == 0
    ensures n % d == 0
  {
    assert n == p * (n / p);
    DivisorOfFactor(d, p, n / p);
  }

  // ----- Powers of two

  function Pow2(n: nat): (p: nat)
    ensures 0 < p
  {
    if n == 0 then 1 else 2 * Pow2(n - 1)
  }

  lemma {:induction false} Pow2Add(a: nat, b: nat)
    ensures Pow2(a + b) == Pow2(a) * Pow2(b)
    decreases b
  {
    if b > 0 {
      Pow2Add(a, b - 1);
      MulSwap(Pow2(a), 2, Pow2(b - 1));
    }
  }

  lemma {:induction false} Pow2Mono(a: nat, b: nat)
    requires a <= b
    ensures Pow2(a) <= Pow2(b)
    decreases b
  {
    if a < b {
      Pow2Mono(a, b - 1);
    }
  }

  /** Remainders scale with both arguments. */
  lemma ModScales(x: nat, y: nat, c: nat)
    requires 0 < y && 0 < c
    ensures 0 < y * c && (x * c) % (y * c) == (x % y) * c
  {
    var q, r := x / y, x % y;
    MulAtLeast(y, c);
    MulMono(0, r, c);
    MulMono(r, y - 1, c);
    MulDistributes(c, y, -1);
    assert x * c == (y * c) * q + r * c by {
      assert x == y * q + r;
      MulDistributes(c, y * q, r);
      MulSwap(c, y, q);
      MulAssoc(y, c, q);
    }
    ModOfMultiplePlus(y * c, q, r * c);
  }

  /** A multiple of the modulus may be dropped. */
  lemma ModDropsMultiple(a: int, m: int, k: int)
    requires 0 < m
    ensures (a + m * k) % m == a % m
  {
    var q, r := a / m, a % m;
    MulDistributes(m, q, k);
    ModOfMultiplePlus(m, q + k, r);
  }
}

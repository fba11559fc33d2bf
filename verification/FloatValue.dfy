/**
 Finite binary floating-point numbers as exact integers, and the arithmetic behind the
 shift-subtract remainder.  `P` is the number of fraction bits: 23 or 52.
 */
module FloatValue {
  import opened Arith

  /** The magnitude with exponent field e and fraction f, in units of the least subnormal. */
  function Value(e: nat, f: nat, P: nat): int {
    if e == 0 then f else (Pow2(P) + f) * Pow2(e - 1)
  }

  /** The remainder of magnitudes; a zero divisor never gets this far. */
  function Remainder(x: int, y: int): int {
    if y == 0 then x else x % y
  }

  lemma MulNat(a: int, b: int)
    requires 0 <= a && 0 <= b
    ensures 0 <= a * b
  {
  }

  lemma StrictBelow(a: int, b: int, c: int)
    requires a < b && 0 < c
    ensures a * c < b * c
  {
    MulMono(a + 1, b, c);
    MulDistributes(c, a, 1);
  }

  lemma ValueBounds(e: nat, f: nat, P: nat)
    requires f < Pow2(P)
    ensures 0 <= Value(e, f, P) < Pow2(P) * Pow2(e)
    ensures 1 <= e ==> Pow2(P) * Pow2(e - 1) <= Value(e, f, P)
  {
    if 1 <= e {
      var p, q := Pow2(P), Pow2(e - 1);
      MulNat(p, q);
      MulMono(p, p + f, q);
      StrictBelow(p + f, 2 * p, q);
      MulAssoc(2, p, q);
      MulSwap(2, p, q);
    }
  }

  lemma LargerFraction(e: nat, f: nat, g: nat, P: nat)
    requires f < g
    ensures Value(e, f, P) < Value(e, g, P)
  {
    if 1 <= e {
      StrictBelow(Pow2(P) + f, Pow2(P) + g, Pow2(e - 1));
    }
  }

  lemma LargerExponent(e: nat, f: nat, d: nat, g: nat, P: nat)
    requires f < Pow2(P) && g < Pow2(P) && e < d
    ensures Value(e, f, P) < Value(d, g, P)
  {
    hide Value, Pow2;
    ValueBounds(e, f, P);
    ValueBounds(d, g, P);
    Pow2Mono(e, d - 1);
    MulMono(Pow2(e), Pow2(d - 1), Pow2(P));
  }

  /** Larger fields, larger value. */
  lemma ValueMonotone(e: nat, f: nat, d: nat, g: nat, P: nat)
    requires f < Pow2(P) && g < Pow2(P) && (e < d || (e == d && f < g))
    ensures Value(e, f, P) < Value(d, g, P)
  {
    hide Value, Pow2;
    if e < d {
      LargerExponent(e, f, d, g, P);
    } else {
      LargerFraction(e, f, g, P);
    }
  }

  /** v times 2^P written as a significand of P+1 bits and an exponent. */
  ghost predicate Normal(v: int, m: int, e: nat, P: nat) {
    v * Pow2(P) == m * Pow2(e) && Pow2(P) <= m < 2 * Pow2(P)
  }

  lemma NormalFields(e: nat, f: nat, P: nat)
    requires 1 <= e && f < Pow2(P)
    ensures Normal(Value(e, f, P), Pow2(P) + f, e - 1 + P, P)
  {
    Pow2Add(e - 1, P);
    MulAssoc(Pow2(P) + f, Pow2(e - 1), Pow2(P));
  }

  lemma SubnormalFields(f: nat, k: nat, P: nat)
    requires k <= P && Pow2(P) <= f * Pow2(k) < 2 * Pow2(P)
    ensures Normal(f, f * Pow2(k), P - k, P)
  {
    Pow2Add(k, P - k);
    MulAssoc(f, Pow2(k), Pow2(P - k));
  }

  /** The larger of two numbers has the larger exponent. */
  lemma ExponentOrder(x: int, mx: int, ex: nat, y: int, my: int, ey: nat, P: nat)
    requires Normal(x, mx, ex, P) && Normal(y, my, ey, P) && y < x
    ensures ey <= ex
  {
    if ex < ey {
      StrictBelow(y, x, Pow2(P));
      Pow2Mono(ex + 1, ey);
      LowerExponent(mx, my, Pow2(P), Pow2(ex), Pow2(ey));
      assert false;
    }
  }

  lemma LowerExponent(mx: int, my: int, p: int, a: int, b: int)
    requires 0 < a && 0 < p <= my && mx < 2 * p && 2 * a <= b
    ensures mx * a < my * b
  {
    StrictBelow(mx, 2 * p, a);
    MulAssoc(2, p, a);
    MulSwap(2, p, a);
    MulMono(2 * a, b, p);
    MulMono(p, my, b);
  }

  // ----- The fixed-point loop

  /** After some steps h 2^(ey+n) is congruent to x 2^P modulo y 2^P. */
  ghost predicate Reducing(x: int, y: int, h: int, my: int, ey: nat, n: nat, P: nat) {
    0 < y && 0 <= x && 0 < y * Pow2(P) == my * Pow2(ey) && 0 <= h < 2 * my &&
    (x * Pow2(P)) % (y * Pow2(P)) == (h * Pow2(ey + n)) % (y * Pow2(P))
  }

  lemma ReduceStart(x: int, mx: int, ex: nat, y: int, my: int, ey: nat, P: nat)
    requires Normal(x, mx, ex, P) && Normal(y, my, ey, P) && ey <= ex && 0 < y < x
    ensures Reducing(x, y, mx, my, ey, ex - ey, P)
  {
    MulAtLeast(y, Pow2(P));
  }

  lemma DoubleAndHalve(h: int, e: nat)
    requires 0 < e
    ensures (2 * h) * Pow2(e - 1) == h * Pow2(e)
  {
    MulSwap(h, 2, Pow2(e - 1));
    MulAssoc(2, h, Pow2(e - 1));
  }

  /** The divisor goes in no time: the partial remainder is doubled. */
  lemma ReduceDouble(x: int, y: int, h: int, my: int, ey: nat, n: nat, P: nat)
    requires Reducing(x, y, h, my, ey, n, P) && h < my && 0 < n
    ensures Reducing(x, y, 2 * h, my, ey, n - 1, P)
  {
    DoubleAndHalve(h, ey + n);
  }

  lemma SubtractAlgebra(h: int, m: int, a: int, b: int)
    ensures (h - m) * (a * b) == h * (a * b) + (m * a) * (-b)
  {
    MulDistributes(a * b, h, -m);
    MulAssoc(m, a, b);
    assert (m * a) * (-b) == -((m * a) * b);
  }

  /** Subtracting the divisor subtracts a multiple of the modulus. */
  lemma SubtractDivisor(x: int, y: int, h: int, my: int, ey: nat, n: nat, P: nat)
    requires Reducing(x, y, h, my, ey, n, P)
    ensures ((h - my) * Pow2(ey + n)) % (y * Pow2(P)) == (x * Pow2(P)) % (y * Pow2(P))
  {
    Pow2Add(ey, n);
    SubtractAlgebra(h, my, Pow2(ey), Pow2(n));
    ModDropsMultiple(h * Pow2(ey + n), y * Pow2(P), 0 - Pow2(n));
  }

  lemma ReduceSubtract(x: int, y: int, h: int, my: int, ey: nat, n: nat, P: nat)
    requires Reducing(x, y, h, my, ey, n, P) && my <= h && 0 < n
    ensures Reducing(x, y, 2 * (h - my), my, ey, n - 1, P)
  {
    SubtractDivisor(x, y, h, my, ey, n, P);
    DoubleAndHalve(h - my, ey + n);
  }

  /** The divisor goes in exactly: the remainder is zero. */
  lemma ReduceToZero(x: int, y: int, my: int, ey: nat, n: nat, P: nat)
    requires Reducing(x, y, my, my, ey, n, P)
    ensures x % y == 0
  {
    SubtractDivisor(x, y, my, my, ey, n, P);
    ModScales(x, y, Pow2(P));
    SmallMod(0, y * Pow2(P));
    ZeroFactor(x % y, Pow2(P));
  }

  lemma ZeroFactor(a: int, c: int)
    requires 0 <= a && 0 < c && a * c == 0
    ensures a == 0
  {
    if 0 < a {
      MulAtLeast(a, c);
      assert false;
    }
  }

  /** After the last subtraction the remainder is what is left. */
  lemma ReduceEnd(x: int, y: int, h: int, my: int, ey: nat, P: nat)
    requires Reducing(x, y, h, my, ey, 0, P)
    ensures var r := if h < my then h else h - my; (x % y) * Pow2(P) == r * Pow2(ey)
  {
    var r := if h < my then h else h - my;
    if my <= h {
      SubtractDivisor(x, y, h, my, ey, 0, P);
    }
    StrictBelow(r, my, Pow2(ey));
    MulNat(r, Pow2(ey));
    ModScales(x, y, Pow2(P));
    SmallMod(r * Pow2(ey), y * Pow2(P));
  }

  lemma SmallMod(a: int, m: int)
    requires 0 <= a < m
    ensures a % m == a
  {
    ModOfMultiplePlus(m, 0, a);
  }

  // ----- Back to fields

  /** One step of the normalisation keeps the number. */
  lemma NormalizeStep(r: int, h: int, e: nat, P: nat)
    requires r * Pow2(P) == h * Pow2(e) && 0 < r && h < Pow2(P)
    ensures 0 < e && r * Pow2(P) == (2 * h) * Pow2(e - 1)
  {
    if e == 0 {
      MulAtLeast(r, Pow2(P));
      assert false;
    } else {
      DoubleAndHalve(h, e);
    }
  }

  /** A significand with an exponent in range is a normal number. */
  lemma PackNormal(r: int, h: int, e: nat, P: nat)
    requires r * Pow2(P) == h * Pow2(e) && Pow2(P) <= h < 2 * Pow2(P) && P <= e
    ensures Value(e - P + 1, h - Pow2(P), P) == r
  {
    Pow2Add(e - P, P);
    MulAssoc(h, Pow2(e - P), Pow2(P));
    CancelFactor(r, h * Pow2(e - P), Pow2(P));
  }

  lemma CancelFactor(a: int, b: int, c: int)
    requires 0 < c && a * c == b * c
    ensures a == b
  {
    if a < b { StrictBelow(a, b, c); assert false; }
    if b < a { StrictBelow(b, a, c); assert false; }
  }

  /** The shift into subnormal form drops only zero bits. */
  lemma PackSubnormal(r: int, h: int, e: nat, P: nat)
    requires r * Pow2(P) == h * Pow2(e) && 0 <= r && h < 2 * Pow2(P) && e < P
    ensures h == r * Pow2(P - e) && h / Pow2(P - e) == r && r < Pow2(P)
  {
    Pow2Add(P - e, e);
    MulAssoc(r, Pow2(P - e), Pow2(e));
    CancelFactor(h, r * Pow2(P - e), Pow2(e));
    ModOfMultiplePlus(Pow2(P - e), r, 0);
    BelowHalf(r, Pow2(P - e), Pow2(P));
  }

  lemma BelowHalf(r: int, c: int, p: int)
    requires 0 <= r && 2 <= c && 0 < p && r * c < 2 * p
    ensures r < p
  {
    if p <= r {
      MulMono(p, r, c);
      MulMono(2, c, p);
      assert false;
    }
  }
}

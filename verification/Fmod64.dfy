/**
 `fmod` where double is a 64-bit number, on pairs of 32-bit words with the carries and
 borrows between them worked out by hand.
 */
module Fmod64 {
  import opened Arith
  import opened FloatValue
  import opened Words

  const SIGN: int := 0x8000_0000
  const HIDDEN: int := 0x0010_0000
  const INF: int := 0x7FF0_0000

  /** The two words of a number, high word first, as one. */
  function Join(h: int, l: int): int { h * W + l }

  /** The exact value of the finite magnitude, in units of 2^-1074. */
  function Magnitude(h: nat, l: nat): int {
    Value(h / HIDDEN, Join(h % HIDDEN, l), 52)
  }

  /** The fields of a number: eleven bits of exponent, 52 of fraction, and a hidden bit unless the exponent is 0. */
  lemma MagnitudeOfFields(e: nat, h: nat, l: nat)
    requires h < 0x10_0000 && l < 0x1_0000_0000
    ensures var f := h * 0x1_0000_0000 + l;
            Magnitude(e * 0x10_0000 + h, l) == if e == 0 then f else (0x10_0000_0000_0000 + f) * Pow2(e - 1)
  {
    ModOfMultiplePlus(HIDDEN, e, h);
    Constants();
  }

  datatype Result = NaN | Bits(high: int, low: int)

  lemma Constants()
    ensures Pow2(20) == HIDDEN && Pow2(32) == W && Pow2(52) == HIDDEN * W
  {
    Pow2Constants();
  }

  lemma MagnitudeOrder(h: nat, l: nat, h': nat, l': nat)
    requires l < W && l' < W && (h < h' || (h == h' && l < l'))
    ensures 0 <= Magnitude(h, l) < Magnitude(h', l')
  {
    hide Pow2, Value;
    Constants();
    ValueBounds(h / HIDDEN, Join(h % HIDDEN, l), 52);
    ValueMonotone(h / HIDDEN, Join(h % HIDDEN, l), h' / HIDDEN, Join(h' % HIDDEN, l'), 52);
  }

  // ----- Shifts of a pair

  /** Left by 1 to 31 places: the bits that leave the low word enter the high one. */
  lemma ShiftLeft(h: nat, l: nat, n: nat)
    requires 1 <= n <= 31 && l < W && h * Pow2(n) < W
    ensures 0 <= Shr(l, 32 - n)
    ensures var hi, lo := Or(Shl(h, n), Shr(l, 32 - n)), Shl(l, n);
            Join(hi, lo) == Join(h, l) * Pow2(n) && lo < W && hi < h * Pow2(n) + Pow2(n)
  {
    var p, q := Pow2(n), Pow2(32 - n);
    Constants();
    Pow2Add(n, 32 - n);
    hide Pow2, Or;
    SplitLow(l, p, q);
    MulNat(h, p);
    SmallMod(h * p, W);
    assert Shl(h, n) == h * p && Shr(l, 32 - n) == l / q && Shl(l, n) == (l % q) * p;
    hide Shl, Shr, Join;
    OrIsSum(h, n, l / q);
    JoinScaled(h, l, p, q);
  }

  lemma SplitLow(l: int, p: int, q: int)
    requires 0 < p && 0 < q && p * q == W && 0 <= l < W
    ensures 0 <= l / q < p && (l * p) % W == (l % q) * p && 0 <= (l % q) * p < W
  {
    var a, b := l / q, l % q;
    assert l == q * a + b;
    if p <= a {
      MulMono(p, a, q);
      assert false;
    }
    if a < 0 {
      MulMono(a, -1, q);
      assert false;
    }
    MulNat(b, p);
    StrictBelow(b, q, p);
    assert l * p == W * a + b * p by {
      MulDistributes(p, q * a, b);
      MulAssoc(p, q, a);
    }
    ModOfMultiplePlus(W, a, b * p);
  }

  lemma JoinScaled(h: int, l: int, p: int, q: int)
    requires 0 < q && p * q == W
    ensures Join(h * p + l / q, (l % q) * p) == Join(h, l) * p
  {
    var a, b := l / q, l % q;
    assert l == q * a + b;
    MulDistributes(p, h * W, l);
    MulDistributes(p, q * a, b);
    MulAssoc(p, q, a);
    MulAssoc(h, W, p);
    MulAssoc(h, p, W);
    MulSwap(h, W, p);
  }

  /** Right by 1 to 31 places. */
  lemma ShiftRight(h: nat, l: nat, n: nat)
    requires 1 <= n <= 31 && l < W
    ensures Shr(h, n) >= 0 && Shr(l, n) >= 0
    ensures var lo := Or(Shr(l, n), Shl(h, 32 - n));
            lo == Or(Shl(h, 32 - n), Shr(l, n)) && 0 <= lo < W && Join(Shr(h, n), lo) == Join(h, l) / Pow2(n)
  {
    var p, q := Pow2(32 - n), Pow2(n);
    Constants();
    Pow2Add(32 - n, n);
    hide Pow2, Or;
    SplitAny(h, p, q);
    SplitLow(l, p, q);
    OrCommutes(Shr(l, n), Shl(h, 32 - n));
    OrIsSum(h % q, 32 - n, l / q);
    SumFits(h % q, l / q, p, q);
    JoinDivided(h, l, p, q);
  }

  lemma SplitAny(h: int, p: int, q: int)
    requires 0 < p && 0 < q && p * q == W && 0 <= h
    ensures 0 <= h / q && (h * p) % W == (h % q) * p
  {
    var a, b := h / q, h % q;
    if a < 0 {
      MulMono(a, -1, q);
      assert false;
    }
    MulNat(b, p);
    StrictBelow(b, q, p);
    assert h * p == W * a + b * p by {
      assert h == q * a + b;
      MulDistributes(p, q * a, b);
      MulAssoc(p, q, a);
    }
    ModOfMultiplePlus(W, a, b * p);
  }

  lemma SumFits(b: int, c: int, p: int, q: int)
    requires 0 <= b < q && 0 <= c < p && p * q == W
    ensures 0 <= b * p + c < W
  {
    MulNat(b, p);
    MulMono(b, q - 1, p);
    MulDistributes(p, q, -1);
  }

  lemma JoinDivided(h: int, l: int, p: int, q: int)
    requires 0 < q && p * q == W
    ensures Join(h / q, (h % q) * p + l / q) == Join(h, l) / q
  {
    var a, b, c, d := h / q, h % q, l / q, l % q;
    assert h == q * a + b && l == q * c + d;
    var quot := Join(a, b * p + c);
    assert Join(h, l) == q * quot + d by {
      MulDistributes(W, q * a, b);
      MulAssoc(q, a, W);
      MulSwap(b, p, q);
      MulDistributes(q, a * W, b * p + c);
      MulDistributes(q, b * p, c);
      MulSwap(q, b, p);
    }
    ModOfMultiplePlus(q, quot, d);
  }

  /** Right by 32 places or more: only bits of the high word are left. */
  lemma ShiftRightFar(h: nat, l: nat, n: nat)
    requires 32 <= n && l < W
    ensures Shr(h, n - 32) == Join(h, l) / Pow2(n)
  {
    var q := Pow2(n - 32);
    Constants();
    Pow2Add(n - 32, 32);
    hide Pow2;
    FarQuotient(h, l, q);
  }

  lemma FarQuotient(h: int, l: int, q: int)
    requires 0 < q && 0 <= l < W
    ensures 0 < q * W && Join(h, l) / (q * W) == h / q
  {
    var a, b := h / q, h % q;
    assert h == q * a + b;
    assert Join(h, l) == (q * W) * a + Join(b, l) by {
      MulDistributes(W, q * a, b);
      MulAssoc(q, a, W);
      MulAssoc(q, W, a);
    }
    assert 0 <= Join(b, l) < q * W;
    ModOfMultiplePlus(q * W, a, Join(b, l));
  }

  // ----- Unpacking

  /** The loops that shift a word left until its sign bit is set; `ix` counts down. */
  method CountDown(i0: nat, start: int) returns (ix: int)
    requires 0 < i0 < W
    ensures start - 31 <= ix <= start && SIGN <= i0 * Pow2(start - ix) < W
  {
    ix := start;
    var i := i0;
    ghost var k := 0;
    while i < SIGN
      invariant ix == start - k && 0 <= k <= 31
      invariant i == i0 * Pow2(k) && Pow2(k) <= i < W
      decreases 31 - k
    {
      MulSwap(i0, 2, Pow2(k));
      BelowSign(k, i);
      ix := ix - 1;
      i := i * 2;
      k := k + 1;
    }
  }

  lemma BelowSign(k: nat, i: int)
    requires Pow2(k) <= i < SIGN
    ensures k < 31
  {
    Pow2Constants();
    if 31 <= k {
      Pow2Mono(31, k);
      assert false;
    }
  }

  /** What the exponent search finds for a subnormal number. */
  method SubnormalExponent(h: nat, l: nat) returns (ix: int)
    requires h < HIDDEN && l < W && 0 < Join(h, l)
    ensures -1074 <= ix < -1022
    ensures h == 0 ==> ix <= -1043 && SIGN <= l * Pow2(-1043 - ix) < W
    ensures h != 0 ==> -1042 <= ix && HIDDEN <= h * Pow2(-1022 - ix) < 2 * HIDDEN
  {
    if h == 0 {
      ix := CountDown(l, -1043);
    } else {
      ix := CountDown(h * 2048, -1022);
      HighExponent(h, -1022 - ix);
    }
  }

  lemma HighExponent(h: nat, k: nat)
    requires 0 < h < HIDDEN && SIGN <= (h * 2048) * Pow2(k) < W
    ensures HIDDEN <= h * Pow2(k) < 2 * HIDDEN && 1 <= k <= 20
  {
    MulAssoc(2048, h, Pow2(k));
    MulMono(1, h, Pow2(k));
    Pow2Constants();
    assert Pow2(0) == 1;
    hide Pow2;
    if 21 <= k {
      Pow2Mono(21, k);
      assert false;
    }
  }

  /** A subnormal number shifted to a significand of 53 bits. */
  method ShiftUp(h: nat, l: nat, ix: int) returns (mh: int, ml: int)
    requires h < HIDDEN && l < W && -1074 <= ix < -1022
    requires h == 0 ==> ix <= -1043 && SIGN <= l * Pow2(-1043 - ix) < W
    requires h != 0 ==> -1042 <= ix && HIDDEN <= h * Pow2(-1022 - ix) < 2 * HIDDEN
    ensures HIDDEN <= mh < 2 * HIDDEN && 0 <= ml < W && Join(mh, ml) == Join(h, l) * Pow2(-1022 - ix)
  {
    hide Pow2, Or, Shl, Shr, Join;
    var n := -1022 - ix;
    if n <= 31 {
      ScaledHigh(h, n);
      ShiftLeft(h, l, n);
      mh, ml := Or(Shl(h, n), Shr(l, 32 - n)), Shl(l, n);
      TopBits(h, l, n, mh, ml);
    } else {
      mh, ml := Shl(l, n - 32), 0;
      FarLeft(l, n);
      JoinZero(l);
    }
  }

  lemma JoinZero(l: int)
    ensures Join(0, l) == l
  {
  }

  lemma ScaledHigh(h: nat, n: nat)
    requires n <= 31 && (h != 0 ==> h * Pow2(n) < 2 * HIDDEN)
    ensures h * Pow2(n) < W
  {
  }

  /** The shifted number has its top bit at place 52. */
  lemma TopBits(h: nat, l: nat, n: nat, mh: int, ml: int)
    requires l < W && 1 <= n <= 31 && 0 <= ml < W && Join(mh, ml) == Join(h, l) * Pow2(n)
    requires h == 0 ==> 21 <= n && SIGN <= l * Pow2(n - 21) < W
    requires h != 0 ==> n <= 20 && HIDDEN <= h * Pow2(n) < 2 * HIDDEN && mh < h * Pow2(n) + Pow2(n)
    ensures HIDDEN <= mh < 2 * HIDDEN
  {
    if h == 0 {
      Pow2Constants();
      Pow2Add(n - 21, 21);
      hide Pow2;
      MulAssoc(l, Pow2(n - 21), Pow2(21));
      assert Join(mh, ml) == (l * Pow2(n - 21)) * 0x20_0000;
    } else {
      RoomForOneMore(h, n);
      MulDistributes(Pow2(n), h * W, l);
      MulNat(l, Pow2(n));
      MulAssoc(h, W, Pow2(n));
      MulAssoc(h, Pow2(n), W);
      MulSwap(h, W, Pow2(n));
    }
  }

  lemma RoomForOneMore(h: nat, n: nat)
    requires n <= 20 && h * Pow2(n) < 2 * HIDDEN
    ensures h * Pow2(n) + Pow2(n) <= 2 * HIDDEN
  {
    Pow2Constants();
    Pow2Add(21 - n, n);
    hide Pow2;
    NextMultiple(h, Pow2(21 - n), Pow2(n));
  }

  lemma NextMultiple(h: int, a: int, b: int)
    requires 0 < b && h * b < a * b
    ensures h * b + b <= a * b
  {
    if a <= h {
      MulMono(a, h, b);
      assert false;
    }
    MulMono(h + 1, a, b);
    MulDistributes(b, h, 1);
  }

  lemma FarLeft(l: nat, n: nat)
    requires 32 <= n <= 52 && l < W && SIGN <= l * Pow2(n - 21) < W
    ensures HIDDEN <= Shl(l, n - 32) < 2 * HIDDEN && Join(Shl(l, n - 32), 0) == l * Pow2(n)
  {
    Pow2Constants();
    assert Pow2(11) == 2048;
    Pow2Add(n - 32, 11);
    Pow2Add(n - 32, 32);
    hide Pow2;
    MulAssoc(l, Pow2(n - 32), 2048);
    MulAssoc(l, Pow2(n - 32), W);
    SmallMod(l * Pow2(n - 32), W);
  }

  method Unpack(h: nat, l: nat) returns (mh: int, ml: int, ix: int)
    requires h < INF && l < W && 0 < Join(h, l)
    ensures 0 <= ml < W && HIDDEN <= mh < 2 * HIDDEN
    ensures -1074 <= ix <= 1023 && Normal(Magnitude(h, l), Join(mh, ml), ix + 1074, 52)
  {
    Constants();
    hide Pow2, Or, Value, Normal;
    if h < HIDDEN {
      ix := SubnormalExponent(h, l);
    } else {
      ix := h / HIDDEN - 1023;
    }
    if ix >= -1022 {
      OrIsSum(1, 20, h % HIDDEN);
      mh, ml := Or(HIDDEN, h % HIDDEN), l;
      NormalFields(h / HIDDEN, Join(h % HIDDEN, l), 52);
    } else {
      mh, ml := ShiftUp(h, l, ix);
      SubnormalFields(Join(h, l), -1022 - ix, 52);
      SubnormalValue(h, l);
    }
  }

  lemma SubnormalValue(h: nat, l: nat)
    requires h < HIDDEN
    ensures Magnitude(h, l) == Join(h, l)
  {
  }

  // ----- The fixed-point loop

  /** The difference of two pairs, the borrow taken by hand. */
  method Subtract(hx: int, lx: int, hy: int, ly: int) returns (hz: int, lz: int)
    requires 0 <= lx < W && 0 <= ly < W
    ensures Join(hz, lz) == Join(hx, lx) - Join(hy, ly) && 0 <= lz < W
    ensures hz < 0 <==> Join(hx, lx) < Join(hy, ly)
  {
    hz := hx - hy;
    lz := (lx - ly) % W;
    if lx < ly {
      hz := hz - 1;
    }
  }

  /** A pair doubled, the carry taken by hand. */
  method Double(h: int, l: int) returns (h2: int, l2: int)
    requires 0 <= l < W
    ensures Join(h2, l2) == 2 * Join(h, l) && 0 <= l2 < W
  {
    h2 := h + h + l / SIGN;
    l2 := (l + l) % W;
  }

  method Reduce(mxh: int, mxl: int, myh: int, myl: int, n0: nat, ghost x: int, ghost y: int, ghost ey: nat)
      returns (h: int, l: int, zero: bool)
    requires 0 <= mxl < W && 0 <= myl < W
    requires Reducing(x, y, Join(mxh, mxl), Join(myh, myl), ey, n0, 52)
    ensures zero ==> x % y == 0
    ensures !zero ==> 0 <= l < W && 0 <= Join(h, l) < Join(myh, myl) && (x % y) * Pow2(52) == Join(h, l) * Pow2(ey)
  {
    hide Pow2, Reducing, Or;
    h, l, zero := mxh, mxl, false;
    ghost var my := Join(myh, myl);
    var n := n0;
    while n != 0
      invariant 0 <= n && 0 <= l < W && Reducing(x, y, Join(h, l), my, ey, n, 52)
      decreases n
    {
      n := n - 1;
      var hz, lz := Subtract(h, l, myh, myl);
      if hz < 0 {
        ReduceDouble(x, y, Join(h, l), my, ey, n + 1, 52);
        h, l := Double(h, l);
      } else {
        OrIsZero(hz, lz);
        if Or(hz, lz) == 0 {
          ReduceToZero(x, y, my, ey, n + 1, 52);
          return h, l, true;
        }
        ReduceSubtract(x, y, Join(h, l), my, ey, n + 1, 52);
        h, l := Double(hz, lz);
      }
    }
    ReduceEnd(x, y, Join(h, l), my, ey, 52);
    ReducingBounds(x, y, Join(h, l), my, ey, 0);
    var hz, lz := Subtract(h, l, myh, myl);
    if hz >= 0 {
      h, l := hz, lz;
    }
  }

  lemma OrIsZero(a: nat, b: nat)
    ensures Or(a, b) == 0 <==> a == 0 && b == 0
  {
  }

  lemma ReducingBounds(x: int, y: int, h: int, my: int, ey: nat, n: nat)
    requires Reducing(x, y, h, my, ey, n, 52)
    ensures 0 <= h < 2 * my
  {
  }

  // ----- Packing

  function Signed(h: nat, sx: nat): nat {
    Or(h, sx)
  }

  lemma SignedIsSum(h: nat, sx: nat)
    requires (sx == 0 || sx == SIGN) && (h < SIGN || h == sx)
    ensures Signed(h, sx) == if h == sx then sx else h + sx
  {
    Pow2Constants();
    if h < SIGN {
      OrCommutes(h, sx);
      OrIsSum(if sx == 0 then 0 else 1, 31, h);
    } else {
      OrSame(h);
    }
  }

  lemma {:induction false} OrSame(a: nat)
    ensures Or(a, a) == a
  {
    if a != 0 {
      OrSame(a / 2);
    }
  }

  lemma PackedNormal(r: int, h: int, l: int, iy: int, sx: int)
    requires HIDDEN <= h < 2 * HIDDEN && 0 <= l < W && -1022 <= iy <= 1023 && (sx == 0 || sx == SIGN)
    requires r * Pow2(52) == Join(h, l) * Pow2(iy + 1074)
    ensures var high := Signed(Or(h - HIDDEN, (iy + 1023) * HIDDEN), sx);
            sx <= high < sx + INF && Magnitude(high - sx, l) == r
  {
    hide Pow2, Value, Or, Signed;
    Constants();
    PackNormal(r, Join(h, l), iy + 1074, 52);
    OrIsSum(iy + 1023, 20, h - HIDDEN);
    OrCommutes(h - HIDDEN, (iy + 1023) * HIDDEN);
    var m := HIDDEN * (iy + 1023) + (h - HIDDEN);
    ModOfMultiplePlus(HIDDEN, iy + 1023, h - HIDDEN);
    assert 0 < m < INF && Magnitude(m, l) == r;
    SignedIsSum(m, sx);
  }

  /** The three ways of shifting into subnormal form; no bit that is set is dropped. */
  method PackSubnormal64(h: nat, l: nat, iy: int, sx: int, ghost r: int) returns (high: int, low: int)
    requires HIDDEN <= h < 2 * HIDDEN && l < W && -1074 <= iy < -1022 && (sx == 0 || sx == SIGN)
    requires 0 < r && r * Pow2(52) == Join(h, l) * Pow2(iy + 1074)
    ensures 0 <= low < W && sx <= high < sx + INF && Magnitude(high - sx, low) == r
  {
    hide Pow2, Or, Shl, Shr, Magnitude, Signed;
    var n := -1022 - iy;
    Constants();
    PackSubnormal(r, Join(h, l), iy + 1074, 52);
    var hx;
    if n <= 20 {
      ShiftRight(h, l, n);
      low := Or(Shr(l, n), Shl(h, 32 - n));
      hx := Shr(h, n);
      SignedIsSum(hx, sx);
      SubnormalValue(hx, low);
    } else if n <= 31 {
      ShiftRight(h, l, n);
      HighShiftedOut(h, n);
      low := Or(Shl(h, 32 - n), Shr(l, n));
      hx := sx;
      SignedIsSum(sx, sx);
      SubnormalValue(0, low);
    } else {
      ShiftRightFar(h, l, n);
      low := Shr(h, n - 32);
      hx := sx;
      FarLow(h, l, n);
      SignedIsSum(sx, sx);
      SubnormalValue(0, low);
    }
    high := Signed(hx, sx);
  }

  lemma HighShiftedOut(h: nat, n: nat)
    requires 21 <= n && h < 2 * HIDDEN
    ensures Shr(h, n) == 0
  {
    Pow2Constants();
    Pow2Mono(21, n);
    hide Pow2;
    ModOfMultiplePlus(Pow2(n), 0, h);
  }

  lemma FarLow(h: nat, l: nat, n: nat)
    requires 32 <= n && h < 2 * HIDDEN
    ensures 0 <= Shr(h, n - 32) < W
  {
    hide Pow2;
    var q := Pow2(n - 32);
    var a := h / q;
    assert h == q * a + h % q;
    if a < 0 {
      MulMono(a, -1, q);
      assert false;
    }
    if W <= a {
      MulAtLeast(q, a);
      assert false;
    }
  }

  method Pack(h0: int, l0: int, iy0: int, sx: int, ghost r: int) returns (high: int, low: int)
    requires 0 < Join(h0, l0) && 0 <= l0 < W && h0 < 2 * HIDDEN && -1074 <= iy0 <= 1023 && (sx == 0 || sx == SIGN)
    requires 0 < r && r * Pow2(52) == Join(h0, l0) * Pow2(iy0 + 1074)
    ensures 0 <= low < W && sx <= high < sx + INF && Magnitude(high - sx, low) == r
  {
    Constants();
    hide Pow2, Magnitude, Or, Signed;
    var h, l, iy := h0, l0, iy0;
    while h < HIDDEN
      invariant 0 < Join(h, l) && 0 <= l < W && h < 2 * HIDDEN && -1074 <= iy <= iy0
      invariant r * Pow2(52) == Join(h, l) * Pow2(iy + 1074)
      decreases iy + 1074
    {
      NormalizeStep(r, Join(h, l), iy + 1074, 52);
      h, l := Double(h, l);
      iy := iy - 1;
    }
    if iy >= -1022 {
      PackedNormal(r, h, l, iy, sx);
      high, low := Signed(Or(h - HIDDEN, (iy + 1023) * HIDDEN), sx), l;
    } else {
      high, low := PackSubnormal64(h, l, iy, sx, r);
    }
  }

  /** y is a NaN: the test on the high word with the low word folded in. */
  function FoldedHigh(hy: nat, ly: nat): nat {
    Or(hy, if ly == 0 then 0 else 1)
  }

  lemma NanTest(hy: nat, ly: nat)
    requires hy < SIGN
    ensures FoldedHigh(hy, ly) > INF <==> hy > INF || (hy == INF && ly != 0)
  {
    if ly != 0 {
      OrOne(hy);
    }
  }

  lemma OrOne(a: nat)
    ensures Or(a, 1) == if a % 2 == 0 then a + 1 else a
  {
    if a != 0 {
      assert Or(a / 2, 0) == a / 2;
    }
  }

  /** x - trunc(x / y) y, exactly, with the sign of x. */
  method Fmod(xh: int, xl: int, yh: int, yl: int) returns (r: Result)
    requires 0 <= xh < W && 0 <= xl < W && 0 <= yh < W && 0 <= yl < W
    ensures r.NaN? <==> (yh % 0x8000_0000 == 0 && yl == 0) || xh % 0x8000_0000 >= 0x7FF0_0000 ||
                        yh % 0x8000_0000 > 0x7FF0_0000 || (yh % 0x8000_0000 == 0x7FF0_0000 && yl != 0)
    ensures r.Bits? && yh % SIGN == INF ==> r == Bits(xh, xl)
    ensures r.Bits? && yh % SIGN < INF ==>
              && 0 <= r.high < W && 0 <= r.low < W && r.high / SIGN == xh / SIGN && r.high % SIGN < INF
              && Magnitude(r.high % SIGN, r.low) == Remainder(Magnitude(xh % SIGN, xl), Magnitude(yh % SIGN, yl))
  {
    hide Magnitude, Or, FoldedHigh;
    var sx := if xh >= SIGN then SIGN else 0;
    var hx, hy := xh % SIGN, yh % SIGN;
    NanTest(hy, yl);
    OrIsZero(hy, yl);
    if Or(hy, yl) == 0 || hx >= INF || FoldedHigh(hy, yl) > INF {
      return NaN;
    }
    MagnitudeOrder(0, 0, hy, yl);
    ZeroMagnitude();
    ghost var vx, vy := Magnitude(hx, xl), Magnitude(hy, yl);
    if hx <= hy {
      if hx < hy || xl < yl {
        MagnitudeOrder(hx, xl, hy, yl);
        SmallMod(vx, vy);
        return Bits(xh, xl);
      }
      if xl == yl {
        ModOfMultiplePlus(vy, 1, 0);
        return Bits(sx, 0);
      }
    }
    MagnitudeOrder(hy, yl, hx, xl);
    r := FiniteRemainder(hx, xl, hy, yl, sx);
    SignSplits(r.high, sx);
  }

  lemma ZeroMagnitude()
    ensures Magnitude(0, 0) == 0
  {
  }

  lemma SignSplits(word: int, sx: int)
    requires (sx == 0 || sx == SIGN) && sx <= word < sx + INF
    ensures word % SIGN == word - sx && word / SIGN == sx / SIGN && 0 <= word < W
  {
  }

  method FiniteRemainder(hx: nat, lx: nat, hy: nat, ly: nat, sx: int) returns (r: Result)
    requires hx < INF && lx < W && hy < INF && ly < W && 0 < Join(hx, lx) && 0 < Join(hy, ly)
    requires (sx == 0 || sx == SIGN) && 0 < Magnitude(hy, ly) < Magnitude(hx, lx)
    ensures r.Bits? && sx <= r.high < sx + INF && 0 <= r.low < W
    ensures Magnitude(r.high - sx, r.low) == Magnitude(hx, lx) % Magnitude(hy, ly)
  {
    hide Pow2, Magnitude, Or;
    ghost var vx, vy := Magnitude(hx, lx), Magnitude(hy, ly);
    var mxh, mxl, ix := Unpack(hx, lx);
    var myh, myl, iy := Unpack(hy, ly);
    ExponentOrder(vx, Join(mxh, mxl), ix + 1074, vy, Join(myh, myl), iy + 1074, 52);
    ReduceStart(vx, Join(mxh, mxl), ix + 1074, vy, Join(myh, myl), iy + 1074, 52);
    var h, l, zero := Reduce(mxh, mxl, myh, myl, ix - iy, vx, vy, iy + 1074);
    ZeroMagnitude();
    if zero {
      return Bits(sx, 0);
    }
    OrIsZero(h, l);
    if Or(h, l) == 0 {
      ZeroFactor(vx % vy, Pow2(52));
      return Bits(sx, 0);
    }
    PositiveRemainder(vx % vy, Join(h, l), iy + 1074);
    var high, low := Pack(h, l, iy, sx, vx % vy);
    r := Bits(high, low);
  }

  lemma PositiveRemainder(r: int, h: int, e: nat)
    requires 0 < h && r * Pow2(52) == h * Pow2(e)
    ensures 0 < r
  {
    hide Pow2;
    MulAtLeast(h, Pow2(e));
    if r <= 0 {
      MulMono(r, 0, Pow2(52));
      assert false;
    }
  }
}

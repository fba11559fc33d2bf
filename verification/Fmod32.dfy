/**
 `fmod` where double is a 32-bit number, on bit patterns.  Words are unsigned; a signed word
 is negative when bit 31 is set.
 */
module Fmod32 {
  import opened Arith
  import opened FloatValue
  import opened Words

  const SIGN: int := 0x8000_0000
  const HIDDEN: int := 0x0080_0000
  const INF: int := 0x7F80_0000

  /** The exact value of the finite magnitude `h`, in units of 2^-149. */
  function Magnitude(h: nat): int {
    Value(h / HIDDEN, h % HIDDEN, 23)
  }

  /** The fields of a number: eight bits of exponent, 23 of fraction, and a hidden bit unless the exponent is 0. */
  lemma MagnitudeOfFields(e: nat, f: nat)
    requires f < 0x80_0000
    ensures Magnitude(e * 0x80_0000 + f) == if e == 0 then f else (0x80_0000 + f) * Pow2(e - 1)
  {
    ModOfMultiplePlus(HIDDEN, e, f);
    HiddenIsPow2();
  }

  datatype Result = NaN | Bits(word: int)

  lemma HiddenIsPow2()
    ensures Pow2(23) == HIDDEN
  {
    Pow2Constants();
  }

  lemma MagnitudeOrder(a: nat, b: nat)
    requires a < b
    ensures 0 <= Magnitude(a) < Magnitude(b)
  {
    HiddenIsPow2();
    ValueBounds(a / HIDDEN, a % HIDDEN, 23);
    ValueMonotone(a / HIDDEN, a % HIDDEN, b / HIDDEN, b % HIDDEN, 23);
  }

  /** The loop that finds the exponent of a subnormal: shifts until the sign bit is reached. */
  method SubnormalExponent(h: nat) returns (ix: int)
    requires 0 < h < HIDDEN
    ensures -149 <= ix < -126
    ensures HIDDEN <= h * Pow2(-126 - ix) < 2 * HIDDEN
  {
    ix := -126;
    var i := h * 256;
    ghost var k := 0;
    while i < SIGN
      invariant ix == -126 - k && 0 <= k <= 23
      invariant i == (h * Pow2(k)) * 256 && 0 < h * Pow2(k) < 2 * HIDDEN
      invariant Pow2(k) <= h * Pow2(k)
      decreases 23 - k
    {
      MulSwap(h, 2, Pow2(k));
      Pow2Bound(k, h * Pow2(k));
      ix := ix - 1;
      i := i * 2;
      k := k + 1;
      MulMono(1, h, Pow2(k));
    }
    assert k != 0;
  }

  lemma Pow2Bound(k: nat, v: int)
    requires Pow2(k) <= v < HIDDEN
    ensures k < 23
  {
    HiddenIsPow2();
    if 23 <= k {
      Pow2Mono(23, k);
      assert false;
    }
  }

  /** `ilogb`, then the significand with its hidden bit. */
  method Unpack(h: nat) returns (m: int, ix: int)
    requires 0 < h < INF
    ensures -149 <= ix <= 127 && Normal(Magnitude(h), m, ix + 149, 23)
    ensures h < HIDDEN ==> ix < -126
    ensures HIDDEN <= h ==> ix == h / HIDDEN - 127
  {
    HiddenIsPow2();
    if h < HIDDEN {
      ix := SubnormalExponent(h);
    } else {
      ix := h / HIDDEN - 127;
    }
    if ix >= -126 {
      OrIsSum(1, 23, h % HIDDEN);
      m := Or(HIDDEN, h % HIDDEN);
      NormalFields(h / HIDDEN, h % HIDDEN, 23);
    } else {
      var n := -126 - ix;
      m := Shl(h, n);
      SmallMod(h * Pow2(n), W);
      SubnormalFields(h, n, 23);
    }
  }

  /** The fixed-point loop; `zero` when the divisor went in exactly. */
  method Reduce(mx: int, my: int, n0: nat, ghost x: int, ghost y: int, ghost ey: nat) returns (h: int, zero: bool)
    requires Reducing(x, y, mx, my, ey, n0, 23) && HIDDEN <= my < 2 * HIDDEN
    ensures zero ==> x % y == 0
    ensures !zero ==> 0 <= h < my && (x % y) * Pow2(23) == h * Pow2(ey)
  {
    hide Pow2;
    h, zero := mx, false;
    var n := n0;
    while n != 0
      invariant 0 <= n && Reducing(x, y, h, my, ey, n, 23)
      decreases n
    {
      n := n - 1;
      var hz := h - my;
      if hz < 0 {
        ReduceDouble(x, y, h, my, ey, n + 1, 23);
        h := h + h;
      } else {
        if hz == 0 {
          ReduceToZero(x, y, my, ey, n + 1, 23);
          return h, true;
        }
        ReduceSubtract(x, y, h, my, ey, n + 1, 23);
        h := hz + hz;
      }
    }
    ReduceEnd(x, y, h, my, ey, 23);
    var hz := h - my;
    if hz >= 0 {
      h := hz;
    }
  }

  /** The sign bit of x is put back. */
  function Signed(h: nat, sx: nat): nat {
    Or(h, sx)
  }

  lemma SignedIsSum(h: nat, sx: nat)
    requires h < SIGN && (sx == 0 || sx == SIGN)
    ensures Signed(h, sx) == h + sx
  {
    Pow2Constants();
    OrCommutes(h, sx);
    OrIsSum(if sx == 0 then 0 else 1, 31, h);
  }

  lemma SignSplits(word: int, sx: int)
    requires (sx == 0 || sx == SIGN) && sx <= word < sx + INF
    ensures word % SIGN == word - sx && word / SIGN == sx / SIGN && 0 <= word < 2 * SIGN
  {
  }

  /** Normalises a remainder and packs it as a normal or a subnormal number. */
  method Pack(h0: int, iy0: int, sx: int, ghost r: int) returns (word: int)
    requires 0 < h0 < 2 * HIDDEN && -149 <= iy0 <= 127 && (sx == 0 || sx == SIGN)
    requires 0 < r && r * Pow2(23) == h0 * Pow2(iy0 + 149)
    ensures sx <= word < sx + INF && Magnitude(word - sx) == r
  {
    HiddenIsPow2();
    hide Pow2, Magnitude, Or, Signed, Shr;
    var h, iy := h0, iy0;
    while h < HIDDEN
      invariant 0 < h < 2 * HIDDEN && -149 <= iy <= iy0
      invariant r * Pow2(23) == h * Pow2(iy + 149)
      decreases 2 * HIDDEN - h
    {
      NormalizeStep(r, h, iy + 149, 23);
      h := h + h;
      iy := iy - 1;
    }
    if iy >= -126 {
      PackedNormal(r, h, iy, sx);
      word := Signed(Or(h - HIDDEN, (iy + 127) * HIDDEN), sx);
    } else {
      var n := -126 - iy;
      PackedSubnormal(r, h, iy, sx);
      word := Signed(Shr(h, n), sx);
    }
  }

  lemma PackedNormal(r: int, h: int, iy: int, sx: int)
    requires HIDDEN <= h < 2 * HIDDEN && -126 <= iy <= 127 && (sx == 0 || sx == SIGN)
    requires r * Pow2(23) == h * Pow2(iy + 149)
    ensures var word := Signed(Or(h - HIDDEN, (iy + 127) * HIDDEN), sx);
            sx <= word < sx + INF && Magnitude(word - sx) == r
  {
    hide Pow2, Value, Or, Signed;
    HiddenIsPow2();
    PackNormal(r, h, iy + 149, 23);
    OrIsSum(iy + 127, 23, h - HIDDEN);
    OrCommutes(h - HIDDEN, (iy + 127) * HIDDEN);
    var m := HIDDEN * (iy + 127) + (h - HIDDEN);
    ModOfMultiplePlus(HIDDEN, iy + 127, h - HIDDEN);
    assert 0 <= m < INF && Magnitude(m) == r;
    SignedIsSum(m, sx);
  }

  lemma PackedSubnormal(r: int, h: int, iy: int, sx: int)
    requires HIDDEN <= h < 2 * HIDDEN && -149 <= iy < -126 && (sx == 0 || sx == SIGN) && 0 < r
    requires r * Pow2(23) == h * Pow2(iy + 149)
    ensures Shr(h, -126 - iy) == r
    ensures var word := Signed(Shr(h, -126 - iy), sx);
            sx <= word < sx + INF && Magnitude(word - sx) == r
  {
    HiddenIsPow2();
    PackSubnormal(r, h, iy + 149, 23);
    assert Shr(h, -126 - iy) == r;
    hide Or, Signed, Pow2;
    SignedIsSum(r, sx);
  }

  /** x - trunc(x / y) y, exactly, with the sign of x. */
  method Fmod(x: int, y: int) returns (r: Result)
    requires 0 <= x < 2 * SIGN && 0 <= y < 2 * SIGN
    ensures r.NaN? <==> y % 0x8000_0000 == 0 || x % 0x8000_0000 >= 0x7F80_0000 || y % 0x8000_0000 > 0x7F80_0000
    ensures r.Bits? && y % SIGN == INF ==> r == Bits(x)
    ensures r.Bits? && y % SIGN < INF ==>
              && 0 <= r.word < 2 * SIGN && r.word / SIGN == x / SIGN && r.word % SIGN < INF
              && Magnitude(r.word % SIGN) == Remainder(Magnitude(x % SIGN), Magnitude(y % SIGN))
  {
    hide Magnitude;
    var sx := if x >= SIGN then SIGN else 0;
    var hx, hy := x % SIGN, y % SIGN;
    if hy == 0 || hx >= INF || hy > INF {
      return NaN;
    }
    MagnitudeOrder(0, hy);
    if hx < hy {
      MagnitudeOrder(hx, hy);
      SmallMod(Magnitude(hx), Magnitude(hy));
      return Bits(x);
    }
    ghost var vx, vy := Magnitude(hx), Magnitude(hy);
    if hx == hy {
      ModOfMultiplePlus(vy, 1, 0);
      ZeroMagnitude();
      return Bits(sx);
    }
    MagnitudeOrder(hy, hx);
    r := FiniteRemainder(hx, hy, sx);
    SignSplits(r.word, sx);
  }

  method FiniteRemainder(hx: int, hy: int, sx: int) returns (r: Result)
    requires 0 < hy < hx < INF && (sx == 0 || sx == SIGN) && 0 < Magnitude(hy) < Magnitude(hx)
    ensures r.Bits? && sx <= r.word < sx + INF && Magnitude(r.word - sx) == Magnitude(hx) % Magnitude(hy)
  {
    HiddenIsPow2();
    hide Pow2, Magnitude;
    ghost var vx, vy := Magnitude(hx), Magnitude(hy);
    var mx, ix := Unpack(hx);
    var my, iy := Unpack(hy);
    ExponentOrder(vx, mx, ix + 149, vy, my, iy + 149, 23);
    ReduceStart(vx, mx, ix + 149, vy, my, iy + 149, 23);
    var h, zero := Reduce(mx, my, ix - iy, vx, vy, iy + 149);
    if zero {
      ZeroMagnitude();
      return Bits(sx);
    }
    if h == 0 {
      ZeroFactor(vx % vy, Pow2(23));
      ZeroMagnitude();
      return Bits(sx);
    }
    PositiveRemainder(vx % vy, h, iy + 149);
    var word := Pack(h, iy, sx, vx % vy);
    r := Bits(word);
  }

  lemma ZeroMagnitude()
    ensures Magnitude(0) == 0
  {
  }

  lemma PositiveRemainder(r: int, h: int, e: nat)
    requires 0 < h && r * Pow2(23) == h * Pow2(e)
    ensures 0 < r
  {
    MulAtLeast(h, Pow2(e));
    if r <= 0 {
      MulMono(r, 0, Pow2(23));
      assert false;
    }
  }
}

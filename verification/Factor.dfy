/**
 The smallest-factor search of `factor` and the listing loop of `printfactors`.

 A number is kept as digits in a mixed radix: digit `i` has weight f(f+1)...(f+i-1) and
 stays below f+i.  Moving from f to f+1 is done digit by digit with borrows.
 */
module Factor {
  import opened Arith

  const MAX_INT: int := 0x7fff_ffff
  const DIGITS: nat := 24

  predicate Divides(d: int, n: int)
    requires d != 0
  {
    n % d == 0
  }

  ghost predicate IsPrime(p: int) {
    1 < p && forall d: int :: 1 < d < p ==> !Divides(d, p)
  }

  ghost predicate IsSmallestPrimeFactor(p: int, n: int) {
    IsPrime(p) && Divides(p, n) && NoDivisorBelow(p, n)
  }

  ghost predicate NoDivisorBelow(b: int, n: int) {
    forall d: int :: 1 < d < b ==> !Divides(d, n)
  }

  /** The weight f(f+1)...(f+i-1) of digit `i` in the system that starts at radix `f`. */
  ghost function Weight(f: nat, i: nat): nat {
    if i == 0 then 1 else Weight(f, i - 1) * (f + i - 1)
  }

  /** The value of the digits at positions lo..hi. */
  ghost function Value(val: seq<int>, f: nat, lo: nat, hi: nat): int
    requires lo <= hi <= |val|
  {
    if lo == hi then 0 else Value(val, f, lo, hi - 1) + val[hi - 1] * Weight(f, hi - 1)
  }

  ghost predicate DigitsInRange(val: seq<int>, f: nat, lo: nat, hi: nat)
    requires hi <= |val|
  {
    forall k :: lo <= k < hi ==> 0 <= val[k] < f + k
  }

  lemma {:induction false} WeightPositive(f: nat, i: nat)
    requires 1 <= f
    ensures 1 <= Weight(f, i)
  {
    if i > 0 {
      WeightPositive(f, i - 1);
      MulAtLeast(Weight(f, i - 1), f + i - 1);
    }
  }

  /** Weights of neighbouring systems: W(f,i+1) = f W(f+1,i) = W(f+1,i+1) - (i+1) W(f+1,i). */
  lemma {:induction false} WeightShift(f: nat, i: nat)
    ensures Weight(f, i + 1) == f * Weight(f + 1, i)
    ensures Weight(f, i + 1) == Weight(f + 1, i + 1) - (i + 1) * Weight(f + 1, i)
  {
    if i == 0 {
      assert Weight(f, 1) == Weight(f, 0) * f;
      assert Weight(f + 1, 1) == Weight(f + 1, 0) * (f + 1);
    } else {
      WeightShift(f, i - 1);
      MulAssoc(f, Weight(f + 1, i - 1), f + i);
      assert Weight(f + 1, i) == Weight(f + 1, i - 1) * (f + i);
      var u := Weight(f + 1, i);
      MulDistributes(u, f, i + 1);
    }
  }

  /** A digit outside the summed positions does not matter. */
  lemma {:induction false} ValueFrame(s: seq<int>, t: seq<int>, f: nat, lo: nat, hi: nat)
    requires lo <= hi <= |s| && hi <= |t|
    requires forall k :: lo <= k < hi ==> s[k] == t[k]
    ensures Value(s, f, lo, hi) == Value(t, f, lo, hi)
  {
    if lo < hi {
      ValueFrame(s, t, f, lo, hi - 1);
    }
  }

  lemma {:induction false} ValueSplit(s: seq<int>, f: nat, lo: nat, mid: nat, hi: nat)
    requires lo <= mid <= hi <= |s|
    ensures Value(s, f, lo, hi) == Value(s, f, lo, mid) + Value(s, f, mid, hi)
  {
    if mid < hi {
      ValueSplit(s, f, lo, mid, hi - 1);
    }
  }

  /** Digits in range: the low part is worth less than the next weight. */
  lemma {:induction false} ValueBound(s: seq<int>, f: nat, hi: nat)
    requires 1 <= f && hi <= |s| && DigitsInRange(s, f, 0, hi)
    ensures 0 <= Value(s, f, 0, hi) < Weight(f, hi)
  {
    if hi > 0 {
      ValueBound(s, f, hi - 1);
      var w, d := Weight(f, hi - 1), s[hi - 1];
      MulMono(0, d, w);
      MulMono(d, f + hi - 2, w);
      MulDistributes(w, f + hi - 2, 1);
    }
  }

  /** Every digit but digit 0 has a weight that f divides. */
  lemma {:induction false} HighDigitsDivisible(s: seq<int>, f: nat, hi: nat) returns (q: int)
    requires 1 <= f && 1 <= hi <= |s|
    ensures Value(s, f, 1, hi) == f * q
  {
    if hi == 1 {
      q := 0;
    } else {
      var q0 := HighDigitsDivisible(s, f, hi - 1);
      WeightShift(f, hi - 2);
      q := q0 + s[hi - 1] * Weight(f + 1, hi - 2);
      MulSwap(s[hi - 1], f, Weight(f + 1, hi - 2));
      MulDistributes(f, q0, s[hi - 1] * Weight(f + 1, hi - 2));
    }
  }

  /** Digit 0 is the remainder by the current radix. */
  lemma DigitZeroIsRemainder(s: seq<int>, f: nat, hi: nat)
    requires 1 <= f && 1 <= hi <= |s| && 0 <= s[0] < f
    ensures Value(s, f, 0, hi) % f == s[0]
  {
    var q := HighDigitsDivisible(s, f, hi);
    ValueSplit(s, f, 0, 1, hi);
    assert Value(s, f, 0, 1) == Value(s, f, 0, 0) + s[0] * Weight(f, 0);
    ModOfMultiplePlus(f, q, s[0]);
  }

  /** During re-basing, positions up to `i` already count in the new system. */
  ghost function MixedValue(val: seq<int>, f: nat, i: nat, n: nat): int
    requires i < n <= |val|
  {
    Value(val, f + 1, 0, i + 1) + Value(val, f, i + 1, n)
  }

  /** The two sides of the border, written out. */
  lemma MixedValueUnfolds(s: seq<int>, f: nat, i: nat, n: nat)
    requires i + 1 < n <= |s|
    ensures MixedValue(s, f, i, n) ==
            Value(s, f + 1, 0, i) + s[i] * Weight(f + 1, i) + s[i + 1] * Weight(f, i + 1) + Value(s, f, i + 2, n)
    ensures MixedValue(s, f, i + 1, n) ==
            Value(s, f + 1, 0, i) + s[i] * Weight(f + 1, i) + s[i + 1] * Weight(f + 1, i + 1) + Value(s, f, i + 2, n)
  {
    ValueSplit(s, f, i + 1, i + 2, n);
    assert Value(s, f, i + 1, i + 2) == Value(s, f, i + 1, i + 1) + s[i + 1] * Weight(f, i + 1);
    assert Value(s, f + 1, 0, i + 1) == Value(s, f + 1, 0, i) + s[i] * Weight(f + 1, i);
    assert Value(s, f + 1, 0, i + 2) == Value(s, f + 1, 0, i + 1) + s[i + 1] * Weight(f + 1, i + 1);
  }

  lemma ConvertAlgebra(a: int, b: int, j: int, w: int, u: int, v: int)
    requires u == v - j * w
    ensures a * w + b * u == (a - j * b) * w + b * v
  {
    MulDistributes(b, v, -(j * w));
    MulSwap(b, j, w);
    MulAssoc(j, b, w);
    MulDistributes(w, a, -(j * b));
  }

  /** Taking digit j = i+1 into the new system costs j times that digit at position i. */
  lemma ConvertDigit(s: seq<int>, t: seq<int>, f: nat, i: nat, n: nat)
    requires i + 1 < n <= |s| && t == s[i := s[i] - (i + 1) * s[i + 1]]
    ensures MixedValue(t, f, i + 1, n) == MixedValue(s, f, i, n)
  {
    MixedValueUnfolds(s, f, i, n);
    MixedValueUnfolds(t, f, i, n);
    ValueFrame(s, t, f + 1, 0, i);
    ValueFrame(s, t, f, i + 2, n);
    WeightShift(f, i);
    ConvertAlgebra(s[i], s[i + 1], i + 1, Weight(f + 1, i), Weight(f, i + 1), Weight(f + 1, i + 1));
  }

  lemma BorrowAlgebra(a: int, b: int, r: int, w: int)
    ensures a * w + b * (w * r) == (a + r) * w + (b - 1) * (w * r)
  {
    MulDistributes(w, a, r);
    MulDistributes(w * r, b, -1);
  }

  /** One borrow leaves the value alone. */
  lemma Borrow(s: seq<int>, t: seq<int>, f: nat, i: nat, n: nat)
    requires i + 1 < n <= |s| && t == s[i := s[i] + (f + 1 + i)][i + 1 := s[i + 1] - 1]
    ensures MixedValue(t, f, i + 1, n) == MixedValue(s, f, i + 1, n)
  {
    MixedValueUnfolds(s, f, i, n);
    MixedValueUnfolds(t, f, i, n);
    ValueFrame(s, t, f + 1, 0, i);
    ValueFrame(s, t, f, i + 2, n);
    assert Weight(f + 1, i + 1) == Weight(f + 1, i) * (f + 1 + i);
    BorrowAlgebra(s[i], s[i + 1], f + 1 + i, Weight(f + 1, i));
  }

  /** A nonnegative number whose low digits are in range has a nonnegative top digit. */
  lemma TopDigitNonnegative(s: seq<int>, f: nat, top: nat)
    requires 1 <= f && top < |s| && DigitsInRange(s, f, 0, top)
    requires 0 <= Value(s, f, 0, top + 1)
    ensures 0 <= s[top]
  {
    ValueBound(s, f, top);
    WeightPositive(f, top);
    MulNegative(s[top], Weight(f, top));
  }

  /** Two digits or fewer with digit 0 nonzero: the number lies below (f+1)^2. */
  lemma TwoDigitBound(s: seq<int>, f: nat, n: nat)
    requires 1 <= f && 1 <= n <= 2 && n <= |s| && DigitsInRange(s, f, 0, n)
    ensures Value(s, f, 0, n) < (f + 1) * (f + 1)
  {
    ValueBound(s, f, n);
    assert Weight(f, 1) == Weight(f, 0) * f;
    assert Weight(f, 2) == Weight(f, 1) * (f + 1);
    assert f <= f * (f + 1) <= (f + 1) * (f + 1);
  }

  lemma NoSmallDivisorMeansPrime(n: int, f: int)
    requires 1 < n < (f + 1) * (f + 1) && 1 <= f
    requires NoDivisorBelow(f + 1, n)
    ensures IsPrime(n)
  {
    forall d: int | 1 < d < n
      ensures !Divides(d, n)
    {
      if Divides(d, n) {
        var e := n / d;
        Cofactor(d, n);
        CofactorBound(d, e, f);
        assert false;
      }
    }
  }

  lemma Cofactor(d: int, n: int)
    requires 1 < d < n && Divides(d, n)
    ensures 1 < n / d && n == d * (n / d) && Divides(n / d, n)
  {
    var e := n / d;
    assert e <= 1 ==> d * e <= d;
    ModOfMultiplePlus(e, d, 0);
  }

  lemma CofactorBound(d: int, e: int, f: int)
    requires 1 < d && 1 < e && 1 <= f && d * e < (f + 1) * (f + 1)
    ensures d <= f || e <= f
  {
    if f < d && f < e {
      MulMono(f + 1, d, f + 1);
      MulMono(f + 1, e, d);
      assert false;
    }
  }

  lemma DividesTransitive(d: int, p: int, n: int)
    requires d != 0 && p != 0 && Divides(d, p) && Divides(p, n)
    ensures Divides(d, n)
  {
    DividesThrough(d, p, n);
  }

  /** The first divisor above 1 is prime. */
  lemma FirstDivisorIsPrime(p: int, n: int)
    requires 1 < p && Divides(p, n) && NoDivisorBelow(p, n)
    ensures IsPrime(p)
  {
    forall d: int | 1 < d < p
      ensures !Divides(d, p)
    {
      if Divides(d, p) {
        DividesTransitive(d, p, n);
        assert false;
      }
    }
  }

  lemma {:induction false} WeightMonotone(i: nat, k: nat)
    requires i <= k
    ensures Weight(2, i) <= Weight(2, k)
    decreases k - i
  {
    if i < k {
      WeightMonotone(i, k - 1);
      WeightPositive(2, k - 1);
      MulAtLeast(Weight(2, k - 1), 2 + k - 1);
    }
  }

  /** A 32-bit number has fewer than 13 digits, so the 24-place array never overflows. */
  lemma FewDigits(x: int, k: nat)
    requires 1 <= x && x * Weight(2, k) <= MAX_INT
    ensures k < 12
  {
    if 12 <= k {
      WeightMonotone(12, k);
      assert Weight(2, 4) == 120;
      assert Weight(2, 8) == 362880;
      assert Weight(2, 12) == 6227020800;
      MulAtLeast(x, Weight(2, k));
    }
  }

  /** Dividing the rest by the next radix appends a digit. */
  lemma AppendDigit(s: seq<int>, t: seq<int>, x: int, k: nat)
    requires 0 < x && k < |s| && t == s[k := x % (k + 2)]
    ensures 0 <= x / (k + 2) < x && 0 <= t[k] < k + 2 && (x / (k + 2) == 0 ==> 0 < t[k])
    ensures Value(t, 2, 0, k + 1) + (x / (k + 2)) * Weight(2, k + 1) == Value(s, 2, 0, k) + x * Weight(2, k)
  {
    ValueFrame(s, t, 2, 0, k);
    AppendAlgebra(x, k + 2, Weight(2, k));
  }

  lemma AppendAlgebra(x: int, y: int, w: int)
    requires 0 < x && 2 <= y
    ensures 0 <= x / y < x && (x / y == 0 ==> 0 < x % y)
    ensures (x % y) * w + (x / y) * (w * y) == x * w
  {
    var r, q := x % y, x / y;
    MulDistributes(w, r, y * q);
    MulSwap(q, w, y);
    MulSwap(w, y, q);
  }

  /** The digits of `n` for radices 2, 3, 4, ... */
  method InitialDigits(n: int, val: array<int>) returns (hib: int)
    requires 0 < n <= MAX_INT && val.Length == DIGITS
    modifies val
    ensures 0 <= hib < 12
    ensures DigitsInRange(val[..], 2, 0, hib + 1) && 0 < val[hib]
    ensures Value(val[..], 2, 0, hib + 1) == n
  {
    hib := -1;
    var x, y := n, 2;
    while x != 0
      invariant 0 <= x && -1 <= hib < 12 && y == hib + 3
      invariant DigitsInRange(val[..], 2, 0, hib + 1)
      invariant Value(val[..], 2, 0, hib + 1) + x * Weight(2, hib + 1) == n
      invariant x == 0 ==> 0 <= hib && 0 < val[hib]
      decreases x
    {
      ghost var s := val[..];
      ValueBound(s, 2, hib + 1);
      FewDigits(x, hib + 1);
      hib := hib + 1;
      AppendDigit(s, s[hib := x % y], x, hib);
      val[hib] := x % y;
      assert val[..] == s[hib := x % y];
      x := x / y;
      y := y + 1;
    }
  }

  /** The borrow loop for one digit. */
  method BorrowUntilNonnegative(val: array<int>, i: nat, f: nat, ghost n: nat)
    requires i + 1 < n <= val.Length && val[i] < f + 1 + i
    modifies val
    ensures MixedValue(val[..], f, i + 1, n) == old(MixedValue(val[..], f, i + 1, n))
    ensures 0 <= val[i] < f + 1 + i && val[i + 1] <= old(val[i + 1])
    ensures forall k :: 0 <= k < val.Length && k != i && k != i + 1 ==> val[k] == old(val[k])
  {
    var j := i + 1;
    while val[i] < 0
      invariant MixedValue(val[..], f, j, n) == old(MixedValue(val[..], f, i + 1, n))
      invariant val[i] < f + 1 + i && val[j] <= old(val[j])
      invariant forall k :: 0 <= k < val.Length && k != i && k != j ==> val[k] == old(val[k])
      decreases -val[i]
    {
      ghost var s := val[..];
      val[i] := val[i] + (f + 1 + i);
      val[j] := val[j] - 1;
      Borrow(s, val[..], f, i, n);
    }
  }

  /** One pass of the inner loop: the same number with radices f+1, f+2, ... */
  method Rebase(val: array<int>, hib: nat, f: nat)
    requires 2 <= f <= 46340 && 2 <= hib < 12 && val.Length == DIGITS
    requires DigitsInRange(val[..], f, 0, hib + 1)
    requires 0 <= Value(val[..], f, 0, hib + 1)
    modifies val
    ensures Value(val[..], f + 1, 0, hib + 1) == old(Value(val[..], f, 0, hib + 1))
    ensures DigitsInRange(val[..], f + 1, 0, hib + 1)
  {
    ghost var n, s := hib + 1, val[..];
    var i := 0;
    MixedValueStart(s, f, n);
    while i != hib
      invariant 0 <= i <= hib
      invariant MixedValue(val[..], f, i, n) == Value(s, f, 0, n)
      invariant DigitsInRange(val[..], f + 1, 0, i)
      invariant val[i] < f + i
      invariant forall k :: i < k < n ==> val[k] == s[k]
    {
      var j := i + 1;
      ghost var t := val[..];
      ProductFits(j, val[j]);
      val[i] := val[i] - j * val[j];
      ConvertDigit(t, val[..], f, i, n);
      BorrowUntilNonnegative(val, i, f, n);
      i := j;
    }
    TopDigitNonnegative(val[..], f + 1, hib);
  }

  /** The product fits a 32-bit int. */
  lemma ProductFits(j: int, d: int)
    requires 0 <= j <= 12 && 0 <= d <= 46351
    ensures 0 <= j * d < MAX_INT
  {
    MulMono(j, 12, d);
    MulMono(0, j, d);
  }

  lemma MixedValueStart(s: seq<int>, f: nat, n: nat)
    requires 1 <= n <= |s|
    ensures MixedValue(s, f, 0, n) == Value(s, f, 0, n)
  {
    ValueSplit(s, f, 0, 1, n);
    assert Value(s, f, 0, 1) == Value(s, f, 0, 0) + s[0] * Weight(f, 0);
    assert Value(s, f + 1, 0, 1) == Value(s, f + 1, 0, 0) + s[0] * Weight(f + 1, 0);
  }

  /** Zero top digits are dropped; some digit of a positive number is not zero. */
  method DropLeadingZeros(val: array<int>, hib0: nat, f: nat) returns (hib: nat)
    requires hib0 < val.Length && 0 < Value(val[..], f, 0, hib0 + 1)
    ensures hib <= hib0 && val[hib] != 0
    ensures Value(val[..], f, 0, hib + 1) == Value(val[..], f, 0, hib0 + 1)
  {
    hib := hib0;
    while val[hib] == 0
      invariant hib <= hib0
      invariant Value(val[..], f, 0, hib + 1) == Value(val[..], f, 0, hib0 + 1)
      decreases hib
    {
      assert Value(val[..], f, 0, hib) == Value(val[..], f, 0, hib + 1);
      hib := hib - 1;
    }
  }

  /** With three digits or more the number is at least f(f+1). */
  lemma RadixIsSmall(s: seq<int>, f: nat, hib: nat)
    requires 2 <= f && 2 <= hib < |s| && DigitsInRange(s, f, 0, hib + 1) && 0 < s[hib]
    requires Value(s, f, 0, hib + 1) <= MAX_INT
    ensures f <= 46340
  {
    ValueBound(s, f, hib);
    WeightPositive(f, hib);
    MulAtLeast(s[hib], Weight(f, hib));
    WeightAtLeastSquare(f, hib);
    SquareBound(f);
  }

  lemma SquareBound(f: int)
    requires 0 <= f && f * f <= MAX_INT
    ensures f <= 46340
  {
    assert 46341 <= f ==> 46341 * 46341 <= f * f;
  }

  lemma {:induction false} WeightAtLeastSquare(f: nat, i: nat)
    requires 1 <= f && 2 <= i
    ensures f * f <= Weight(f, i)
  {
    if i == 2 {
      assert Weight(f, 1) == Weight(f, 0) * f;
      assert Weight(f, 2) == f * (f + 1);
    } else {
      WeightAtLeastSquare(f, i - 1);
      MulAtLeast(f, f);
      MulAtLeast(Weight(f, i - 1), f + i - 1);
    }
  }

  /** `factor`: the smallest prime factor of n > 1, and 1 for n = 1. */
  method SmallestFactor(n: int) returns (p: int)
    requires 0 < n <= MAX_INT
    ensures n == 1 ==> p == 1
    ensures 1 < n ==> IsSmallestPrimeFactor(p, n)
  {
    var val := new int[DIGITS];
    var hib := InitialDigits(n, val);
    var f := 2;
    while val[0] != 0 && hib > 1
      invariant 0 <= hib < 12 && 2 <= f
      invariant DigitsInRange(val[..], f, 0, hib + 1) && 0 < val[hib]
      invariant Value(val[..], f, 0, hib + 1) == n
      invariant NoDivisorBelow(f, n)
      invariant f <= 46341
      decreases 46341 - f
    {
      DigitZeroIsRemainder(val[..], f, hib + 1);
      RadixIsSmall(val[..], f, hib);
      f := f + 1;
      Rebase(val, hib, f - 1);
      hib := DropLeadingZeros(val, hib, f);
    }
    DigitZeroIsRemainder(val[..], f, hib + 1);
    if val[0] == 0 {
      p := f;
      NonunitWhenDivisible(n, f);
      FirstDivisorIsPrime(f, n);
    } else {
      p := n;
      TwoDigitBound(val[..], f, hib + 1);
      if 1 < n {
        NoSmallDivisorMeansPrime(n, f);
        assert n % n == 0;
      }
    }
  }

  lemma NonunitWhenDivisible(n: int, f: int)
    requires 0 < n && 2 <= f && n % f == 0
    ensures 1 < n
  {
  }

  function Product(ps: seq<int>): int {
    if ps == [] then 1 else ps[|ps| - 1] * Product(ps[..|ps| - 1])
  }

  /** A divisor of n/p divides n, so later factors are not smaller than earlier ones. */
  lemma LaterFactorNotSmaller(n: int, p: int, q: int)
    requires IsSmallestPrimeFactor(p, n) && 0 < n
    requires 1 < q && Divides(q, n / p)
    ensures Divides(q, n) && p <= q
  {
    DivisorOfFactor(q, n / p, p);
    assert n == (n / p) * p;
    assert Divides(q, n);
  }

  ghost predicate NonDecreasing(ps: seq<int>) {
    forall i, j :: 0 <= i < j < |ps| ==> ps[i] <= ps[j]
  }

  ghost predicate AllPrime(ps: seq<int>) {
    forall i :: 0 <= i < |ps| ==> IsPrime(ps[i])
  }

  /** No listed factor exceeds a divisor of what is left. */
  ghost predicate BelowDivisors(ps: seq<int>, n: int) {
    forall i, q: int :: 0 <= i < |ps| && 1 < q && Divides(q, n) ==> ps[i] <= q
  }

  lemma ExtendProduct(ps: seq<int>, n: int, p: int)
    requires 1 < n && 1 < p && n % p == 0
    ensures Product(ps + [p]) * (n / p) == Product(ps) * n
    ensures 0 < n / p < n
  {
    ProductSnoc(ps, p);
    hide Product;
    QuotientBelow(n, p);
    var m := n / p;
    MulAssoc(p, Product(ps), m);
    MulSwap(p, Product(ps), m);
  }

  lemma ProductSnoc(ps: seq<int>, p: int)
    ensures Product(ps + [p]) == p * Product(ps)
  {
    assert (ps + [p])[..|ps|] == ps;
  }

  lemma QuotientBelow(n: int, p: int)
    requires 1 < n && 1 < p && n % p == 0
    ensures n == p * (n / p) && 0 < n / p < n
  {
    var m := n / p;
    assert n == p * m;
    if m <= 0 {
      MulMono(m, 0, p);
    } else {
      MulMono(2, p, m);
    }
  }

  lemma ExtendList(ps: seq<int>, n: int, p: int)
    requires 1 < n && IsSmallestPrimeFactor(p, n)
    requires NonDecreasing(ps) && AllPrime(ps) && BelowDivisors(ps, n)
    ensures NonDecreasing(ps + [p]) && AllPrime(ps + [p]) && BelowDivisors(ps + [p], n / p)
    ensures Product(ps + [p]) * (n / p) == Product(ps) * n
    ensures 0 < n / p < n
  {
    ExtendProduct(ps, n, p);
    forall i, q: int | 0 <= i < |ps + [p]| && 1 < q && Divides(q, n / p)
      ensures (ps + [p])[i] <= q
    {
      LaterFactorNotSmaller(n, p, q);
    }
  }

  /** `printfactors`: the prime factorisation, smallest first; a lone 1 for 1. */
  method PrintFactors(n0: int) returns (printed: seq<int>)
    requires 0 < n0 <= MAX_INT
    ensures n0 == 1 ==> printed == [1]
    ensures 1 < n0 ==> AllPrime(printed)
    ensures NonDecreasing(printed) && Product(printed) == n0
  {
    printed := [];
    var n := n0;
    if n == 1 {
      printed := [1];
      assert Product([1]) == 1 * Product([]);
    } else {
      while n != 1
        invariant 0 < n <= n0
        invariant Product(printed) * n == n0
        invariant NonDecreasing(printed) && AllPrime(printed) && BelowDivisors(printed, n)
        decreases n
      {
        var prime := SmallestFactor(n);
        ExtendList(printed, n, prime);
        printed := printed + [prime];
        n := n / prime;
      }
    }
  }
}

/**
 The HI:LO accumulator of the emulator: mult, multu and the multiply-accumulate instructions,
 with carry and borrow worked out on 32-bit halves.
 */
module HiLo {
  import opened Arith
  import opened ICache

  const W32: int := 0x1_0000_0000
  const W64: int := 0x1_0000_0000_0000_0000

  /** The instruction with the contents of its two source registers. */
  datatype Instr =
    | Mult(s: Word, t: Word)
    | Multu(s: Word, t: Word)
    | Madd(s: Word, t: Word)
    | Maddu(s: Word, t: Word)
    | Msub(s: Word, t: Word)
    | Msubu(s: Word, t: Word)

  /** The product that the instruction forms: a 64-bit signed or unsigned integer. */
  function Product(i: Instr): int {
    if i.Mult? || i.Madd? || i.Msub? then Signed(i.s) * Signed(i.t) else i.s * i.t
  }

  /** The low half, a conversion to uint32. */
  function Low(p: int): Word { p % W32 }

  /** The high half after an arithmetic shift right by 32. */
  function High(p: int): Word { p / W32 % W32 }

  function Joined(hi: Word, lo: Word): int { hi * W32 + lo }

  lemma HalvesJoin(p: int)
    ensures Joined(High(p), Low(p)) == p % W64
  {
    var q, r := p / W32 / W32, Joined(High(p), Low(p));
    assert p == W64 * q + r;
    ModOfMultiplePlus(W64, q, r);
  }

  /** The exact, unbounded accumulator. */
  function Exact(acc: int, i: Instr): int {
    match i
    case Mult(_, _) => Product(i)
    case Multu(_, _) => Product(i)
    case Madd(_, _) => acc + Product(i)
    case Maddu(_, _) => acc + Product(i)
    case Msub(_, _) => acc - Product(i)
    case Msubu(_, _) => acc - Product(i)
  }

  function ExactRun(acc: int, code: seq<Instr>): int {
    if code == [] then acc else Exact(ExactRun(acc, code[..|code| - 1]), code[|code| - 1])
  }

  /** Reducing both halves of h W + l, with the low half brought into range by c. */
  lemma ReduceHalves(h: int, l: int, c: int)
    requires 0 <= l - c * W32 < W32
    ensures l % W32 == l - c * W32
    ensures Joined((h + c) % W32, l % W32) == (h * W32 + l) % W64
  {
    ModOfMultiplePlus(W32, c, l - c * W32);
    var q, r := (h + c) / W32, (h + c) % W32;
    assert h * W32 + l == W64 * q + (r * W32 + (l - c * W32));
    ModOfMultiplePlus(W64, q, r * W32 + (l - c * W32));
  }

  /** Addition on halves: the carry is taken from the low halves alone. */
  lemma AddHalves(acc: int, p: int, hi: Word, lo: Word)
    requires Joined(hi, lo) == acc % W64
    ensures var carry := if lo > 0xFFFF_FFFF - Low(p) then 1 else 0;
            Joined((hi + carry + High(p)) % W32, (lo + Low(p)) % W32) == (acc + p) % W64
  {
    HalvesJoin(p);
    ReduceHalves(hi + High(p), lo + Low(p), if lo > 0xFFFF_FFFF - Low(p) then 1 else 0);
    ModSum(acc, p);
  }

  lemma SubHalves(acc: int, p: int, hi: Word, lo: Word)
    requires Joined(hi, lo) == acc % W64
    ensures var borrow := if lo < Low(p) then 1 else 0;
            Joined((hi - borrow - High(p)) % W32, (lo - Low(p)) % W32) == (acc - p) % W64
  {
    HalvesJoin(p);
    ReduceHalves(hi - High(p), lo - Low(p), if lo < Low(p) then -1 else 0);
    ModSum(acc, p);
  }

  /** The halves that one instruction leaves, with carry or borrow from the low halves. */
  function Accumulate(hi: Word, lo: Word, i: Instr): (Word, Word) {
    var p := Product(i);
    match i
    case Mult(_, _) => (High(p), Low(p))
    case Multu(_, _) => (High(p), Low(p))
    case Madd(_, _) => AddedTo(hi, lo, p)
    case Maddu(_, _) => AddedTo(hi, lo, p)
    case Msub(_, _) => SubtractedFrom(hi, lo, p)
    case Msubu(_, _) => SubtractedFrom(hi, lo, p)
  }

  function AddedTo(hi: Word, lo: Word, p: int): (Word, Word) {
    var carry := if lo > 0xFFFF_FFFF - Low(p) then 1 else 0;
    ((hi + carry + High(p)) % W32, (lo + Low(p)) % W32)
  }

  function SubtractedFrom(hi: Word, lo: Word, p: int): (Word, Word) {
    var borrow := if lo < Low(p) then 1 else 0;
    ((hi - borrow - High(p)) % W32, (lo - Low(p)) % W32)
  }

  /** The halves follow the exact accumulator modulo 2^64. */
  lemma AccumulateIsExact(acc: int, hi: Word, lo: Word, i: Instr)
    requires Joined(hi, lo) == acc % W64
    ensures var (h, l) := Accumulate(hi, lo, i); Joined(h, l) == Exact(acc, i) % W64
  {
    hide Joined, High, Low, Product;
    HalvesJoin(Product(i));
    AddHalves(acc, Product(i), hi, lo);
    SubHalves(acc, Product(i), hi, lo);
  }

  /** Wrapping twice is wrapping once. */
  lemma WrapTwice(a: int, b: int)
    ensures (a % W32 + b) % W32 == (a + b) % W32
  {
    var q, r := (a % W32 + b) / W32, (a % W32 + b) % W32;
    assert a + b == W32 * (a / W32 + q) + r;
    ModOfMultiplePlus(W32, a / W32 + q, r);
  }

  lemma ModSum(a: int, b: int)
    ensures (a % W64 + b % W64) % W64 == (a + b) % W64
    ensures (a % W64 - b % W64) % W64 == (a - b) % W64
  {
    var s, d := a % W64 + b % W64, a % W64 - b % W64;
    assert a + b == W64 * (a / W64 + b / W64 + s / W64) + s % W64;
    ModOfMultiplePlus(W64, a / W64 + b / W64 + s / W64, s % W64);
    assert a - b == W64 * (a / W64 - b / W64 + d / W64) + d % W64;
    ModOfMultiplePlus(W64, a / W64 - b / W64 + d / W64, d % W64);
  }

  class Accumulator {
    var hi: Word
    var lo: Word

    constructor ()
      ensures Joined(hi, lo) == 0
    {
      hi, lo := 0, 0;
    }

    method SetTo(p: int)
      modifies this
      ensures hi == High(p) && lo == Low(p)
    {
      lo := Low(p);
      hi := High(p);
    }

    method Add(p: int)
      modifies this
      ensures (hi, lo) == AddedTo(old(hi), old(lo), p)
    {
      if lo > 0xFFFF_FFFF - Low(p) {
        WrapTwice(hi + 1, High(p));
        hi := (hi + 1) % W32;
      }
      lo := (lo + Low(p)) % W32;
      hi := (hi + High(p)) % W32;
    }

    method Subtract(p: int)
      modifies this
      ensures (hi, lo) == SubtractedFrom(old(hi), old(lo), p)
    {
      if lo < Low(p) {
        WrapTwice(hi - 1, 0 - High(p));
        hi := (hi - 1) % W32;
      }
      lo := (lo - Low(p)) % W32;
      hi := (hi - High(p)) % W32;
    }

    method Execute(i: Instr, ghost acc: int)
      requires Joined(hi, lo) == acc % W64
      modifies this
      ensures (hi, lo) == Accumulate(old(hi), old(lo), i)
      ensures Joined(hi, lo) == Exact(acc, i) % W64
    {
      AccumulateIsExact(acc, hi, lo, i);
      var p := Product(i);
      match i
      case Mult(_, _) => SetTo(p);
      case Multu(_, _) => SetTo(p);
      case Madd(_, _) => Add(p);
      case Maddu(_, _) => Add(p);
      case Msub(_, _) => Subtract(p);
      case Msubu(_, _) => Subtract(p);
    }

    /** After any sequence HI:LO is the exact sum of products modulo 2^64. */
    method ExecuteAll(code: seq<Instr>)
      modifies this
      ensures Joined(hi, lo) == ExactRun(old(Joined(hi, lo)), code) % W64
    {
      ghost var acc := Joined(hi, lo);
      for k := 0 to |code|
        invariant Joined(hi, lo) == ExactRun(acc, code[..k]) % W64
      {
        assert code[..k + 1][..k] == code[..k];
        Execute(code[k], ExactRun(acc, code[..k]));
      }
      assert code[..|code|] == code;
    }
  }
}

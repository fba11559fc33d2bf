/**
 The fetch-execute loop `Emulate`: control transfers, the three-valued delay-slot flag and
 the fast path of the instruction cache that some instructions patch by hand.

 Three machines are compared.  `Cpu` is the emulator with its cache.  `PlainStep` is the same
 loop with every word fetched directly.  `ArchStep` is the architecture's machine with two
 program counters.
 */
module Emulator {
  import opened ICache

  /** Registers 0..31, then LO and HI. */
  type Regs = r: seq<Word> | |r| == 34 witness seq(34, _ => 0)

  /** A syscall may skip the two error-handling instructions that follow it. */
  type SkipCount = k: int | k == 0 || k == 2

  const RA: int := 31

  // ----- Instruction fields

  function Op(i: Word): int { i / 0x400_0000 }
  function Rs(i: Word): int { i / 0x20_0000 % 32 }
  function Rt(i: Word): int { i / 0x1_0000 % 32 }
  function Rd(i: Word): int { i / 0x800 % 32 }
  function Fxn(i: Word): int { i % 64 }
  function SImm16(i: Word): int { if i % 0x1_0000 < 0x8000 then i % 0x1_0000 else i % 0x1_0000 - 0x1_0000 }
  function JTarget(i: Word): int { i % 0x400_0000 }

  predicate Negative(w: Word) { 0x8000_0000 <= w }

  /** The upper four bits of an address. */
  function Region(a: Word): int { a / 0x1000_0000 * 0x1000_0000 }

  function InRegion(a: Word, i: Word): Word { Region(a) + JTarget(i) * 4 }

  /**
   A program: its image, what the instructions that only touch data do (none means the
   emulator stops: break, trap, overflow, invalid instruction), and what system calls do.
   */
  datatype Program = Program(
    image: Image,
    data: (Word, Regs, Memory) -> Option<(Regs, Memory)>,
    sys: (Word, Regs, Memory) -> (Regs, Memory, SkipCount))

  // ----- The loop without a cache

  /** What one pass through the switch leaves behind. */
  datatype Effect = Effect(nextPc: Word, taken: bool, skipped: nat, regs: Regs, mem: Memory)

  function Branch(pc: Word, i: Word, cond: bool, likely: bool, regs: Regs, mem: Memory): Effect {
    if cond then Effect(Plus(pc, 4 + SImm16(i) * 4), true, 0, regs, mem)
    else if likely then Effect(Plus(pc, 8), false, 1, regs, mem)
    else Effect(Plus(pc, 4), false, 0, regs, mem)
  }

  /** Opcode 0. */
  function Special(p: Program, pc: Word, i: Word, regs: Regs, mem: Memory): Option<Effect> {
    match Fxn(i)
    case 8 => Some(Effect(regs[Rs(i)], true, 0, regs, mem))
    case 9 =>
      var linked: Regs := regs[Rd(i) := Plus(pc, 8)];
      Some(Effect(linked[Rs(i)], true, 0, linked, mem))
    case 12 =>
      var (r, m, skip) := p.sys(i, regs, mem);
      Some(Effect(Plus(pc, 4 + skip * 4), false, skip, r, m))
    case _ => Data(p, pc, i, regs, mem)
  }

  /** Opcode 1; the link register is written before the condition is read. */
  function RegImm(p: Program, pc: Word, i: Word, regs: Regs, mem: Memory): Option<Effect> {
    var linked: Regs := if 16 <= Rt(i) <= 19 then regs[RA := Plus(pc, 8)] else regs;
    var less := Negative(linked[Rs(i)]);
    match Rt(i)
    case 0 => Some(Branch(pc, i, less, false, linked, mem))
    case 1 => Some(Branch(pc, i, !less, false, linked, mem))
    case 2 => Some(Branch(pc, i, less, true, linked, mem))
    case 3 => Some(Branch(pc, i, !less, true, linked, mem))
    case 16 => Some(Branch(pc, i, less, false, linked, mem))
    case 17 => Some(Branch(pc, i, !less, false, linked, mem))
    case 18 => Some(Branch(pc, i, less, true, linked, mem))
    case 19 => Some(Branch(pc, i, !less, true, linked, mem))
    case _ => Data(p, pc, i, regs, mem)
  }

  function Execute(p: Program, pc: Word, i: Word, regs: Regs, mem: Memory): Option<Effect> {
    var s, t := regs[Rs(i)], regs[Rt(i)];
    match Op(i)
    case 0 => Special(p, pc, i, regs, mem)
    case 1 => RegImm(p, pc, i, regs, mem)
    case 2 => Some(Effect(InRegion(pc, i), true, 0, regs, mem))
    case 3 => Some(Effect(InRegion(pc, i), true, 0, regs[RA := Plus(pc, 8)], mem))
    case 4 => Some(Branch(pc, i, s == t, false, regs, mem))
    case 5 => Some(Branch(pc, i, s != t, false, regs, mem))
    case 6 => Some(Branch(pc, i, Negative(s) || s == 0, false, regs, mem))
    case 7 => Some(Branch(pc, i, !(Negative(s) || s == 0), false, regs, mem))
    case 20 => Some(Branch(pc, i, s == t, true, regs, mem))
    case 21 => Some(Branch(pc, i, s != t, true, regs, mem))
    case 22 => Some(Branch(pc, i, Negative(s) || s == 0, true, regs, mem))
    case 23 => Some(Branch(pc, i, !(Negative(s) || s == 0), true, regs, mem))
    case _ => Data(p, pc, i, regs, mem)
  }

  function Data(p: Program, pc: Word, i: Word, regs: Regs, mem: Memory): Option<Effect> {
    match p.data(i, regs, mem)
    case None => None
    case Some((r, m)) => Some(Effect(Plus(pc, 4), false, 0, r, m))
  }

  lemma SkippedWords(p: Program, pc: Word, i: Word, regs: Regs, mem: Memory)
    requires Execute(p, pc, i, regs, mem).Some?
    ensures var e := Execute(p, pc, i, regs, mem).value;
            if e.taken then e.skipped == 0 else e.nextPc == Plus(pc, 4 + 4 * e.skipped)
  {
  }

  /** The state at the head of the loop; `slot` is the flag's value 2. */
  datatype LoopState = LoopState(pc: Word, slot: bool, postDelaySlotPc: Word, regs: Regs, mem: Memory)

  /** The end of the loop body: register 0 is cleared and the delay-slot flag moves on. */
  function Commit(st: LoopState, e: Effect): LoopState {
    var regs: Regs := e.regs[0 := 0];
    if e.taken then LoopState(Plus(st.pc, 4), true, e.nextPc, regs, e.mem)
    else if st.slot then LoopState(st.postDelaySlotPc, false, st.postDelaySlotPc, regs, e.mem)
    else LoopState(e.nextPc, false, st.postDelaySlotPc, regs, e.mem)
  }

  function PlainStep(p: Program, st: LoopState): Option<LoopState>
    requires p.image.Placed()
  {
    match p.image.WordAt(st.mem, st.pc)
    case None => None
    case Some(i) =>
      match Execute(p, st.pc, i, st.regs, st.mem)
      case None => None
      case Some(e) => Some(Commit(st, e))
  }

  lemma NothingToExecute(p: Program, st: LoopState)
    requires p.image.Placed()
    ensures PlainStep(p, st).Some? ==> p.image.WordAt(st.mem, st.pc).Some?
  {
    hide Execute, Commit;
  }

  /** The addresses of the first n instructions, fewer when the program stops. */
  function PlainTrace(p: Program, st: LoopState, n: nat): seq<Word>
    requires p.image.Placed()
    decreases n
  {
    if n == 0 then []
    else match PlainStep(p, st)
      case None => []
      case Some(next) => [st.pc] + PlainTrace(p, next, n - 1)
  }

  function PlainRun(p: Program, st: LoopState, n: nat): Option<LoopState>
    requires p.image.Placed()
    decreases n
  {
    if n == 0 then Some(st)
    else match PlainStep(p, st)
      case None => None
      case Some(next) => PlainRun(p, next, n - 1)
  }

  lemma TraceStep(p: Program, st: LoopState, n: nat, before: seq<Word>)
    requires p.image.Placed() && 0 < n
    ensures match PlainStep(p, st)
            case None => before + PlainTrace(p, st, n) == before && PlainRun(p, st, n) == None
            case Some(next) => before + PlainTrace(p, st, n) == before + [st.pc] + PlainTrace(p, next, n - 1)
                               && PlainRun(p, st, n) == PlainRun(p, next, n - 1)
  {
  }

  lemma TraceEnds(p: Program, st: LoopState, n: nat, before: seq<Word>)
    requires p.image.Placed()
    ensures [] + PlainTrace(p, st, n) == PlainTrace(p, st, n)
    ensures before + PlainTrace(p, st, 0) == before && PlainRun(p, st, 0) == Some(st)
  {
  }

  // ----- The emulator

  class Cpu {
    const p: Program
    const cache: Cache
    var pc: Word
    var regs: Regs
    var mem: Memory
    var delaySlot: int
    var postDelaySlotPc: Word

    /** The loop invariant: the cache is coherent and its fast path agrees with the PC. */
    ghost predicate Valid()
      reads this, cache, cache.tags, cache.rows
    {
      p.image == cache.image && p.image.Placed() && p.image.textEnd % LINE_BYTES == 0 &&
      cache.Coherent() && 0 <= cache.victim < WAYS && cache.InSync(pc) && (delaySlot == 0 || delaySlot == 2)
    }

    ghost function State(): LoopState
      reads this
    {
      LoopState(pc, delaySlot == 2, postDelaySlotPc, regs, mem)
    }

    constructor (p: Program, entry: Word, regs: Regs, mem: Memory)
      requires p.image.Placed() && p.image.textEnd % LINE_BYTES == 0
      ensures Valid() && fresh(cache) && fresh(cache.tags) && fresh(cache.rows)
      ensures this.p == p && State() == LoopState(entry, false, 0, regs, mem)
    {
      this.p := p;
      cache := new Cache(p.image);
      pc, this.regs, this.mem := entry, regs, mem;
      delaySlot, postDelaySlotPc := 0, 0;
    }

    /** What the switch has done when it comes to an end with effect `e`. */
    twostate predicate Executed(e: Effect, nextPc: Word)
      reads this, cache
    {
      nextPc == e.nextPc && regs == e.regs && mem == e.mem &&
      delaySlot == (if e.taken then 1 else old(delaySlot)) &&
      cache.cachedCnt == old(cache.cachedCnt) - e.skipped &&
      cache.cachedInstr == old(cache.cachedInstr).Advance(e.skipped)
    }

    /** A conditional branch, with the fast path patched when a likely branch is not taken. */
    method DoBranch(i: Word, cond: bool, likely: bool, nextPc0: Word) returns (nextPc: Word)
      requires nextPc0 == Plus(pc, 4)
      modifies this`delaySlot, cache`cachedCnt, cache`cachedInstr
      ensures Executed(Branch(pc, i, cond, likely, regs, mem), nextPc)
    {
      nextPc := nextPc0;
      if cond {
        PlusPlus(pc, 4, SImm16(i) * 4);
        nextPc := Plus(nextPc, SImm16(i) * 4);
        delaySlot := 1;
      } else if likely {
        PlusPlus(pc, 4, 4);
        nextPc := Plus(nextPc, 4);
        cache.Skip(1);
      }
    }

    /** Opcode 0: jumps through registers, system calls, data instructions. */
    method DoSpecial(i: Word, nextPc0: Word) returns (running: bool, nextPc: Word)
      requires nextPc0 == Plus(pc, 4)
      modifies this`regs, this`mem, this`delaySlot, cache`cachedCnt, cache`cachedInstr
      ensures var r := Special(p, pc, i, old(regs), old(mem));
              running == r.Some? && (running ==> Executed(r.value, nextPc))
    {
      running, nextPc := true, nextPc0;
      match Fxn(i)
      case 8 =>
        nextPc := regs[Rs(i)];
        delaySlot := 1;
      case 9 =>
        PlusPlus(pc, 4, 4);
        regs := regs[Rd(i) := Plus(nextPc, 4)];
        nextPc := regs[Rs(i)];
        delaySlot := 1;
      case 12 =>
        var (r, m, skip) := p.sys(i, regs, mem);
        regs, mem := r, m;
        PlusPlus(pc, 4, skip * 4);
        nextPc := Plus(nextPc, skip * 4);
        cache.Skip(skip);
      case _ =>
        running := DoData(i);
    }

    method DoData(i: Word) returns (running: bool)
      modifies this`regs, this`mem
      ensures var r := p.data(i, old(regs), old(mem));
              running == r.Some? && (running ==> (regs, mem) == r.value)
    {
      match p.data(i, regs, mem)
      case None => running := false;
      case Some((r, m)) =>
        running := true;
        regs, mem := r, m;
    }

    /** Opcode 1. */
    method DoRegImm(i: Word, nextPc0: Word) returns (running: bool, nextPc: Word)
      requires nextPc0 == Plus(pc, 4)
      modifies this`regs, this`mem, this`delaySlot, cache`cachedCnt, cache`cachedInstr
      ensures var r := RegImm(p, pc, i, old(regs), old(mem));
              running == r.Some? && (running ==> Executed(r.value, nextPc))
    {
      running, nextPc := true, nextPc0;
      var rt := Rt(i);
      if 16 <= rt <= 19 {
        PlusPlus(pc, 4, 4);
        regs := regs[RA := Plus(nextPc, 4)];
      }
      var less := Negative(regs[Rs(i)]);
      match rt
      case 0 => nextPc := DoBranch(i, less, false, nextPc);
      case 1 => nextPc := DoBranch(i, !less, false, nextPc);
      case 2 => nextPc := DoBranch(i, less, true, nextPc);
      case 3 => nextPc := DoBranch(i, !less, true, nextPc);
      case 16 => nextPc := DoBranch(i, less, false, nextPc);
      case 17 => nextPc := DoBranch(i, !less, false, nextPc);
      case 18 => nextPc := DoBranch(i, less, true, nextPc);
      case 19 => nextPc := DoBranch(i, !less, true, nextPc);
      case _ => running := DoData(i);
    }

    /** The switch on the opcode. */
    method Switch(i: Word, nextPc0: Word) returns (running: bool, nextPc: Word)
      requires nextPc0 == Plus(pc, 4)
      modifies this`regs, this`mem, this`delaySlot, cache`cachedCnt, cache`cachedInstr
      ensures var r := Execute(p, pc, i, old(regs), old(mem));
              running == r.Some? && (running ==> Executed(r.value, nextPc))
    {
      running, nextPc := true, nextPc0;
      var s, t := regs[Rs(i)], regs[Rt(i)];
      match Op(i)
      case 0 => running, nextPc := DoSpecial(i, nextPc);
      case 1 => running, nextPc := DoRegImm(i, nextPc);
      case 2 =>
        nextPc := InRegion(pc, i);
        delaySlot := 1;
      case 3 =>
        PlusPlus(pc, 4, 4);
        regs := regs[RA := Plus(nextPc, 4)];
        nextPc := InRegion(pc, i);
        delaySlot := 1;
      case 4 => nextPc := DoBranch(i, s == t, false, nextPc);
      case 5 => nextPc := DoBranch(i, s != t, false, nextPc);
      case 6 => nextPc := DoBranch(i, Negative(s) || s == 0, false, nextPc);
      case 7 => nextPc := DoBranch(i, !(Negative(s) || s == 0), false, nextPc);
      case 20 => nextPc := DoBranch(i, s == t, true, nextPc);
      case 21 => nextPc := DoBranch(i, s != t, true, nextPc);
      case 22 => nextPc := DoBranch(i, Negative(s) || s == 0, true, nextPc);
      case 23 => nextPc := DoBranch(i, !(Negative(s) || s == 0), true, nextPc);
      case _ => running := DoData(i);
    }

    /** The number of words dropped from the fast path is the distance the PC skips. */
    lemma SkipMatchesNextPc(i: Word, cnt: int, ptr: Pointer, regs: Regs, mem: Memory)
      requires cache.Shape() && cache.Synced(cnt, ptr, Plus(pc, 4))
      ensures var r := Execute(p, pc, i, regs, mem);
              r.Some? && !r.value.taken ==>
                cache.Synced(cnt - r.value.skipped, ptr.Advance(r.value.skipped), r.value.nextPc)
      ensures var r := Execute(p, pc, i, regs, mem);
              r.Some? && r.value.taken ==> r.value.skipped == 0
    {
      var r := Execute(p, pc, i, regs, mem);
      if r.Some? {
        SkippedWords(p, pc, i, regs, mem);
        cache.SkipKeepsSync(cnt, ptr, Plus(pc, 4), r.value.skipped);
        PlusPlus(pc, 4, 4 * r.value.skipped);
      }
    }

    /** One pass through the loop of `Emulate` does what the loop with plain fetches does. */
    method Step() returns (running: bool)
      requires Valid()
      modifies this, cache, cache.tags, cache.rows
      ensures running == PlainStep(p, old(State())).Some?
      ensures running ==> Valid() && State() == PlainStep(p, old(State())).value
    {
      var pc0 := pc;
      var fetched := cache.FetchProgramWord(pc0, mem);
      if fetched.None? {
        return false;
      }
      var nextPc;
      ghost var cnt, ptr := cache.cachedCnt, cache.cachedInstr;
      running, nextPc := Switch(fetched.value, Plus(pc0, 4));
      if !running {
        return;
      }
      SkipMatchesNextPc(fetched.value, cnt, ptr, old(regs), old(mem));
      EndOfLoop(nextPc, old(State()), Execute(p, pc, fetched.value, old(regs), old(mem)).value);
    }

    /** The tail of the loop body. */
    method EndOfLoop(nextPc: Word, ghost st: LoopState, ghost e: Effect)
      requires p.image == cache.image && p.image.Placed() && p.image.textEnd % LINE_BYTES == 0
      requires cache.Coherent() && 0 <= cache.victim < WAYS
      requires cache.InSync(if e.taken then Plus(pc, 4) else nextPc)
      requires pc == st.pc && nextPc == e.nextPc && regs == e.regs && mem == e.mem
      requires delaySlot == (if e.taken then 1 else if st.slot then 2 else 0)
      requires postDelaySlotPc == st.postDelaySlotPc
      modifies this`pc, this`regs, this`delaySlot, this`postDelaySlotPc, cache`cachedCnt
      ensures Valid() && State() == Commit(st, e)
    {
      var pc0 := pc;
      regs := regs[0 := 0];
      pc := nextPc;
      if delaySlot != 0 {
        if delaySlot == 1 {
          postDelaySlotPc := nextPc;
          pc := Plus(pc0, 4);
          delaySlot := 2;
        } else {
          pc := postDelaySlotPc;
          delaySlot := 0;
          cache.cachedCnt := 0;
        }
      }
    }

    /** The loop, for any number of passes: the cache cannot be observed. */
    method Emulate(n: nat) returns (trace: seq<Word>)
      requires Valid()
      modifies this, cache, cache.tags, cache.rows
      ensures trace == PlainTrace(p, old(State()), n)
      ensures |trace| == n ==> Valid() && PlainRun(p, old(State()), n) == Some(State())
    {
      hide Valid, PlainStep, PlainTrace, PlainRun;
      Placement();
      trace := [];
      ghost var st0 := State();
      TraceEnds(p, st0, n, trace);
      for k := 0 to n
        invariant |trace| == k && Valid()
        invariant PlainTrace(p, st0, n) == trace + PlainTrace(p, State(), n - k)
        invariant PlainRun(p, st0, n) == PlainRun(p, State(), n - k)
      {
        ghost var st := State();
        var pc0 := pc;
        var running := Step();
        TraceStep(p, st, n - k, trace);
        if !running {
          return;
        }
        trace := trace + [pc0];
      }
      TraceEnds(p, State(), 0, trace);
    }

    lemma Placement()
      requires Valid()
      ensures p.image.Placed()
    {
    }
  }
}

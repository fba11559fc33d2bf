/**
 The six accumulator instructions inside the emulator: registers LO and HI of a running
 program, with branches, delay slots and other instructions in between.
 */
module HiLoProgram {
  import opened ICache
  import opened Emulator
  import opened HiLo
  import opened Encoding

  const LO: int := 32
  const HI: int := 33

  /** The accumulator instruction that a word encodes, with its source registers read. */
  function Decode(i: Word, regs: Regs): Option<Instr> {
    var s, t := regs[Rs(i)], regs[Rt(i)];
    if Op(i) == 0 then
      match Fxn(i)
      case 24 => Some(Mult(s, t))
      case 25 => Some(Multu(s, t))
      case _ => None
    else if Op(i) == 28 then
      match Fxn(i)
      case 0 => Some(Madd(s, t))
      case 1 => Some(Maddu(s, t))
      case 4 => Some(Msub(s, t))
      case 5 => Some(Msubu(s, t))
      case _ => None
    else None
  }

  function StoreHiLo(i: Instr, regs: Regs): Regs {
    var (hi, lo) := Accumulate(regs[HI], regs[LO], i);
    regs[LO := lo][HI := hi]
  }

  /** The program with the six instructions filled in; the others stay as they are. */
  function WithHiLo(p: Program): Program {
    p.(data := (i, regs, mem) =>
      match Decode(i, regs)
      case Some(instr) => Some((StoreHiLo(instr, regs), mem))
      case None => p.data(i, regs, mem))
  }

  /** mthi, mtlo, div and divu give HI and LO a value of another origin. */
  predicate SetsHiLo(i: Word) { Op(i) == 0 && Fxn(i) in {17, 19, 26, 27} }

  /** Every other instruction and every system call leaves HI and LO alone. */
  ghost predicate KeepsHiLo(p: Program) {
    && (forall i: Word, regs: Regs, mem: Memory ::
          !SetsHiLo(i) && p.data(i, regs, mem).Some? ==> SameHiLo(regs, p.data(i, regs, mem).value.0))
    && (forall i: Word, regs: Regs, mem: Memory :: SameHiLo(regs, p.sys(i, regs, mem).0))
  }

  predicate SameHiLo(r: Regs, s: Regs) { r[LO] == s[LO] && r[HI] == s[HI] }

  function Accumulated(st: LoopState): int { Joined(st.regs[HI], st.regs[LO]) }

  /** The accumulator instructions executed in the first n steps, with their operands. */
  function Executed(p: Program, st: LoopState, n: nat): seq<Instr>
    requires p.image.Placed()
    decreases n
  {
    if n == 0 || PlainStep(p, st).None? then []
    else
      (match Decode(p.image.WordAt(st.mem, st.pc).value, st.regs)
       case None => []
       case Some(instr) => [instr])
      + Executed(p, PlainStep(p, st).value, n - 1)
  }

  /** None of the first n instructions is mthi, mtlo, div or divu. */
  ghost predicate OnlyAccumulates(p: Program, st: LoopState, n: nat)
    requires p.image.Placed()
    decreases n
  {
    n == 0 || PlainStep(p, st).None? ||
    (!SetsHiLo(p.image.WordAt(st.mem, st.pc).value) && OnlyAccumulates(p, PlainStep(p, st).value, n - 1))
  }

  lemma {:induction false} ExactFromFirst(acc: int, i: Instr, code: seq<Instr>)
    ensures ExactRun(acc, [i] + code) == ExactRun(Exact(acc, i), code)
    decreases |code|
  {
    var all := [i] + code;
    if code == [] {
      assert all[..|all| - 1] == [];
    } else {
      assert all[..|all| - 1] == [i] + code[..|code| - 1];
      ExactFromFirst(acc, i, code[..|code| - 1]);
    }
  }

  lemma ExecutesData(p: Program, pc: Word, i: Word, regs: Regs, mem: Memory)
    requires Decode(i, regs).Some?
    ensures Execute(WithHiLo(p), pc, i, regs, mem) ==
            Some(Effect(Plus(pc, 4), false, 0, StoreHiLo(Decode(i, regs).value, regs), mem))
  {
  }

  // ----- The words

  /** The word goes on to the next one and changes only HI and LO, which then hold v modulo 2^64. */
  ghost predicate LeavesHiLo(p: Program, pc: Word, i: Word, regs: Regs, mem: Memory, v: int) {
    match Execute(WithHiLo(p), pc, i, regs, mem)
    case None => false
    case Some(e) =>
      var hi: int, lo: int := e.regs[33], e.regs[32];
      && e.nextPc == (pc + 4) % 0x1_0000_0000 && !e.taken && e.skipped == 0 && e.mem == mem
      && e.regs[..32] == regs[..32] && 0x1_0000_0000 * hi + lo == v % 0x1_0000_0000_0000_0000
  }

  lemma LeavesExact(p: Program, pc: Word, i: Word, regs: Regs, mem: Memory, instr: Instr)
    requires Decode(i, regs) == Some(instr)
    ensures LeavesHiLo(p, pc, i, regs, mem, Exact(Joined(regs[HI], regs[LO]), instr))
  {
    ExecutesData(p, pc, i, regs, mem);
    AccumulateIsExact(Joined(regs[HI], regs[LO]), regs[HI], regs[LO], instr);
    hide Execute, Exact, Accumulate, Decode;
  }

  /** mult and multu: function codes 24 and 25 of opcode 0. */
  lemma MultiplyWords(p: Program, pc: Word, s: int, t: int, rd: int, shift: int, regs: Regs, mem: Memory)
    requires Reg(s) && Reg(t) && Reg(rd) && Reg(shift)
    ensures LeavesHiLo(p, pc, Register(s, t, rd, shift, 24), regs, mem, Signed(regs[s]) * Signed(regs[t]))
    ensures var a: int, b: int := regs[s], regs[t];
            LeavesHiLo(p, pc, Register(s, t, rd, shift, 25), regs, mem, a * b)
  {
    hide LeavesHiLo, Register, Op, Rs, Rt, Rd, Fxn;
    RegisterFields(s, t, rd, shift, 24);
    RegisterFields(s, t, rd, shift, 25);
    LeavesExact(p, pc, Register(s, t, rd, shift, 24), regs, mem, Mult(regs[s], regs[t]));
    LeavesExact(p, pc, Register(s, t, rd, shift, 25), regs, mem, Multu(regs[s], regs[t]));
  }

  /** A word of opcode 28. */
  function Special2(s: int, t: int, rd: int, shift: int, fxn: int): (i: Word)
    requires Reg(s) && Reg(t) && Reg(rd) && Reg(shift) && 0 <= fxn < 64
  {
    0x7000_0000 + Register(s, t, rd, shift, fxn)
  }

  lemma Special2Fields(s: int, t: int, rd: int, shift: int, fxn: int)
    requires Reg(s) && Reg(t) && Reg(rd) && Reg(shift) && 0 <= fxn < 64
    ensures var i := Special2(s, t, rd, shift, fxn); Op(i) == 28 && Rs(i) == s && Rt(i) == t && Fxn(i) == fxn
  {
    var i, low := Special2(s, t, rd, shift, fxn), fxn + 0x40 * shift + 0x800 * rd;
    Parts(i, 0x40, 32, fxn, shift, rd + 32 * (t + 32 * (s + 32 * 28)));
    Parts(i, 0x1_0000, 32, low, t, s + 32 * 28);
    Parts(i, 0x20_0000, 32, low + 0x1_0000 * t, s, 28);
    Parts(i, 0x400_0000, 64, low + 0x1_0000 * t + 0x20_0000 * s, 28, 0);
  }

  /** madd, maddu, msub and msubu: function codes 0, 1, 4 and 5 of opcode 28. */
  lemma AccumulateWords(p: Program, pc: Word, s: int, t: int, rd: int, shift: int, regs: Regs, mem: Memory)
    requires Reg(s) && Reg(t) && Reg(rd) && Reg(shift)
    ensures var a: int, b: int, hi: int, lo: int := regs[s], regs[t], regs[33], regs[32];
            var acc := 0x1_0000_0000 * hi + lo;
            && LeavesHiLo(p, pc, Special2(s, t, rd, shift, 0), regs, mem, acc + Signed(regs[s]) * Signed(regs[t]))
            && LeavesHiLo(p, pc, Special2(s, t, rd, shift, 1), regs, mem, acc + a * b)
            && LeavesHiLo(p, pc, Special2(s, t, rd, shift, 4), regs, mem, acc - Signed(regs[s]) * Signed(regs[t]))
            && LeavesHiLo(p, pc, Special2(s, t, rd, shift, 5), regs, mem, acc - a * b)
  {
    hide LeavesHiLo, Special2, Op, Rs, Rt, Rd, Fxn;
    Special2Fields(s, t, rd, shift, 0);
    Special2Fields(s, t, rd, shift, 1);
    Special2Fields(s, t, rd, shift, 4);
    Special2Fields(s, t, rd, shift, 5);
    LeavesExact(p, pc, Special2(s, t, rd, shift, 0), regs, mem, Madd(regs[s], regs[t]));
    LeavesExact(p, pc, Special2(s, t, rd, shift, 1), regs, mem, Maddu(regs[s], regs[t]));
    LeavesExact(p, pc, Special2(s, t, rd, shift, 4), regs, mem, Msub(regs[s], regs[t]));
    LeavesExact(p, pc, Special2(s, t, rd, shift, 5), regs, mem, Msubu(regs[s], regs[t]));
  }

  /** `madd $4, $5` and `msub $4, $5`. */
  lemma MaddAndMsub(p: Program, pc: Word, regs: Regs, mem: Memory)
    ensures var hi: int, lo: int := regs[33], regs[32];
            var acc := 0x1_0000_0000 * hi + lo;
            && LeavesHiLo(p, pc, 0x7085_0000, regs, mem, acc + Signed(regs[4]) * Signed(regs[5]))
            && LeavesHiLo(p, pc, 0x7085_0004, regs, mem, acc - Signed(regs[4]) * Signed(regs[5]))
  {
    AccumulateWords(p, pc, 4, 5, 0, 0, regs, mem);
  }

  /** One pass of the loop: an accumulator instruction does its exact work, others none. */
  lemma StepHiLo(p: Program, st: LoopState, acc: int)
    requires p.image.Placed() && KeepsHiLo(p) && PlainStep(WithHiLo(p), st).Some?
    requires !SetsHiLo(p.image.WordAt(st.mem, st.pc).value) && Accumulated(st) == acc % W64
    ensures Accumulated(PlainStep(WithHiLo(p), st).value) ==
            (match Decode(p.image.WordAt(st.mem, st.pc).value, st.regs)
             case None => acc
             case Some(instr) => Exact(acc, instr)) % W64
  {
    hide Joined, Exact, Accumulate;
    var i := p.image.WordAt(st.mem, st.pc).value;
    match Decode(i, st.regs) {
      case Some(instr) =>
        ExecutesData(p, st.pc, i, st.regs, st.mem);
        AccumulateIsExact(acc, st.regs[HI], st.regs[LO], instr);
      case None =>
    }
  }

  /**
   Over every run, HI:LO is the exact sum of the products, taken with the registers as they
   were when each instruction executed, modulo 2^64.
   */
  lemma {:induction false} RunIsExact(p: Program, st: LoopState, n: nat, acc: int)
    requires p.image.Placed() && KeepsHiLo(p) && OnlyAccumulates(WithHiLo(p), st, n)
    requires Accumulated(st) == acc % W64
    ensures var end := PlainRun(WithHiLo(p), st, n);
            end.Some? ==> Accumulated(end.value) == ExactRun(acc, Executed(WithHiLo(p), st, n)) % W64
    decreases n
  {
    hide PlainStep, Accumulated, Exact, KeepsHiLo, Decode, SetsHiLo;
    var q := WithHiLo(p);
    if n > 0 && PlainStep(q, st).Some? {
      NothingToExecute(q, st);
      StepHiLo(p, st, acc);
      var next := PlainStep(q, st).value;
      var rest := Executed(q, next, n - 1);
      match Decode(p.image.WordAt(st.mem, st.pc).value, st.regs) {
        case None =>
          assert Executed(q, st, n) == rest;
          RunIsExact(p, next, n - 1, acc);
        case Some(instr) =>
          assert Executed(q, st, n) == [instr] + rest;
          RunIsExact(p, next, n - 1, Exact(acc, instr));
          ExactFromFirst(acc, instr, rest);
      }
    }
  }

  /** The emulator with its cache, on a program that accumulates. */
  method EmulateSum(cpu: Cpu, n: nat, ghost p: Program) returns (trace: seq<Word>)
    requires cpu.Valid() && cpu.p == WithHiLo(p) && KeepsHiLo(p)
    requires OnlyAccumulates(cpu.p, cpu.State(), n)
    modifies cpu, cpu.cache, cpu.cache.tags, cpu.cache.rows
    ensures trace == PlainTrace(cpu.p, old(cpu.State()), n)
    ensures |trace| == n ==>
              Joined(cpu.regs[HI], cpu.regs[LO]) ==
              ExactRun(old(Accumulated(cpu.State())), Executed(cpu.p, old(cpu.State()), n)) % W64
  {
    RunIsExact(p, cpu.State(), n, Accumulated(cpu.State()));
    trace := cpu.Emulate(n);
  }
}

/**
 What the words of the MIPS32 encoding do in the emulator.  The words are built from their
 fields by addition, so that the laws say where each field stands and how it is read.
 */
module Encoding {
  import opened Arith
  import opened ICache
  import opened Emulator

  predicate Reg(r: int) { 0 <= r < 32 }

  /** A signed sixteen-bit number. */
  predicate Short(off: int) { -0x8000 <= off < 0x8000 }

  function Immediate(op: int, rs: int, rt: int, off: int): Word
    requires 0 <= op < 64 && Reg(rs) && Reg(rt) && Short(off)
  {
    op * 0x400_0000 + rs * 0x20_0000 + rt * 0x1_0000 + (if off < 0 then off + 0x1_0000 else off)
  }

  function Register(rs: int, rt: int, rd: int, shift: int, fxn: int): Word
    requires Reg(rs) && Reg(rt) && Reg(rd) && Reg(shift) && 0 <= fxn < 64
  {
    rs * 0x20_0000 + rt * 0x1_0000 + rd * 0x800 + shift * 0x40 + fxn
  }

  function Jump(op: int, target: int): Word
    requires 0 <= op < 64 && 0 <= target < 0x400_0000
  {
    op * 0x400_0000 + target
  }

  /** A word is read as the two's complement number that it was made from. */
  lemma SignedReadsBack(x: int)
    requires -0x8000_0000 <= x < 0x8000_0000
    ensures Signed(x % 0x1_0000_0000) == x
  {
  }

  // ----- Every field is read back

  /** The parts of n = a + m (b + k c), from the right. */
  lemma Parts(n: int, m: int, k: int, a: int, b: int, c: int)
    requires 0 <= a < m && 0 <= b < k && n == a + m * (b + k * c)
    ensures n % m == a && n / m == b + k * c && n / m % k == b
  {
    ModOfMultiplePlus(m, b + k * c, a);
    ModOfMultiplePlus(k, c, b);
  }

  lemma ImmediateFields(op: int, rs: int, rt: int, off: int)
    requires 0 <= op < 64 && Reg(rs) && Reg(rt) && Short(off)
    ensures var i := Immediate(op, rs, rt, off); Op(i) == op && Rs(i) == rs && Rt(i) == rt && SImm16(i) == off
  {
    var i, x := Immediate(op, rs, rt, off), if off < 0 then off + 0x1_0000 else off;
    Parts(i, 0x1_0000, 32, x, rt, rs + 32 * op);
    Parts(i, 0x20_0000, 32, x + 0x1_0000 * rt, rs, op);
    Parts(i, 0x400_0000, 64, x + 0x1_0000 * rt + 0x20_0000 * rs, op, 0);
  }

  lemma RegisterFields(rs: int, rt: int, rd: int, shift: int, fxn: int)
    requires Reg(rs) && Reg(rt) && Reg(rd) && Reg(shift) && 0 <= fxn < 64
    ensures var i := Register(rs, rt, rd, shift, fxn);
            Op(i) == 0 && Rs(i) == rs && Rt(i) == rt && Rd(i) == rd && Fxn(i) == fxn
  {
    var i := Register(rs, rt, rd, shift, fxn);
    var low := fxn + 0x40 * shift;
    Parts(i, 0x40, 32, fxn, shift, rd + 32 * (rt + 32 * rs));
    Parts(i, 0x800, 32, low, rd, rt + 32 * rs);
    Parts(i, 0x1_0000, 32, low + 0x800 * rd, rt, rs);
    Parts(i, 0x20_0000, 32, low + 0x800 * rd + 0x1_0000 * rt, rs, 0);
  }

  lemma JumpFields(op: int, target: int)
    requires 0 <= op < 64 && 0 <= target < 0x400_0000
    ensures Op(Jump(op, target)) == op && JTarget(Jump(op, target)) == target
  {
    ModOfMultiplePlus(0x400_0000, op, target);
  }

  // ----- What the words do

  /** The branch is taken: the slot comes first, then the instruction `off` words behind the slot. */
  function Taken(pc: Word, off: int, regs: Regs, mem: Memory): Option<Effect> {
    Some(Effect((pc + 4 + 4 * off) % 0x1_0000_0000, true, 0, regs, mem))
  }

  function NotTaken(pc: Word, regs: Regs, mem: Memory): Option<Effect> {
    Some(Effect((pc + 4) % 0x1_0000_0000, false, 0, regs, mem))
  }

  /** A likely branch that is not taken skips its slot. */
  function Nullified(pc: Word, regs: Regs, mem: Memory): Option<Effect> {
    Some(Effect((pc + 8) % 0x1_0000_0000, false, 1, regs, mem))
  }

  /** beq, bne, blez and bgtz. */
  lemma CompareBranches(p: Program, pc: Word, rs: int, rt: int, off: int, regs: Regs, mem: Memory)
    requires Reg(rs) && Reg(rt) && Short(off)
    ensures Execute(p, pc, Immediate(4, rs, rt, off), regs, mem) ==
            if regs[rs] == regs[rt] then Taken(pc, off, regs, mem) else NotTaken(pc, regs, mem)
    ensures Execute(p, pc, Immediate(5, rs, rt, off), regs, mem) ==
            if regs[rs] != regs[rt] then Taken(pc, off, regs, mem) else NotTaken(pc, regs, mem)
    ensures Execute(p, pc, Immediate(6, rs, rt, off), regs, mem) ==
            if Signed(regs[rs]) <= 0 then Taken(pc, off, regs, mem) else NotTaken(pc, regs, mem)
    ensures Execute(p, pc, Immediate(7, rs, rt, off), regs, mem) ==
            if 0 < Signed(regs[rs]) then Taken(pc, off, regs, mem) else NotTaken(pc, regs, mem)
  {
    ImmediateFields(4, rs, rt, off);
    ImmediateFields(5, rs, rt, off);
    ImmediateFields(6, rs, rt, off);
    ImmediateFields(7, rs, rt, off);
    hide Immediate, Op, Rs, Rt, SImm16;
  }

  /** beql, bnel, blezl and bgtzl. */
  lemma LikelyCompareBranches(p: Program, pc: Word, rs: int, rt: int, off: int, regs: Regs, mem: Memory)
    requires Reg(rs) && Reg(rt) && Short(off)
    ensures Execute(p, pc, Immediate(20, rs, rt, off), regs, mem) ==
            if regs[rs] == regs[rt] then Taken(pc, off, regs, mem) else Nullified(pc, regs, mem)
    ensures Execute(p, pc, Immediate(21, rs, rt, off), regs, mem) ==
            if regs[rs] != regs[rt] then Taken(pc, off, regs, mem) else Nullified(pc, regs, mem)
    ensures Execute(p, pc, Immediate(22, rs, rt, off), regs, mem) ==
            if Signed(regs[rs]) <= 0 then Taken(pc, off, regs, mem) else Nullified(pc, regs, mem)
    ensures Execute(p, pc, Immediate(23, rs, rt, off), regs, mem) ==
            if 0 < Signed(regs[rs]) then Taken(pc, off, regs, mem) else Nullified(pc, regs, mem)
  {
    ImmediateFields(20, rs, rt, off);
    ImmediateFields(21, rs, rt, off);
    ImmediateFields(22, rs, rt, off);
    ImmediateFields(23, rs, rt, off);
    hide Immediate, Op, Rs, Rt, SImm16;
  }

  /** bltz, bgez, bltzl and bgezl. */
  lemma SignBranches(p: Program, pc: Word, rs: int, off: int, regs: Regs, mem: Memory)
    requires Reg(rs) && Short(off)
    ensures Execute(p, pc, Immediate(1, rs, 0, off), regs, mem) ==
            if Signed(regs[rs]) < 0 then Taken(pc, off, regs, mem) else NotTaken(pc, regs, mem)
    ensures Execute(p, pc, Immediate(1, rs, 1, off), regs, mem) ==
            if 0 <= Signed(regs[rs]) then Taken(pc, off, regs, mem) else NotTaken(pc, regs, mem)
    ensures Execute(p, pc, Immediate(1, rs, 2, off), regs, mem) ==
            if Signed(regs[rs]) < 0 then Taken(pc, off, regs, mem) else Nullified(pc, regs, mem)
    ensures Execute(p, pc, Immediate(1, rs, 3, off), regs, mem) ==
            if 0 <= Signed(regs[rs]) then Taken(pc, off, regs, mem) else Nullified(pc, regs, mem)
  {
    ImmediateFields(1, rs, 0, off);
    ImmediateFields(1, rs, 1, off);
    ImmediateFields(1, rs, 2, off);
    ImmediateFields(1, rs, 3, off);
    hide Immediate, Op, Rs, Rt, SImm16;
  }

  /** bltzal, bgezal, bltzall and bgezall: register 31 gets the address behind the slot, and then the test is made. */
  lemma LinkingBranches(p: Program, pc: Word, rs: int, off: int, regs: Regs, mem: Memory)
    requires Reg(rs) && Short(off)
    ensures var linked := regs[31 := (pc + 8) % 0x1_0000_0000];
            && Execute(p, pc, Immediate(1, rs, 16, off), regs, mem) ==
               (if Signed(linked[rs]) < 0 then Taken(pc, off, linked, mem) else NotTaken(pc, linked, mem))
            && Execute(p, pc, Immediate(1, rs, 17, off), regs, mem) ==
               (if 0 <= Signed(linked[rs]) then Taken(pc, off, linked, mem) else NotTaken(pc, linked, mem))
            && Execute(p, pc, Immediate(1, rs, 18, off), regs, mem) ==
               (if Signed(linked[rs]) < 0 then Taken(pc, off, linked, mem) else Nullified(pc, linked, mem))
            && Execute(p, pc, Immediate(1, rs, 19, off), regs, mem) ==
               (if 0 <= Signed(linked[rs]) then Taken(pc, off, linked, mem) else Nullified(pc, linked, mem))
  {
    ImmediateFields(1, rs, 16, off);
    ImmediateFields(1, rs, 17, off);
    ImmediateFields(1, rs, 18, off);
    ImmediateFields(1, rs, 19, off);
    hide Immediate, Op, Rs, Rt, SImm16;
  }

  /** j and jal: four times the target, in the 256 MB around the jump. */
  lemma Jumps(p: Program, pc: Word, target: int, regs: Regs, mem: Memory)
    requires 0 <= target < 0x400_0000
    ensures var to := pc - pc % 0x1000_0000 + 4 * target;
            && Execute(p, pc, Jump(2, target), regs, mem) == Some(Effect(to, true, 0, regs, mem))
            && Execute(p, pc, Jump(3, target), regs, mem) ==
               Some(Effect(to, true, 0, regs[31 := (pc + 8) % 0x1_0000_0000], mem))
  {
    JumpFields(2, target);
    JumpFields(3, target);
    hide Jump, Op, JTarget;
  }

  /** jr and jalr. */
  lemma RegisterJumps(p: Program, pc: Word, rs: int, rt: int, rd: int, shift: int, regs: Regs, mem: Memory)
    requires Reg(rs) && Reg(rt) && Reg(rd) && Reg(shift)
    ensures Execute(p, pc, Register(rs, rt, rd, shift, 8), regs, mem) == Some(Effect(regs[rs], true, 0, regs, mem))
    ensures var linked := regs[rd := (pc + 8) % 0x1_0000_0000];
            Execute(p, pc, Register(rs, rt, rd, shift, 9), regs, mem) == Some(Effect(linked[rs], true, 0, linked, mem))
  {
    RegisterFields(rs, rt, rd, shift, 8);
    RegisterFields(rs, rt, rd, shift, 9);
    hide Register, Op, Rs, Rt, Rd, Fxn;
  }

  /** syscall goes to the system, and after it two words may be skipped. */
  lemma SystemCalls(p: Program, pc: Word, rs: int, rt: int, rd: int, shift: int, regs: Regs, mem: Memory)
    requires Reg(rs) && Reg(rt) && Reg(rd) && Reg(shift)
    ensures var i := Register(rs, rt, rd, shift, 12); var r := p.sys(i, regs, mem);
            Execute(p, pc, i, regs, mem) == Some(Effect((pc + 4 + 4 * r.2) % 0x1_0000_0000, false, r.2, r.0, r.1))
  {
    hide Register, Op, Rs, Rt, Rd, Fxn, RegImm, Branch, Data;
    RegisterFields(rs, rt, rd, shift, 12);
    var i := Register(rs, rt, rd, shift, 12);
    assert Execute(p, pc, i, regs, mem) == Special(p, pc, i, regs, mem);
  }

  /** The PC goes on to the next word, and the rest is for the data instruction to say. */
  ghost predicate IsData(p: Program, pc: Word, i: Word, regs: Regs, mem: Memory) {
    Execute(p, pc, i, regs, mem) ==
    match p.data(i, regs, mem)
    case None => None
    case Some((r, m)) => NotTaken(pc, r, m)
  }

  /** All other words are data instructions or stop the emulator. */
  lemma OtherWords(p: Program, pc: Word, op: int, rs: int, rt: int, rd: int, shift: int, fxn: int, off: int,
      regs: Regs, mem: Memory)
    requires 0 <= op < 64 && Reg(rs) && Reg(rt) && Reg(rd) && Reg(shift) && 0 <= fxn < 64 && Short(off)
    ensures 8 <= op < 20 || 24 <= op ==> IsData(p, pc, Immediate(op, rs, rt, off), regs, mem)
    ensures 4 <= rt < 16 || 20 <= rt ==> IsData(p, pc, Immediate(1, rs, rt, off), regs, mem)
    ensures fxn != 8 && fxn != 9 && fxn != 12 ==> IsData(p, pc, Register(rs, rt, rd, shift, fxn), regs, mem)
  {
    ImmediateFields(op, rs, rt, off);
    ImmediateFields(1, rs, rt, off);
    RegisterFields(rs, rt, rd, shift, fxn);
    hide Immediate, Register, Op, Rs, Rt, Rd, Fxn, SImm16;
  }

  // ----- The words that are executed

  /** Word k of the file is at address textBegin + 4 k, as far as the segment and the file go. */
  lemma FileWord(image: Image, mem: Memory, k: nat)
    requires image.Placed() && image.textBegin + 4 * k < image.textEnd && 8 * (k / 8 + 1) <= |image.exe|
    ensures image.WordAt(mem, image.textBegin + 4 * k) == Some(image.exe[k])
  {
    var addr, b := image.textBegin + 4 * k, image.textBegin / 32;
    assert image.textBegin == 32 * b && k == 8 * (k / 8) + k % 8;
    AddressForm(addr, b + k / 8, k % 8, 0);
    assert (addr / 32 * 32 - image.textBegin) / 4 == 8 * (k / 8);
  }

  /** Outside the segment, memory is executed; what was never written is 0. */
  lemma MemoryWord(image: Image, mem: Memory, addr: Word)
    requires image.Placed() && !(image.textBegin <= addr < image.textEnd)
    ensures image.WordAt(mem, addr) == Some(if addr in mem then mem[addr] else 0)
  {
  }

  /** After every instruction register 0 is 0, and the others are what the instruction left. */
  lemma RegisterZero(p: Program, st: LoopState)
    requires p.image.Placed() && PlainStep(p, st).Some?
    ensures p.image.WordAt(st.mem, st.pc).Some?
    ensures var i, next := p.image.WordAt(st.mem, st.pc).value, PlainStep(p, st).value;
            var e := Execute(p, st.pc, i, st.regs, st.mem);
            e.Some? && next.regs[0] == 0 && next.regs[1..] == e.value.regs[1..] && next.mem == e.value.mem
  {
    hide Execute;
  }

  // ----- Two passes: a branch and its slot

  /** A taken branch, then a data instruction in its slot: the PC is at the branch target, backwards or forwards. */
  lemma BranchAndSlot(p: Program, st: LoopState, rs: int, rt: int, off: int, slot: Word)
    requires p.image.Placed() && !st.slot && Reg(rs) && Reg(rt) && Short(off) && st.regs[rs] == st.regs[rt]
    requires p.image.WordAt(st.mem, st.pc) == Some(Immediate(4, rs, rt, off))
    requires p.image.WordAt(st.mem, Plus(st.pc, 4)) == Some(slot)
    requires IsData(p, Plus(st.pc, 4), slot, st.regs[0 := 0], st.mem) && p.data(slot, st.regs[0 := 0], st.mem).Some?
    ensures PlainRun(p, st, 2).Some?
    ensures PlainRun(p, st, 2).value.pc == (st.pc + 4 + 4 * off) % 0x1_0000_0000 && !PlainRun(p, st, 2).value.slot
  {
    CompareBranches(p, st.pc, rs, rt, off, st.regs, st.mem);
    hide Immediate, Execute;
    var mid := PlainStep(p, st).value;
    assert mid.pc == Plus(st.pc, 4) && mid.regs == st.regs[0 := 0] && mid.mem == st.mem;
    assert PlainRun(p, st, 2) == PlainRun(p, mid, 1);
    assert PlainRun(p, mid, 1) == PlainStep(p, mid);
  }

  /** `beq $0, $0, -1` at 0x1000 comes back to itself. */
  lemma BranchToSelf(p: Program, regs: Regs)
    requires p.image.textBegin == p.image.textEnd == 0
    ensures p.image.Placed()
    ensures var st := LoopState(0x1000, false, 0, regs, map[0x1000 := 0x1000_FFFF]);
            PlainStep(p, st).Some? && PlainStep(p, st).value.slot && PlainStep(p, st).value.postDelaySlotPc == 0x1000
  {
    CompareBranches(p, 0x1000, 0, 0, -1, regs, map[0x1000 := 0x1000_FFFF]);
  }
}

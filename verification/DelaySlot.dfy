/**
 The architecture's view of a control transfer, as MIPS32 Architecture For Programmers
 Volume I describes it: two program counters, the instruction after a branch executed before
 the branch takes effect, and likely branches that nullify it when not taken.  The loop with
 its delay-slot flag is compared with this machine.
 */
module DelaySlot {
  import opened ICache
  import opened Emulator

  /** The instruction at `pc` executes next and the one at `npc` after it. */
  datatype Machine = Machine(pc: Word, npc: Word, inSlot: bool, regs: Regs, mem: Memory)

  // ----- The instruction tables

  predicate IsRegisterJump(i: Word) { Op(i) == 0 && Fxn(i) in {8, 9} }
  predicate IsJump(i: Word) { Op(i) in {2, 3} }
  predicate IsSignBranch(i: Word) { Op(i) == 1 && Rt(i) in {0, 1, 2, 3, 16, 17, 18, 19} }
  predicate IsCompareBranch(i: Word) { Op(i) in {4, 5, 6, 7, 20, 21, 22, 23} }
  predicate IsTransfer(i: Word) { IsRegisterJump(i) || IsJump(i) || IsSignBranch(i) || IsCompareBranch(i) }
  predicate IsSyscall(i: Word) { Op(i) == 0 && Fxn(i) == 12 }

  predicate IsLikely(i: Word) {
    (IsSignBranch(i) && Rt(i) in {2, 3, 18, 19}) || (IsCompareBranch(i) && 20 <= Op(i))
  }

  function LinkRegister(i: Word): (r: Option<int>)
    ensures r.Some? ==> 0 <= r.value < 32
  {
    if Op(i) == 0 && Fxn(i) == 9 then Some(Rd(i))
    else if Op(i) == 3 || (IsSignBranch(i) && 16 <= Rt(i)) then Some(RA)
    else None
  }

  predicate Condition(i: Word, regs: Regs) {
    var s, t := regs[Rs(i)], regs[Rt(i)];
    if IsSignBranch(i) then (if Rt(i) % 2 == 0 then Signed(s) < 0 else 0 <= Signed(s))
    else if IsCompareBranch(i) then
      match Op(i) % 4
      case 0 => s == t
      case 1 => s != t
      case 2 => Signed(s) <= 0
      case _ => 0 < Signed(s)
    else true
  }

  /** A jump stays in the region of its delay slot. */
  function Target(pc: Word, i: Word, regs: Regs): Word {
    if IsRegisterJump(i) then regs[Rs(i)]
    else if IsJump(i) then InRegion(Plus(pc, 4), i)
    else Plus(Plus(pc, 4), SImm16(i) * 4)
  }

  // ----- The two-counter machine

  function Clear0(regs: Regs): Regs { regs[0 := 0] }

  function Sequential(m: Machine, regs: Regs, mem: Memory): Machine {
    Machine(m.npc, Plus(m.npc, 4), false, Clear0(regs), mem)
  }

  /** The next `k` instructions after this one are not executed. */
  function Skipping(m: Machine, k: nat, regs: Regs, mem: Memory): Machine {
    Machine(Plus(m.npc, 4 * k), Plus(Plus(m.npc, 4 * k), 4), false, Clear0(regs), mem)
  }

  function Linked(pc: Word, i: Word, regs: Regs): Regs {
    match LinkRegister(i)
    case None => regs
    case Some(r) => regs[r := Plus(pc, 8)]
  }

  function TransferStep(m: Machine, i: Word): Machine
    requires IsTransfer(i)
  {
    var linked := Linked(m.pc, i, m.regs);
    if Condition(i, m.regs) then Machine(m.npc, Target(m.pc, i, m.regs), true, Clear0(linked), m.mem)
    else if IsLikely(i) then Skipping(m, 1, linked, m.mem)
    else Sequential(m, linked, m.mem)
  }

  function ArchExecute(p: Program, m: Machine, i: Word): Option<Machine> {
    if IsTransfer(i) then Some(TransferStep(m, i))
    else if IsSyscall(i) then
      var (r, mem, skip) := p.sys(i, m.regs, m.mem);
      Some(Skipping(m, skip, r, mem))
    else match p.data(i, m.regs, m.mem)
      case None => None
      case Some((r, mem)) => Some(Sequential(m, r, mem))
  }

  function ArchStep(p: Program, m: Machine): Option<Machine>
    requires p.image.Placed()
  {
    match p.image.WordAt(m.mem, m.pc)
    case None => None
    case Some(i) => ArchExecute(p, m, i)
  }

  function ArchTrace(p: Program, m: Machine, n: nat): seq<Word>
    requires p.image.Placed()
    decreases n
  {
    if n == 0 then []
    else match ArchStep(p, m)
      case None => []
      case Some(next) => [m.pc] + ArchTrace(p, next, n - 1)
  }

  function ArchRun(p: Program, m: Machine, n: nat): Option<Machine>
    requires p.image.Placed()
    decreases n
  {
    if n == 0 then Some(m)
    else match ArchStep(p, m)
      case None => None
      case Some(next) => ArchRun(p, next, n - 1)
  }

  // ----- When the loop agrees with it

  /** The two counters that a loop state stands for. */
  function Arch(st: LoopState): Machine {
    Machine(st.pc, if st.slot then st.postDelaySlotPc else Plus(st.pc, 4), st.slot, st.regs, st.mem)
  }

  /** The source register of a linking transfer is its link register: UNPREDICTABLE. */
  predicate LinkHazard(i: Word) {
    IsTransfer(i) && !IsJump(i) && LinkRegister(i) == Some(Rs(i))
  }

  /** Writing the link register first changes neither the condition nor the target. */
  predicate OperandsKept(pc: Word, i: Word, regs: Regs) {
    Condition(i, Linked(pc, i, regs)) == Condition(i, regs) &&
    (IsRegisterJump(i) ==> Linked(pc, i, regs)[Rs(i)] == regs[Rs(i)])
  }

  lemma NoHazardKeepsOperands(pc: Word, i: Word, regs: Regs)
    ensures IsTransfer(i) && !LinkHazard(i) ==> OperandsKept(pc, i, regs)
  {
  }

  /** The jump sits on the last word of its region, so its slot lies in the next one. */
  predicate RegionHazard(pc: Word, i: Word) {
    IsJump(i) && Region(pc) != Region(Plus(pc, 4))
  }

  /** What the instruction at `m.pc` must satisfy for the flag to do what the machine does. */
  predicate Agreeable(p: Program, m: Machine, i: Word) {
    if IsTransfer(i) && !OperandsKept(m.pc, i, m.regs) then false
    else if IsTransfer(i) && Condition(i, m.regs) then
      !RegionHazard(m.pc, i) && (m.inSlot ==> m.npc == Plus(m.pc, 4))
    else if IsTransfer(i) && IsLikely(i) then !m.inSlot
    else if !IsTransfer(i) && IsSyscall(i) then m.inSlot ==> p.sys(i, m.regs, m.mem).2 == 0
    else true
  }

  lemma SkipMovesOn(a: Word, k: int)
    requires k == 1 || k == 2
    ensures Plus(a, 4 * k) != a
  {
  }

  lemma RegionsDiffer(pc: Word, i: Word)
    requires Region(pc) != Region(Plus(pc, 4))
    ensures InRegion(pc, i) != InRegion(Plus(pc, 4), i)
  {
  }

  /**
   What the tables say about a transfer, with the emulator's own jump target and the link
   register written before anything is read.
   */
  function TableEffect(pc: Word, i: Word, regs: Regs, mem: Memory): Effect
    requires IsTransfer(i)
  {
    var linked := Linked(pc, i, regs);
    if Condition(i, linked) then
      Effect(if IsJump(i) then InRegion(pc, i) else Target(pc, i, linked), true, 0, linked, mem)
    else if IsLikely(i) then Effect(Plus(pc, 8), false, 1, linked, mem)
    else Effect(Plus(pc, 4), false, 0, linked, mem)
  }

  /** The cases of the switch follow the tables. */
  lemma SwitchFollowsTables(p: Program, pc: Word, i: Word, regs: Regs, mem: Memory)
    requires IsTransfer(i)
    ensures Execute(p, pc, i, regs, mem) == Some(TableEffect(pc, i, regs, mem))
  {
    PlusPlus(pc, 4, SImm16(i) * 4);
  }

  /** One pass of the loop and one step of the machine lead to the same state if and only if
      the instruction is agreeable. */
  lemma StepAgreesIff(p: Program, st: LoopState)
    requires p.image.Placed()
    ensures PlainStep(p, st).Some? <==> ArchStep(p, Arch(st)).Some?
    ensures PlainStep(p, st).Some? ==>
              (Arch(PlainStep(p, st).value) == ArchStep(p, Arch(st)).value
               <==> Agreeable(p, Arch(st), p.image.WordAt(st.mem, st.pc).value))
  {
    var w := p.image.WordAt(st.mem, st.pc);
    if w.Some? {
      if IsTransfer(w.value) {
        TransferAgreesIff(p, st, w.value);
      } else {
        OtherAgreesIff(p, st, w.value);
      }
    }
  }

  lemma TransferAgreesIff(p: Program, st: LoopState, i: Word)
    requires IsTransfer(i)
    ensures Arch(Commit(st, TableEffect(st.pc, i, st.regs, st.mem))) == TransferStep(Arch(st), i)
            <==> Agreeable(p, Arch(st), i)
    ensures Execute(p, st.pc, i, st.regs, st.mem) == Some(TableEffect(st.pc, i, st.regs, st.mem))
  {
    SwitchFollowsTables(p, st.pc, i, st.regs, st.mem);
    if Region(st.pc) != Region(Plus(st.pc, 4)) {
      RegionsDiffer(st.pc, i);
    }
    SkipMovesOn(st.postDelaySlotPc, 1);
    PlusPlus(st.pc, 4, 4);
  }

  lemma OtherAgreesIff(p: Program, st: LoopState, i: Word)
    requires !IsTransfer(i)
    ensures Execute(p, st.pc, i, st.regs, st.mem).Some? <==> ArchExecute(p, Arch(st), i).Some?
    ensures Execute(p, st.pc, i, st.regs, st.mem).Some? ==>
              (Arch(Commit(st, Execute(p, st.pc, i, st.regs, st.mem).value)) == ArchExecute(p, Arch(st), i).value
               <==> Agreeable(p, Arch(st), i))
  {
    if IsSyscall(i) {
      var skip: int := p.sys(i, st.regs, st.mem).2;
      PlusPlus(st.pc, 4, skip * 4);
      SkipMovesOn(st.postDelaySlotPc, 2);
    }
  }

  /** Every instruction executed in the first n steps is agreeable. */
  ghost predicate AgreeableRun(p: Program, m: Machine, n: nat)
    requires p.image.Placed()
    decreases n
  {
    n == 0 ||
    match p.image.WordAt(m.mem, m.pc)
    case None => true
    case Some(i) =>
      Agreeable(p, m, i) &&
      match ArchStep(p, m)
      case None => true
      case Some(next) => AgreeableRun(p, next, n - 1)
  }

  /** Over whole runs the loop executes the machine's instructions and ends in its state. */
  lemma {:induction false} RunsAgree(p: Program, st: LoopState, n: nat)
    requires p.image.Placed() && AgreeableRun(p, Arch(st), n)
    ensures PlainTrace(p, st, n) == ArchTrace(p, Arch(st), n)
    ensures match PlainRun(p, st, n)
            case None => ArchRun(p, Arch(st), n) == None
            case Some(end) => ArchRun(p, Arch(st), n) == Some(Arch(end))
    decreases n
  {
    hide Agreeable, LinkHazard, PlainStep, ArchStep;
    if n > 0 {
      StepAgreesIff(p, st);
      NothingToExecute(p, st);
      if PlainStep(p, st).Some? {
        RunsAgree(p, PlainStep(p, st).value, n - 1);
      }
    }
  }

  /** A run in which delay slots hold no transfer and no syscall, and no jump ends a region. */
  ghost predicate DisciplinedRun(p: Program, m: Machine, n: nat)
    requires p.image.Placed()
    decreases n
  {
    n == 0 ||
    match p.image.WordAt(m.mem, m.pc)
    case None => true
    case Some(i) =>
      !LinkHazard(i) && !RegionHazard(m.pc, i) && (m.inSlot ==> !IsTransfer(i) && !IsSyscall(i)) &&
      match ArchStep(p, m)
      case None => true
      case Some(next) => DisciplinedRun(p, next, n - 1)
  }

  lemma {:induction false} DisciplinedIsAgreeable(p: Program, m: Machine, n: nat)
    requires p.image.Placed() && DisciplinedRun(p, m, n)
    ensures AgreeableRun(p, m, n)
    decreases n
  {
    if n > 0 {
      var w := p.image.WordAt(m.mem, m.pc);
      if w.Some? {
        NoHazardKeepsOperands(m.pc, w.value, m.regs);
      }
      if ArchStep(p, m).Some? {
        DisciplinedIsAgreeable(p, ArchStep(p, m).value, n - 1);
      }
    }
  }

  // ----- A condition on the program text

  predicate FitsSlot(i: Word) { !IsTransfer(i) && !IsSyscall(i) }

  /** The text word at `a` has no hazard and, if it is a transfer, the next one fits its slot. */
  predicate DisciplinedAt(image: Image, a: Word)
    requires image.Placed() && image.LineInFile(a)
  {
    var i, b := image.TextWord(a), Plus(a, 4);
    !LinkHazard(i) && !RegionHazard(a, i) &&
    (IsTransfer(i) && image.InText(b) && image.LineInFile(b) ==> FitsSlot(image.TextWord(b)))
  }

  ghost predicate DisciplinedText(image: Image)
    requires image.Placed()
  {
    forall a: Word :: image.InText(a) && image.LineInFile(a) ==> DisciplinedAt(image, a)
  }

  /** The first n steps execute only words of the text. */
  ghost predicate StaysInText(p: Program, m: Machine, n: nat)
    requires p.image.Placed()
    decreases n
  {
    n == 0 ||
    (p.image.InText(m.pc) &&
     match ArchStep(p, m)
     case None => true
     case Some(next) => StaysInText(p, next, n - 1))
  }

  /** Outside a delay slot the counters are one word apart; a delay slot holds a fitting word. */
  predicate Settled(image: Image, m: Machine)
    requires image.Placed()
  {
    if m.inSlot then image.InText(m.pc) && image.LineInFile(m.pc) ==> FitsSlot(image.TextWord(m.pc))
    else m.npc == Plus(m.pc, 4)
  }

  lemma StepSettles(p: Program, m: Machine)
    requires p.image.Placed() && DisciplinedText(p.image)
    requires p.image.InText(m.pc) && Settled(p.image, m) && ArchStep(p, m).Some?
    ensures Settled(p.image, ArchStep(p, m).value)
  {
    hide LinkHazard, RegionHazard, IsRegisterJump, IsJump, IsSignBranch, IsCompareBranch;
    hide Condition, Target, IsLikely, Linked, IsSyscall;
    assert DisciplinedAt(p.image, m.pc);
  }

  /** A program text alone decides that every run inside it is disciplined. */
  lemma {:induction false} TextDisciplinesRuns(p: Program, m: Machine, n: nat)
    requires p.image.Placed() && DisciplinedText(p.image)
    requires Settled(p.image, m) && StaysInText(p, m, n)
    ensures DisciplinedRun(p, m, n)
    decreases n
  {
    hide LinkHazard, RegionHazard, IsTransfer, IsSyscall, ArchStep;
    if n > 0 {
      if p.image.LineInFile(m.pc) {
        assert DisciplinedAt(p.image, m.pc);
      }
      if ArchStep(p, m).Some? {
        StepSettles(p, m);
        TextDisciplinesRuns(p, ArchStep(p, m).value, n - 1);
      }
    }
  }

  /** On a disciplined text the loop is the architecture's machine. */
  lemma TextRunsAgree(p: Program, st: LoopState, n: nat)
    requires p.image.Placed() && DisciplinedText(p.image)
    requires !st.slot && StaysInText(p, Arch(st), n)
    ensures PlainTrace(p, st, n) == ArchTrace(p, Arch(st), n)
    ensures match PlainRun(p, st, n)
            case None => ArchRun(p, Arch(st), n) == None
            case Some(end) => ArchRun(p, Arch(st), n) == Some(Arch(end))
  {
    TextDisciplinesRuns(p, Arch(st), n);
    DisciplinedIsAgreeable(p, Arch(st), n);
    RunsAgree(p, st, n);
  }

  /** The emulator, cache and flag together, on the architecture's terms. */
  method EmulateArchitecture(cpu: Cpu, n: nat) returns (trace: seq<Word>)
    requires cpu.Valid() && AgreeableRun(cpu.p, Arch(cpu.State()), n)
    modifies cpu, cpu.cache, cpu.cache.tags, cpu.cache.rows
    ensures trace == ArchTrace(cpu.p, old(Arch(cpu.State())), n)
    ensures |trace| == n ==>
              cpu.Valid() && ArchRun(cpu.p, old(Arch(cpu.State())), n) == Some(Arch(cpu.State()))
  {
    RunsAgree(cpu.p, cpu.State(), n);
    trace := cpu.Emulate(n);
  }

  /** A jump on the last word of a region lands one region too low. */
  lemma JumpAtRegionEnd(p: Program, regs: Regs)
    requires p.image.textBegin == p.image.textEnd == 0
    ensures p.image.Placed()
    ensures var st := LoopState(0x0FFF_FFFC, false, 0, regs, map[0x0FFF_FFFC := 0x0800_0000]);
            && PlainStep(p, st).Some? && PlainStep(p, st).value.postDelaySlotPc == 0
            && ArchStep(p, Arch(st)).Some? && ArchStep(p, Arch(st)).value.npc == 0x1000_0000
  {
  }

  /** `jalr $5, $5` jumps to its own return address. */
  lemma JumpThroughLink(p: Program, regs: Regs)
    requires p.image.textBegin == p.image.textEnd == 0
    ensures p.image.Placed()
    ensures var st := LoopState(0x1000, false, 0, regs, map[0x1000 := 0x00A0_2809]);
            && PlainStep(p, st).Some? && PlainStep(p, st).value.postDelaySlotPc == 0x1008
            && ArchStep(p, Arch(st)).Some? && ArchStep(p, Arch(st)).value.npc == regs[5]
  {
  }
}

/** The emulator's global state and what one turn of its loops does to it.

    Next is isa_exec_once, stated with the instruction decoder and semantics of the ISA where the ISA defines the
    word and with the interpreter's own behaviour where it does not; DiffStep is difftest_step; Run is cpu_exec. */
module NemuState {
  import opened Wrappers
  import opened Octets
  import opened RvSpec
  import RvArith

  datatype RunState = Stop | Running | End | Abort | Quit

  datatype Status = Status(state: RunState, haltPc: Word, haltRet: Word)

  /** What the emulator does not decide: the addresses its MMIO maps cover, and what the reference design does when
      it is told to execute one instruction. */
  datatype World = World(mmio: nat -> bool, refStep: State -> State)

  /** dead: an assertion or a panic has ended the process. */
  datatype Global = Global(cpu: State, nemu: Status, dead: bool, skipRef: bool, skipDut: nat, ref: State, count: nat)

  const PMEM_BASE: nat := 0x8000_0000
  const PMEM_SIZE: nat := 128 * 1024 * 1024

  predicate InPmem(addr: nat) {
    PMEM_BASE <= addr <= PMEM_BASE + PMEM_SIZE - 1
  }

  // ----- differential testing: the calls made while an instruction executes ---------------------------------

  function SkipRef(g: Global): Global {
    g.(skipRef := true, skipDut := 0)
  }

  function RefStep(world: World, ref: State): State {
    world.refStep(ref)
  }

  function RefSteps(world: World, ref: State, n: nat): State
    decreases n
  {
    if n == 0 then ref else RefSteps(world, RefStep(world, ref), n - 1)
  }

  function SkipDut(world: World, g: Global, nrRef: nat, nrDut: nat): Global {
    g.(skipDut := g.skipDut + nrDut, ref := RefSteps(world, g.ref, nrRef))
  }

  /** The bus side of an access: looking an address up in the MMIO maps asks to skip the reference, and an address
      in no map ends the process. */
  function Touch(world: World, g: Global, addr: nat): Global {
    if InPmem(addr) then g else if world.mmio(addr) then SkipRef(g) else g.(dead := true)
  }

  /** An access to physical memory asks nothing; one to a device asks to skip the reference, and ends the catching up; one
      to neither ends the process, whatever was asked before. */
  lemma {:induction false} TouchReaches(world: World, g: Global, addr: nat)
    ensures 0x8000_0000 <= addr < 0x8000_0000 + 128 * 1024 * 1024 ==> Touch(world, g, addr) == g
    ensures !(0x8000_0000 <= addr < 0x8000_0000 + 128 * 1024 * 1024) ==>
              var t := Touch(world, g, addr);
              if world.mmio(addr) then t == g.(skipRef := true, skipDut := 0) else t.dead && t == g.(dead := true)
  {
  }

  // ----- one instruction ---------------------------------------------------------------------------------------

  /** The ISA's step, but for mulhsu. */
  function ExecAsBuilt(st: State, i: Instr): State
    requires InstrOk(i)
  {
    if i.Op? && i.op.MULHSU? then
      State(WriteReg(st.gpr, i.rd, RvArith.MulhsuAsBuilt(st.gpr[i.rs1], st.gpr[i.rs2])), U32(st.pc + 4), st.mem)
    else Exec(st, i)
  }

  function Step(world: World, g: Global, i: Instr): Global
    requires InstrOk(i)
  {
    var g1 :=
      match i
      case Jalr(_, _, _) => SkipDut(world, g, 1, 2)
      case Load(_, _, _, rs1, imm) => Touch(world, g, U32(g.cpu.gpr[rs1] + imm))
      case Store(_, rs1, _, imm) => Touch(world, g, U32(g.cpu.gpr[rs1] + imm))
      case _ => g;
    g1.(cpu := ExecAsBuilt(g.cpu, i))
  }

  function SetPc(g: Global, pc: Word): Global {
    g.(cpu := g.cpu.(pc := pc))
  }

  /** exec_inv fetches two words to print them, ends the run and leaves the pc after both. */
  function Invalid(world: World, g: Global): Global {
    var pc := g.cpu.pc;
    var g1 := Touch(world, Touch(world, g, pc), U32(pc + 4));
    SetPc(g1.(nemu := Status(Abort, pc, W - 1)), U32(pc + 8))
  }

  function Trap(g: Global): Global {
    SetPc(SkipRef(g).(nemu := Status(End, g.cpu.pc, g.cpu.gpr[10])), U32(g.cpu.pc + 4))
  }

  /** Words the ISA does not define.  The branch helper has no default case. */
  function Undefined(world: World, g: Global, w: Word): Global {
    if Opcode(w) == 0x63 then SetPc(g, U32(g.cpu.pc + 4))
    else if Opcode(w) == 0x67 || Opcode(w) == 0x33 || Opcode(w) == 0x13 then g.(dead := true)
    else Invalid(world, g)
  }

  function Perform(world: World, g: Global, w: Word): Global {
    if Opcode(w) == 0x6b then Trap(g)
    else if Decode(w).Some? then Step(world, g, Decode(w).value)
    else Undefined(world, g, w)
  }

  function Fetched(st: State): Word {
    LoadBytes(st.mem, st.pc, 4)
  }

  function Next(world: World, g: Global): Global {
    var g1 := Touch(world, g, g.cpu.pc);
    var w := Fetched(g.cpu);
    if g1.dead then g1 else if w % 4 != 3 then g1.(dead := true) else Perform(world, g1, w)
  }

  /** Nothing is said of the state of a process that has ended. */
  predicate Same(a: Global, b: Global) {
    a.dead == b.dead && (!a.dead ==> a == b)
  }

  // ----- difftest_step and cpu_exec --------------------------------------------------------------------------------

  /** The comparison is of the registers and the pc. */
  predicate RegsEqual(a: State, b: State) {
    a.gpr == b.gpr && a.pc == b.pc
  }

  function CheckRegs(g: Global, pc: Word): Global {
    if RegsEqual(g.ref, g.cpu) then g else g.(nemu := g.nemu.(state := Abort, haltPc := pc))
  }

  function CopyRegs(g: Global): Global {
    g.(ref := State(g.cpu.gpr, g.cpu.pc, g.ref.mem))
  }

  function DiffStep(world: World, g: Global, thisPc: Word, nextPc: Word): Global {
    if g.skipDut > 0 then
      if g.ref.pc == nextPc then CheckRegs(g, nextPc).(skipDut := 0)
      else if g.skipDut == 1 then g.(skipDut := 0, dead := true)
      else g.(skipDut := g.skipDut - 1)
    else if g.skipRef then CopyRegs(g).(skipRef := false)
    else CheckRegs(g.(ref := RefStep(world, g.ref)), thisPc)
  }

  function Cycle(world: World, g: Global): Global {
    var g1 := Next(world, g);
    if g1.dead then g1 else
      var g2 := DiffStep(world, g1, g.cpu.pc, g1.cpu.pc);
      if g2.dead then g2 else g2.(count := g2.count + 1)
  }

  function Loop(world: World, g: Global, n: nat): Global
    decreases n
  {
    if n == 0 then g else
      var g1 := Cycle(world, g);
      if g1.dead || !g1.nemu.state.Running? then g1 else Loop(world, g1, n - 1)
  }

  function SetState(g: Global, state: RunState): Global {
    g.(nemu := g.nemu.(state := state))
  }

  function Settle(g: Global): Global {
    if !g.dead && g.nemu.state.Running? then SetState(g, Stop) else g
  }

  function Run(world: World, g: Global, n: nat): Global {
    if g.dead || g.nemu.state.End? || g.nemu.state.Abort? then g
    else Settle(Loop(world, SetState(g, Running), n))
  }

  // ----- runs ---------------------------------------------------------------------------------------------------------

  lemma {:induction false} LoopSplit(world: World, g: Global, m: nat, n: nat)
    ensures var h := Loop(world, g, m);
      Loop(world, g, m + n) == if m > 0 && (h.dead || !h.nemu.state.Running?) then h else Loop(world, h, n)
    decreases m
  {
    hide Cycle;
    if m > 0 {
      var g1 := Cycle(world, g);
      if !g1.dead && g1.nemu.state.Running? {
        LoopSplit(world, g1, m - 1, n);
      }
    }
  }

  predicate Runs(state: RunState) {
    state.Running? || state.End? || state.Abort?
  }

  lemma {:induction false} CycleStates(world: World, g: Global)
    requires g.nemu.state.Running?
    ensures Runs(Cycle(world, g).nemu.state)
  {
    hide Decode, ExecAsBuilt, RefSteps;
  }

  lemma {:induction false} LoopStates(world: World, g: Global, n: nat)
    requires g.nemu.state.Running?
    ensures Runs(Loop(world, g, n).nemu.state)
    decreases n
  {
    hide Cycle;
    if n > 0 {
      CycleStates(world, g);
      if Cycle(world, g).nemu.state.Running? {
        LoopStates(world, Cycle(world, g), n - 1);
      }
    }
  }

  /** Stopping and going on later is the same as going on. */
  lemma {:induction false} RunSplit(world: World, g: Global, m: nat, n: nat)
    ensures Run(world, g, m + n) == Run(world, Run(world, g, m), n)
  {
    if !g.dead && !g.nemu.state.End? && !g.nemu.state.Abort? {
      LoopSplit(world, SetState(g, Running), m, n);
      var h := Loop(world, SetState(g, Running), m);
      LoopStates(world, SetState(g, Running), m);
      if h.dead {
        Finished(world, g, m);
      } else if h.nemu.state.Running? {
        assert SetState(SetState(h, Stop), Running) == h;
      }
      hide Loop;
    }
  }

  lemma {:induction false} Finished(world: World, g: Global, m: nat)
    ensures m == 0 ==> Loop(world, SetState(g, Running), m).dead == g.dead
  {
  }

  // ----- what a run keeps ------------------------------------------------------------------------------------------------

  /** x0 reads as zero. */
  predicate ZeroOk(st: State) {
    st.gpr[0] == 0
  }

  lemma {:induction false} PerformKeeps(world: World, g: Global, w: Word)
    ensures !Perform(world, g, w).dead && ZeroOk(g.cpu) ==> ZeroOk(Perform(world, g, w).cpu)
    ensures !Perform(world, g, w).dead && g.cpu.pc % 2 == 0 ==> Perform(world, g, w).cpu.pc % 2 == 0
  {
    if Decode(w).Some? {
      StepKeeps(g.cpu, w);
    }
    EvenSum(g.cpu.pc, 4);
    EvenSum(g.cpu.pc, 8);
    hide Decode, Exec, U32, RefSteps, Touch, RvArith.MulhsuAsBuilt;
    assert Touch(world, g, g.cpu.pc).cpu == g.cpu by { TouchKeeps(world, g, g.cpu.pc); }
    var g1 := Touch(world, g, g.cpu.pc);
    TouchKeeps(world, g1, U32(g.cpu.pc + 4));
  }

  lemma {:induction false} TouchKeeps(world: World, g: Global, a: nat)
    ensures Touch(world, g, a).cpu == g.cpu && Touch(world, g, a).nemu == g.nemu && Touch(world, g, a).ref == g.ref
    ensures Touch(world, g, a).count == g.count
  {
  }

  /** Unless the process ends, x0 stays zero and an even pc stays even. */
  predicate Kept(g: Global, h: Global) {
    !h.dead ==> (ZeroOk(g.cpu) ==> ZeroOk(h.cpu)) && (g.cpu.pc % 2 == 0 ==> h.cpu.pc % 2 == 0)
  }

  lemma {:induction false} CycleKeeps(world: World, g: Global)
    ensures Kept(g, Cycle(world, g))
  {
    TouchKeeps(world, g, g.cpu.pc);
    PerformKeeps(world, Touch(world, g, g.cpu.pc), Fetched(g.cpu));
    hide Perform, Touch;
  }

  lemma {:induction false} KeptTransitive(g: Global, h: Global, k: Global)
    ensures !h.dead && Kept(g, h) && Kept(h, k) ==> Kept(g, k)
    ensures Kept(g, g)
  {
  }

  lemma {:induction false} LoopKeeps(world: World, g: Global, n: nat)
    ensures Kept(g, Loop(world, g, n))
    decreases n
  {
    hide Cycle, Kept;
    var g1 := Cycle(world, g);
    KeptTransitive(g, g1, Loop(world, g, n));
    if n > 0 {
      CycleKeeps(world, g);
      LoopKeeps(world, g1, n - 1);
    }
  }

  /** Every run that does not end the process keeps x0 zero and an even pc even. */
  lemma {:induction false} RunKeeps(world: World, g: Global, n: nat)
    ensures !Run(world, g, n).dead && g.cpu.gpr[0] == 0 ==> Run(world, g, n).cpu.gpr[0] == 0
    ensures !Run(world, g, n).dead && g.cpu.pc % 2 == 0 ==> Run(world, g, n).cpu.pc % 2 == 0
  {
    LoopKeeps(world, SetState(g, Running), n);
    hide Loop;
  }

  /** A word with the opcode of nemu_trap ends the run, with a0 as its result, and is not compared. */
  lemma {:induction false} TrapEnds(world: World, g: Global)
    requires !g.dead && 0x8000_0000 <= g.cpu.pc < 0x8800_0000 && Fetched(g.cpu) % 0x80 == 0x6b
    ensures var c := Cycle(world, g);
      && !c.dead && c.nemu == Status(End, g.cpu.pc, g.cpu.gpr[10]) && c.count == g.count + 1
      && c.cpu == State(g.cpu.gpr, (g.cpu.pc + 4) % 0x1_0000_0000, g.cpu.mem)
      && c.ref == State(c.cpu.gpr, c.cpu.pc, g.ref.mem) && !c.skipRef && c.skipDut == 0
  {
    assert Fetched(g.cpu) % 4 == 3;
    hide Decode;
  }

  lemma {:induction false} CycleCounts(world: World, g: Global)
    requires g.nemu.state.Running?
    ensures var c := Cycle(world, g);
      !c.dead ==> c.count == g.count + 1 && (c.nemu.state.Running? || c.nemu.state.End? || c.nemu.state.Abort?)
  {
    hide Decode, ExecAsBuilt, RefSteps;
  }

  lemma {:induction false} LoopCounts(world: World, g: Global, n: nat)
    requires g.nemu.state.Running?
    ensures var h := Loop(world, g, n);
      !h.dead ==> if h.nemu.state.Running? then h.count == g.count + n
                  else g.count < h.count <= g.count + n && (h.nemu.state.End? || h.nemu.state.Abort?)
    decreases n
  {
    hide Cycle;
    if n > 0 {
      CycleCounts(world, g);
      var g1 := Cycle(world, g);
      if !g1.dead && g1.nemu.state.Running? {
        LoopCounts(world, g1, n - 1);
      }
    }
  }

  /** A run that is over already is not taken up.  Any other executes exactly n instructions and stops, unless one of
      them ends or aborts it. */
  lemma {:induction false} RunOutcome(world: World, g: Global, n: nat)
    requires !g.dead
    ensures g.nemu.state.End? || g.nemu.state.Abort? ==> Run(world, g, n) == g
    ensures !g.nemu.state.End? && !g.nemu.state.Abort? ==>
              var h := Run(world, g, n);
              !h.dead ==> if h.nemu.state.Stop? then h.count == g.count + n
                          else (h.nemu.state.End? || h.nemu.state.Abort?) && g.count < h.count <= g.count + n
  {
    LoopCounts(world, SetState(g, Running), n);
    hide Loop;
  }

  // ----- differential testing, for every reference ---------------------------------------------------------------------------

  /** With no skip pending the reference has the registers of the emulator. */
  predicate Checked(g: Global) {
    !g.dead && !g.nemu.state.Abort? && g.skipDut == 0 && !g.skipRef ==> RegsEqual(g.ref, g.cpu)
  }

  lemma {:induction false} CycleChecks(world: World, g: Global)
    ensures Checked(Cycle(world, g))
  {
    hide Next, RefSteps;
  }

  /** At every instruction boundary of every run, whatever the reference does. */
  lemma {:induction false} LoopChecks(world: World, g: Global, n: nat)
    requires n > 0 || Checked(g)
    ensures Checked(Loop(world, g, n))
    decreases n
  {
    hide Cycle, Checked;
    if n > 0 {
      CycleChecks(world, g);
      LoopChecks(world, Cycle(world, g), n - 1);
    }
  }

  lemma {:induction false} RunChecks(world: World, g: Global, n: nat)
    requires Checked(g)
    ensures Checked(Run(world, g, n))
  {
    if !g.nemu.state.Abort? {
      LoopChecks(world, SetState(g, Running), n);
    }
    hide Loop;
  }

  // ----- differential testing, against a reference that takes the same steps ----------------------------------------------------

  /** The reference's memory counts as far as an access that starts in physical memory can reach. */
  predicate Reach(a: nat) {
    PMEM_BASE <= a < PMEM_BASE + PMEM_SIZE + 3
  }

  ghost predicate MemoryAgrees(a: Memory, b: Memory) {
    forall x: nat :: Reach(x) ==> ByteAt(a, x) == ByteAt(b, x)
  }

  ghost predicate InSync(g: Global) {
    !g.dead && RegsEqual(g.ref, g.cpu) && g.skipDut == 0 && !g.skipRef && MemoryAgrees(g.ref.mem, g.cpu.mem)
  }

  /** The reference takes the emulator's step on every word that does not end the emulator's run. */
  ghost predicate SameSteps(world: World) {
    forall st: State :: StepsLike(st, RefStep(world, st))
  }

  predicate StepsLike(st: State, st': State) {
    var i := Decode(Fetched(st));
    && (i.Some? ==> st' == ExecAsBuilt(st, i.value))
    && (i.None? && Opcode(Fetched(st)) == 0x63 ==> st' == State(st.gpr, U32(st.pc + 4), st.mem))
  }

  /** No device is mapped where its accesses could reach physical memory. */
  ghost predicate Apart(world: World) {
    forall a: nat :: world.mmio(a) && !InPmem(a) ==> OutOfReach(a)
  }

  predicate OutOfReach(a: nat) {
    !Reach(a) && !Reach(a + 1) && !Reach(a + 2) && !Reach(a + 3)
  }

  /** A load from memory both sides agree on; a store to it, and a store to a device, which only one side sees. */
  lemma {:induction false} SameLoad(m: Memory, r: Memory, a: nat, len: nat)
    requires MemoryAgrees(m, r) && InPmem(a)
    ensures LoadBytes(m, a, len) == LoadBytes(r, a, len)
  {
    assert Reach(a) && Reach(a + 1) && Reach(a + 2) && Reach(a + 3);
  }

  lemma {:induction false} SameStore(m: Memory, r: Memory, a: nat, v: Word, len: nat)
    requires MemoryAgrees(m, r)
    ensures MemoryAgrees(StoreBytes(m, a, v, len), StoreBytes(r, a, v, len))
  {
  }

  lemma {:induction false} DeviceStore(m: Memory, r: Memory, a: nat, v: Word, len: nat)
    requires MemoryAgrees(m, r) && OutOfReach(a)
    ensures MemoryAgrees(m, StoreBytes(r, a, v, len))
  {
  }

  /** The address a load or store uses. */
  function Address(st: State, i: Instr): nat
    requires InstrOk(i)
  {
    if i.Load? || i.Store? then U32(st.gpr[i.rs1] + i.imm) else PMEM_BASE
  }

  lemma {:induction false} SameExec(a: State, b: State, i: Instr)
    requires InstrOk(i) && RegsEqual(a, b) && MemoryAgrees(a.mem, b.mem) && InPmem(Address(a, i))
    ensures RegsEqual(ExecAsBuilt(a, i), ExecAsBuilt(b, i))
    ensures MemoryAgrees(ExecAsBuilt(a, i).mem, ExecAsBuilt(b, i).mem)
  {
    hide Alu, MemoryAgrees, LoadBytes, StoreBytes, Extend, U32, Holds, RvArith.MulhsuAsBuilt, InPmem;
    match i
    case Load(len, _, _, _, _) => SameLoad(a.mem, b.mem, Address(a, i), len);
    case Store(len, _, rs2, _) => SameStore(a.mem, b.mem, Address(a, i), a.gpr[rs2], len);
    case _ =>
  }

  lemma {:induction false} DeviceExec(a: State, b: State, i: Instr)
    requires InstrOk(i) && MemoryAgrees(a.mem, b.mem)
    requires OutOfReach(Address(b, i))
    ensures MemoryAgrees(a.mem, ExecAsBuilt(b, i).mem)
  {
    hide Alu, MemoryAgrees, LoadBytes, StoreBytes, Extend, U32, Holds, RvArith.MulhsuAsBuilt, InPmem, OutOfReach;
    if i.Store? {
      var x := Address(b, i);
      DeviceStore(a.mem, b.mem, x, b.gpr[i.rs2], i.len);
    }
  }

  /** A turn of the run loop without differential testing: the two request flags have no reader. */
  function BareCycle(world: World, g: Global): Global {
    var g1 := Next(world, g);
    if g1.dead then g1 else g1.(ref := g.ref, skipRef := false, skipDut := 0, count := g1.count + 1)
  }

  /** What a user of the emulator sees. */
  predicate SameRun(a: Global, b: Global) {
    && a.dead == b.dead
    && (!a.dead ==> a.cpu == b.cpu && a.nemu == b.nemu && a.count == b.count)
  }

  lemma {:induction false} StepInSync(world: World, g: Global, i: Instr)
    requires InSync(g) && SameSteps(world) && Apart(world) && InPmem(g.cpu.pc)
    requires Decode(Fetched(g.cpu)) == Some(i)
    requires !Step(world, g, i).dead
    ensures var g1 := Step(world, g, i); var g2 := DiffStep(world, g1, g.cpu.pc, g1.cpu.pc);
      InSync(g2) && g2.cpu == g1.cpu && g2.nemu == g1.nemu && g2.count == g1.count
  {
    var g1 := Step(world, g, i);
    SameLoad(g.ref.mem, g.cpu.mem, g.cpu.pc, 4);
    var ref1 := RefStep(world, g.ref);
    assert Fetched(g.ref) == Fetched(g.cpu);
    assert StepsLike(g.ref, ref1);
    assert ref1 == ExecAsBuilt(g.ref, i);
    if InPmem(Address(g.cpu, i)) {
      SameExec(g.ref, g.cpu, i);
      assert RefSteps(world, g.ref, 1) == ref1;
      hide ExecAsBuilt, MemoryAgrees, RefStep, Decode;
    } else {
      assert world.mmio(Address(g.cpu, i));
      DeviceExec(g.ref, g.cpu, i);
      hide ExecAsBuilt, MemoryAgrees, RefStep, Decode, RefSteps;
    }
  }

  /** The cases that end the run or do nothing. */
  lemma {:induction false} TrapInSync(world: World, g: Global)
    requires InSync(g)
    ensures var g1 := Trap(g); var g2 := DiffStep(world, g1, g.cpu.pc, g1.cpu.pc);
      InSync(g2) && g2.cpu == g1.cpu && g2.nemu == g1.nemu && g2.count == g1.count
  {
    hide MemoryAgrees, RefStep;
  }

  lemma {:induction false} IdleBranchInSync(world: World, g: Global)
    requires InSync(g) && SameSteps(world) && InPmem(g.cpu.pc)
    requires Decode(Fetched(g.cpu)).None? && Opcode(Fetched(g.cpu)) == 0x63
    ensures var g1 := SetPc(g, U32(g.cpu.pc + 4)); var g2 := DiffStep(world, g1, g.cpu.pc, g1.cpu.pc);
      InSync(g2) && g2.cpu == g1.cpu && g2.nemu == g1.nemu && g2.count == g1.count
  {
    SameLoad(g.ref.mem, g.cpu.mem, g.cpu.pc, 4);
    assert StepsLike(g.ref, RefStep(world, g.ref));
    hide MemoryAgrees, RefStep, Decode;
  }

  lemma {:induction false} InvalidStays(world: World, g: Global)
    requires g.skipDut == 0 && !Invalid(world, g).dead
    ensures var g1 := Invalid(world, g); var g2 := DiffStep(world, g1, g.cpu.pc, g1.cpu.pc);
      !g2.dead && g2.nemu == g1.nemu && g2.cpu == g1.cpu && g2.count == g1.count && g1.nemu.state.Abort?
  {
    hide RefStep;
  }

  /** The store writes the bytes that are there already. */
  predicate StoresNothingNew(st: State, i: Instr)
    requires InstrOk(i) && i.Store?
  {
    LoadBytes(st.mem, Address(st, i), i.len) == st.gpr[i.rs2] % if i.len == 1 then 0x100 else if i.len == 2 then 0x1_0000 else W
  }

  /** What may be executed without the reference losing step: anything fetched from physical memory, and, of what is
      fetched from a device and so not seen by the reference, everything but jalr and stores that change physical
      memory. */
  predicate Followed(g: Global) {
    InPmem(g.cpu.pc) ||
    var i := Decode(Fetched(g.cpu));
    i.Some? ==> !i.value.Jalr? && (i.value.Store? && InPmem(Address(g.cpu, i.value)) ==> StoresNothingNew(g.cpu, i.value))
  }

  /** An instruction from a device: the registers are copied behind it. */
  lemma {:induction false} DeviceFetchInSync(world: World, g: Global)
    requires InSync(g) && Apart(world) && !InPmem(g.cpu.pc) && Followed(g)
    ensures SameRun(Cycle(world, g), BareCycle(world, g))
    ensures !Cycle(world, g).dead && !Cycle(world, g).nemu.state.Abort? ==> InSync(Cycle(world, g))
  {
    var w, g1 := Fetched(g.cpu), Touch(world, g, g.cpu.pc);
    if !g1.dead && w % 4 == 3 {
      assert g1 == SkipRef(g);
      PerformSkipping(world, g1, w);
      if Decode(w).Some? && !Perform(world, g1, w).dead {
        assert !Step(world, g1, Decode(w).value).dead;
        StoreAgrees(world, g, Decode(w).value, g1);
      }
      hide Decode, Perform, Fetched, RegsEqual, MemoryAgrees, Apart, ExecAsBuilt, Followed;
      CopiedInSync(Perform(world, g1, w), g);
    }
  }

  /** One turn with an instruction from a device: the run is the same and the two sides are in step behind it if and
      only if it is no jalr and no store that changes physical memory. */
  lemma {:induction false} DeviceTurnExactly(world: World, g: Global)
    requires InSync(g) && Apart(world) && !InPmem(g.cpu.pc)
    requires !Cycle(world, g).dead && !Cycle(world, g).nemu.state.Abort?
    ensures SameRun(Cycle(world, g), BareCycle(world, g)) && InSync(Cycle(world, g)) <==> Followed(g)
  {
    var w, g1 := Fetched(g.cpu), Touch(world, g, g.cpu.pc);
    if Followed(g) {
      DeviceFetchInSync(world, g);
    } else if Decode(w).value.Jalr? {
      DeviceJalrLeaves(world, g);
    } else {
      var i := Decode(w).value;
      assert g1 == SkipRef(g);
      PerformSkipping(world, g1, w);
      PerformSteps(world, g1, w);
      StoreAgrees(world, g, i, g1);
      hide Decode, Perform, Fetched, RegsEqual, Apart, ExecAsBuilt, Followed, StoresNothingNew, MemoryAgrees;
      CopiedMemory(Perform(world, g1, w));
    }
  }

  lemma {:induction false} PerformSteps(world: World, h: Global, w: Word)
    requires Decode(w).Some?
    ensures Perform(world, h, w) == Step(world, h, Decode(w).value)
  {
    TrapIsNone(w);
    hide Decode, Step;
  }

  lemma {:induction false} CopiedMemory(k: Global)
    requires k.skipRef && k.skipDut == 0
    ensures InSync(CopyRegs(k).(skipRef := false, count := k.count + 1)) ==> MemoryAgrees(k.ref.mem, k.cpu.mem)
  {
    hide MemoryAgrees;
  }

  /** What a jalr from a device leaves pending: the reference has taken a step of its own, the request to skip it is
      still there, and unless the step came out at the jump's target one more turn is allowed for catching up. */
  lemma {:induction false} DeviceJalrLeaves(world: World, g: Global)
    requires InSync(g) && !InPmem(g.cpu.pc) && world.mmio(g.cpu.pc)
    requires Decode(Fetched(g.cpu)).Some? && Decode(Fetched(g.cpu)).value.Jalr?
    ensures var c, ref1, cpu1 := Cycle(world, g), RefStep(world, g.ref), ExecAsBuilt(g.cpu, Decode(Fetched(g.cpu)).value);
      && !c.dead && c.skipRef && c.ref == ref1 && c.cpu == cpu1
      && c.skipDut == (if ref1.pc == cpu1.pc then 0 else 1)
      && c.nemu == if ref1.pc == cpu1.pc && !RegsEqual(ref1, cpu1) then Status(Abort, cpu1.pc, g.nemu.haltRet) else g.nemu
  {
    var w, g1 := Fetched(g.cpu), Touch(world, g, g.cpu.pc);
    assert g1 == SkipRef(g) && g.skipDut == 0;
    JalrOpcode(w);
    PerformSteps(world, g1, w);
    assert RefSteps(world, g1.ref, 1) == RefSteps(world, RefStep(world, g1.ref), 0) == RefStep(world, g.ref);
    hide Decode, ExecAsBuilt, RefStep, Fetched, MemoryAgrees, Perform;
  }

  lemma {:induction false} JalrOpcode(w: Word)
    requires Decode(w).Some? && Decode(w).value.Jalr?
    ensures w % 4 == 3
  {
    hide ImmI, ImmS, ImmB, ImmU, ImmJ, Rd, Rs1, Rs2, Funct3, Funct7;
    assert Opcode(w) == 0x67;
  }

  /** With a request to skip the reference pending, an instruction that is no jalr leaves it pending and the reference
      alone. */
  lemma {:induction false} PerformSkipping(world: World, h: Global, w: Word)
    requires h.skipRef && h.skipDut == 0 && (Decode(w).Some? ==> !Decode(w).value.Jalr?)
    ensures var k := Perform(world, h, w);
      && k.skipRef && k.skipDut == 0 && k.ref == h.ref && k.count == h.count
      && (!k.dead ==> k.cpu.mem == if Decode(w).Some? then ExecAsBuilt(h.cpu, Decode(w).value).mem else h.cpu.mem)
  {
    TrapIsNone(w);
    hide Decode, ExecAsBuilt, U32, InPmem;
  }

  lemma {:induction false} TrapIsNone(w: Word)
    ensures Opcode(w) == 0x6b ==> Decode(w).None?
  {
    hide ImmI, ImmS, ImmB, ImmU, ImmJ, Rd, Rs1, Rs2, Funct3, Funct7;
  }

  lemma {:induction false} CopiedInSync(k: Global, g: Global)
    requires !k.dead ==> k.skipRef && k.skipDut == 0 && k.ref == g.ref && MemoryAgrees(g.ref.mem, k.cpu.mem)
    ensures !k.dead ==> InSync(CopyRegs(k).(skipRef := false)) && InSync(CopyRegs(k).(skipRef := false, count := k.count + 1))
  {
    hide MemoryAgrees;
  }

  /** The reference's memory still agrees if and only if the instruction is no store that changes physical memory. */
  lemma {:induction false} StoreAgrees(world: World, g: Global, i: Instr, g1: Global)
    requires InSync(g) && Apart(world) && InstrOk(i) && g1.cpu == g.cpu && !Step(world, g1, i).dead
    ensures MemoryAgrees(g.ref.mem, ExecAsBuilt(g.cpu, i).mem)
      <==> (i.Store? && InPmem(Address(g.cpu, i)) ==> StoresNothingNew(g.cpu, i))
  {
    if i.Store? {
      var a := Address(g.cpu, i);
      if InPmem(a) {
        SameBytes(g.ref.mem, g.cpu.mem, a, g.cpu.gpr[i.rs2], i.len);
      } else {
        assert world.mmio(a);
        DeviceExec(g.ref, g.cpu, i);
      }
    }
  }

  lemma {:induction false} SameBytes(r: Memory, m: Memory, a: nat, v: Word, len: nat)
    requires MemoryAgrees(r, m) && InPmem(a) && (len == 1 || len == 2 || len == 4)
    ensures MemoryAgrees(r, StoreBytes(m, a, v, len))
      <==> LoadBytes(m, a, len) == v % if len == 1 then 0x100 else if len == 2 then 0x1_0000 else W
  {
    assert Reach(a) && Reach(a + 1) && Reach(a + 2) && Reach(a + 3);
    var n := StoreBytes(m, a, v, len);
    SplitWord(v, ByteAt(m, a), ByteAt(m, a + 1), ByteAt(m, a + 2), ByteAt(m, a + 3));
    assert ByteAt(n, a) == v % 0x100;
    assert len > 1 ==> ByteAt(n, a + 1) == v / 0x100 % 0x100;
    assert len > 2 ==> ByteAt(n, a + 2) == v / 0x1_0000 % 0x100 && ByteAt(n, a + 3) == v / 0x100_0000 % 0x100;
    assert forall x: nat :: !(a <= x < a + len) ==> ByteAt(n, x) == ByteAt(m, x);
    assert MemoryAgrees(r, n) ==> forall x: nat :: a <= x < a + len ==> ByteAt(n, x) == ByteAt(m, x);
    hide StoreBytes, Reach;
    if LoadBytes(m, a, len) == v % if len == 1 then 0x100 else if len == 2 then 0x1_0000 else W {
      forall x: nat | Reach(x) ensures ByteAt(r, x) == ByteAt(n, x) {
        assert ByteAt(r, x) == ByteAt(m, x);
        assert a <= x < a + len ==> x == a || x == a + 1 || x == a + 2 || x == a + 3;
      }
    }
  }

  lemma {:induction false} SplitWord(v: Word, b0: Byte, b1: Byte, b2: Byte, b3: Byte)
    ensures b0 + 0x100 * b1 == v % 0x1_0000 <==> b0 == v % 0x100 && b1 == v / 0x100 % 0x100
    ensures b0 + 0x100 * b1 + 0x1_0000 * b2 + 0x100_0000 * b3 == v % W
      <==> b0 == v % 0x100 && b1 == v / 0x100 % 0x100 && b2 == v / 0x1_0000 % 0x100 && b3 == v / 0x100_0000 % 0x100
  {
    var c0, c1, c2, c3 := v % 0x100, v / 0x100 % 0x100, v / 0x1_0000 % 0x100, v / 0x100_0000 % 0x100;
    WordBytes(v);
    assert v % 0x1_0000 == c0 + 0x100 * c1 && v % W == c0 + 0x100 * c1 + 0x1_0000 * c2 + 0x100_0000 * c3;
    BytesDiffer(b0, b1, c0, c1);
    BytesDiffer(b0, b1 + 0x100 * b2 + 0x1_0000 * b3, c0, c1 + 0x100 * c2 + 0x1_0000 * c3);
    BytesDiffer(b1, b2 + 0x100 * b3, c1, c2 + 0x100 * c3);
    BytesDiffer(b2, b3, c2, c3);
  }

  lemma {:induction false} BytesDiffer(b: Byte, x: nat, c: Byte, y: nat)
    ensures b + 0x100 * x == c + 0x100 * y <==> b == c && x == y
  {
  }

  /** One turn with differential testing against a reference that takes the same steps. */
  lemma {:induction false} CycleTransparent(world: World, g: Global)
    requires InSync(g) && SameSteps(world) && Apart(world) && Followed(g)
    ensures SameRun(Cycle(world, g), BareCycle(world, g))
    ensures !Cycle(world, g).dead && !Cycle(world, g).nemu.state.Abort? ==> InSync(Cycle(world, g))
  {
    if !InPmem(g.cpu.pc) {
      DeviceFetchInSync(world, g);
    } else {
      PmemFetchInSync(world, g);
    }
  }

  lemma {:induction false} PmemFetchInSync(world: World, g: Global)
    requires InSync(g) && SameSteps(world) && Apart(world) && InPmem(g.cpu.pc)
    ensures SameRun(Cycle(world, g), BareCycle(world, g))
    ensures !Cycle(world, g).dead && !Cycle(world, g).nemu.state.Abort? ==> InSync(Cycle(world, g))
  {
    hide InSync, Step, Trap, Invalid, DiffStep, InPmem, SameSteps, Apart;
    var w := Fetched(g.cpu);
    var g1 := Next(world, g);
    assert !g.dead && g.skipDut == 0 by { SyncParts(g); }
    assert Touch(world, g, g.cpu.pc) == g;
    if g1.dead {
    } else if Opcode(w) == 0x6b {
      TrapInSync(world, g);
    } else if Decode(w).Some? {
      StepInSync(world, g, Decode(w).value);
    } else if Opcode(w) == 0x63 {
      IdleBranchInSync(world, g);
    } else {
      InvalidStays(world, g);
    }
    SyncCount(DiffStep(world, g1, g.cpu.pc, g1.cpu.pc));
  }

  lemma {:induction false} SyncParts(g: Global)
    requires InSync(g)
    ensures !g.dead && g.skipDut == 0
  {
  }

  lemma {:induction false} SyncCount(g: Global)
    ensures InSync(g) ==> InSync(g.(count := g.count + 1)) && !g.dead
  {
  }

  function BareLoop(world: World, g: Global, n: nat): Global
    decreases n
  {
    if n == 0 then g else
      var g1 := BareCycle(world, g);
      if g1.dead || !g1.nemu.state.Running? then g1 else BareLoop(world, g1, n - 1)
  }

  /** The reference can follow every instruction of the run without differential testing, but for one that ends the
      process. */
  predicate FollowedRun(world: World, g: Global, n: nat)
    decreases n
  {
    n > 0 ==>
      var g1 := BareCycle(world, g);
      g1.dead || (Followed(g) && (!g1.nemu.state.Running? || FollowedRun(world, g1, n - 1)))
  }

  /** Every turn of the run is as it would be without differential testing and leaves the two sides in step, until one
      ends the run. */
  ghost predicate InStepRun(world: World, g: Global, n: nat)
    decreases n
  {
    n > 0 ==>
      var g1 := Cycle(world, g);
      && SameRun(g1, BareCycle(world, g))
      && (g1.dead || g1.nemu.state.Abort?
          || (InSync(g1) && (!g1.nemu.state.Running? || InStepRun(world, g1, n - 1))))
  }

  lemma {:induction false} TouchReads(world: World, a: Global, b: Global, addr: nat)
    requires SameRun(a, b)
    ensures SameRun(Touch(world, a, addr), Touch(world, b, addr))
    ensures Touch(world, a, addr).cpu == a.cpu && Touch(world, b, addr).cpu == b.cpu
  {
  }

  lemma {:induction false} PerformReads(world: World, a: Global, b: Global, w: Word)
    requires SameRun(a, b) && !a.dead
    ensures SameRun(Perform(world, a, w), Perform(world, b, w))
  {
    hide Touch, ExecAsBuilt, RefSteps, InPmem;
    if Decode(w).Some? {
      var i := Decode(w).value;
      hide Decode;
      if i.Load? || i.Store? {
        TouchReads(world, a, b, U32(a.cpu.gpr[i.rs1] + i.imm));
      }
    } else {
      hide Decode;
      TouchReads(world, a, b, a.cpu.pc);
      TouchReads(world, Touch(world, a, a.cpu.pc), Touch(world, b, a.cpu.pc), U32(a.cpu.pc + 4));
    }
  }

  /** A bare turn does not look at the reference or the two request counters. */
  lemma {:induction false} BareCycleReads(world: World, a: Global, b: Global)
    requires SameRun(a, b) && !a.dead
    ensures SameRun(BareCycle(world, a), BareCycle(world, b))
  {
    TouchReads(world, a, b, a.cpu.pc);
    var a1, b1 := Touch(world, a, a.cpu.pc), Touch(world, b, a.cpu.pc);
    if !a1.dead {
      PerformReads(world, a1, b1, Fetched(a.cpu));
    }
    hide Perform, Touch, Fetched;
  }

  lemma {:induction false} BareLoopReads(world: World, a: Global, b: Global, n: nat)
    requires SameRun(a, b) && !a.dead
    ensures SameRun(BareLoop(world, a, n), BareLoop(world, b, n))
    ensures FollowedRun(world, a, n) == FollowedRun(world, b, n)
    decreases n
  {
    hide BareCycle;
    if n > 0 {
      BareCycleReads(world, a, b);
      var a1, b1 := BareCycle(world, a), BareCycle(world, b);
      if !a1.dead && a1.nemu.state.Running? {
        BareLoopReads(world, a1, b1, n - 1);
      }
    }
  }

  /** Differential testing against a reference that takes the same steps changes nothing the user sees: it ends no
      run and no process that would not have ended without it. */
  lemma {:induction false} LoopTransparent(world: World, g: Global, n: nat)
    requires SameSteps(world) && Apart(world) && InSync(g) && FollowedRun(world, g, n)
    ensures SameRun(Loop(world, g, n), BareLoop(world, g, n))
    decreases n
  {
    hide SameSteps, Apart, InSync, Cycle, BareCycle, InPmem;
    if n > 0 {
      var g1, h1 := Cycle(world, g), BareCycle(world, g);
      DeadTurn(world, g);
      if !h1.dead {
        CycleTransparent(world, g);
        if !g1.dead && g1.nemu.state.Running? {
          BareLoopReads(world, g1, h1, n - 1);
          LoopTransparent(world, g1, n - 1);
        }
      }
    }
  }

  lemma {:induction false} DeadTurn(world: World, g: Global)
    ensures BareCycle(world, g).dead ==> Cycle(world, g).dead && SameRun(Cycle(world, g), BareCycle(world, g))
  {
    hide Next, DiffStep;
  }

  /** What the reference cannot follow neither ends the run nor leaves the two sides in step. */
  lemma {:induction false} LostTurn(world: World, g: Global)
    requires InSync(g) && Apart(world) && g.nemu.state.Running? && !Followed(g) && !BareCycle(world, g).dead
    requires SameRun(Cycle(world, g), BareCycle(world, g))
    ensures !Cycle(world, g).nemu.state.Abort? && !InSync(Cycle(world, g))
  {
    var w, g1 := Fetched(g.cpu), Touch(world, g, g.cpu.pc);
    assert BareCycle(world, g).nemu == g.nemu by {
      PerformSteps(world, g1, w);
      hide Decode, Perform, ExecAsBuilt, RefSteps;
    }
    hide *;
    DeviceTurnExactly(world, g);
  }

  /** From a start in step, the two sides stay in step through the whole run if and only if the reference can follow all
      that is executed. */
  lemma {:induction false} RunInStepExactly(world: World, g: Global, n: nat)
    requires SameSteps(world) && Apart(world) && InSync(g) && g.nemu.state.Running?
    ensures InStepRun(world, g, n) <==> FollowedRun(world, g, n)
    decreases n
  {
    hide SameSteps, Apart, InSync, Cycle, BareCycle, InPmem, Followed;
    if n > 0 {
      var g1, h1 := Cycle(world, g), BareCycle(world, g);
      DeadTurn(world, g);
      if !h1.dead && Followed(g) {
        CycleTransparent(world, g);
        if g1.nemu.state.Running? {
          BareLoopReads(world, g1, h1, n - 1);
          RunInStepExactly(world, g1, n - 1);
        }
      } else if !h1.dead && SameRun(g1, h1) {
        LostTurn(world, g);
      }
    }
  }

  // ----- how the two sides come to be in step ---------------------------------------------------------------------------------

  const IMAGE_START: nat := 0x10_0000

  function CopyBytes(to: Memory, from: Memory, a: nat, n: nat): Memory {
    if n == 0 then to else CopyBytes(to, from, a, n - 1)[a + n - 1 := ByteAt(from, a + n - 1)]
  }

  lemma {:induction false} CopyBytesAt(to: Memory, from: Memory, a: nat, n: nat, x: nat)
    ensures ByteAt(CopyBytes(to, from, a, n), x) == if a <= x < a + n then ByteAt(from, x) else ByteAt(to, x)
  {
    if n > 0 {
      CopyBytesAt(to, from, a, n - 1, x);
    }
  }

  /** init_difftest: the image is copied to the reference, and then the registers. */
  function InitDifftest(g: Global, imgSize: nat): Global {
    CopyRegs(g.(ref := g.ref.(mem := CopyBytes(g.ref.mem, g.cpu.mem, PMEM_BASE + IMAGE_START, imgSize))))
  }

  /** The two sides start in step if and only if their memories agree where no image is. */
  lemma {:induction false} InitInSync(g: Global, imgSize: nat)
    requires !g.dead && g.skipDut == 0 && !g.skipRef
    ensures var start := 0x8010_0000;
      InSync(InitDifftest(g, imgSize))
      <==> forall x: nat :: Reach(x) && !(start <= x < start + imgSize) ==> ByteAt(g.ref.mem, x) == ByteAt(g.cpu.mem, x)
  {
    var start := PMEM_BASE + IMAGE_START;
    forall x: nat
      ensures ByteAt(CopyBytes(g.ref.mem, g.cpu.mem, start, imgSize), x)
           == if start <= x < start + imgSize then ByteAt(g.cpu.mem, x) else ByteAt(g.ref.mem, x)
    {
      CopyBytesAt(g.ref.mem, g.cpu.mem, start, imgSize, x);
    }
  }

  // ----- a jalr and a store from a device ------------------------------------------------------------------------------------------------------

  /** A reference that takes the same steps, and stays where it is on a word it does not know. */
  function Follow(st: State): State {
    var i := Decode(Fetched(st));
    if i.Some? then ExecAsBuilt(st, i.value)
    else if Opcode(Fetched(st)) == 0x63 then State(st.gpr, U32(st.pc + 4), st.mem)
    else st
  }

  const DEVICE: Word := 0xa000_0000

  /** "jalr x1, 0(x1)" in a device that only the emulator has: the two sides are in step, the run without differential
      testing goes on, and with it is aborted. */
  lemma {:induction false} DeviceJalrAborts() returns (world: World, g: Global)
    ensures SameSteps(world) && Apart(world) && InSync(g) && g.nemu.state.Running?
    ensures !BareCycle(world, g).dead && BareCycle(world, g).nemu.state.Running?
    ensures Cycle(world, g).nemu.state.Abort?
  {
    var gpr: Regs := seq(32, i => if i == 1 then DEVICE else 0);
    var dut := State(gpr, DEVICE, map[DEVICE := 0xe7, DEVICE + 1 := 0x80]);
    var ref := State(gpr, DEVICE, map[]);
    world := World(a => a == DEVICE, Follow);
    g := Global(dut, Status(Running, 0, 0), false, false, 0, ref, 0);
    assert forall st: State :: RefStep(world, st) == Follow(st);
    JalrWord();
    assert Fetched(dut) == 0x80e7 && Fetched(ref) == 0;
    assert Touch(world, g, DEVICE) == SkipRef(g);
    assert RefSteps(world, ref, 1) == RefSteps(world, RefStep(world, ref), 0) == ref;
    hide Decode;
    var next := State(gpr[1 := DEVICE + 4], DEVICE, dut.mem);
    assert ExecAsBuilt(dut, Jalr(1, 1, 0)) == next;
    assert next.gpr[1] != ref.gpr[1];
  }

  lemma {:induction false} JalrWord()
    ensures Decode(0x80e7) == Some(Jalr(1, 1, 0)) && Opcode(0x80e7) == 0x67 && Decode(0).None? && Opcode(0) == 0
  {
  }

  const STORE_AT: Word := PMEM_BASE - 4

  const DATA: Word := PMEM_BASE + 0x100

  /** "sb x2, 0(x1)" in a device that ends where physical memory begins, and "lbu x3, 0(x1)" at its beginning: the turn
      with the store is as it would be without differential testing, but the reference never sees the byte, and the
      run is aborted when it is read back. */
  lemma {:induction false} DeviceStoreAborts() returns (world: World, g: Global)
    ensures SameSteps(world) && Apart(world) && InSync(g) && g.nemu.state.Running?
    ensures SameRun(Cycle(world, g), BareCycle(world, g))
    ensures !BareLoop(world, g, 2).dead && BareLoop(world, g, 2).nemu.state.Running?
    ensures Loop(world, g, 2).nemu.state.Abort?
  {
    var gpr: Regs := seq(32, i => if i == 1 then DATA else if i == 2 then 1 else 0);
    var dut := State(gpr, STORE_AT, map[STORE_AT := 0x23, STORE_AT + 1 := 0x80, STORE_AT + 2 := 0x20,
                                        PMEM_BASE := 0x83, PMEM_BASE + 1 := 0xc1]);
    var ref := State(gpr, STORE_AT, map[PMEM_BASE := 0x83, PMEM_BASE + 1 := 0xc1]);
    world := World(a => a == STORE_AT, Follow);
    g := Global(dut, Status(Running, 0, 0), false, false, 0, ref, 0);
    assert forall st: State :: RefStep(world, st) == Follow(st);
    StoreWord();
    assert Fetched(dut) == 0x20_8023;
    assert SameSteps(world) && Apart(world) && InSync(g);
    hide Decode, SameSteps, Apart, InSync, Follow;
    var stored := State(gpr, PMEM_BASE, StoreBytes(dut.mem, DATA, 1, 1));
    assert ExecAsBuilt(dut, Store(1, 1, 2, 0)) == stored;
    var g1 := Global(stored, g.nemu, false, false, 0, State(gpr, PMEM_BASE, ref.mem), 1);
    assert Touch(world, SkipRef(g), DATA) == SkipRef(g);
    assert Cycle(world, g) == g1;
    var h1 := g1.(ref := ref);
    assert BareCycle(world, g) == h1;
    assert Fetched(stored) == 0xc183 && Fetched(g1.ref) == 0xc183;
    LoadTurn(world, g1, h1);
    hide Cycle, BareCycle, DiffStep, Next;
    assert BareLoop(world, BareCycle(world, h1), 0) == BareCycle(world, h1);
    assert BareLoop(world, g, 2) == BareLoop(world, h1, 1);
    assert Loop(world, g, 2) == Loop(world, g1, 1);
  }

  lemma {:induction false} LoadTurn(world: World, g: Global, h: Global)
    requires SameSteps(world) && !g.dead && g.skipDut == 0 && !g.skipRef && RegsEqual(g.cpu, g.ref) && SameRun(g, h)
    requires g.cpu.pc == PMEM_BASE && g.cpu.gpr[1] == DATA && g.nemu.state.Running?
    requires Fetched(g.cpu) == 0xc183 == Fetched(g.ref) && ByteAt(g.cpu.mem, DATA) != ByteAt(g.ref.mem, DATA)
    ensures Cycle(world, g).nemu.state.Abort?
    ensures !BareCycle(world, h).dead && BareCycle(world, h).nemu.state.Running?
  {
    LoadWord();
    assert StepsLike(g.ref, RefStep(world, g.ref));
    hide Decode;
    assert ExecAsBuilt(g.cpu, Load(1, false, 3, 1, 0)).gpr[3] == ByteAt(g.cpu.mem, DATA);
    assert ExecAsBuilt(g.ref, Load(1, false, 3, 1, 0)).gpr[3] == ByteAt(g.ref.mem, DATA);
  }

  lemma {:induction false} StoreWord()
    ensures Decode(0x20_8023) == Some(Store(1, 1, 2, 0)) && Opcode(0x20_8023) == 0x23
  {
  }

  lemma {:induction false} LoadWord()
    ensures Decode(0xc183) == Some(Load(1, false, 3, 1, 0)) && Opcode(0xc183) == 3
  {
  }
}

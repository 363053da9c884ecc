/** The step that the manual gives every word, exceptions included, and exactly when the interpreter takes it. */
module RvManual {
  import opened Wrappers
  import opened RvSpec
  import opened NemuState
  import RvArith

  /** A step done; an instruction-address-misaligned exception, reported on the jump or branch (section 2.5); a request
      to the execution environment (section 2.8); or a word that the base and the M extension leave undefined. */
  datatype Outcome = Done(st: State) | Misaligned(target: Word) | Request | Reserved

  /** A FENCE orders accesses, of which one hart alone sees nothing (section 2.7). */
  predicate IsFence(w: nat) {
    Opcode(w) == 0x0f && Funct3(w) == 0
  }

  /** ECALL and EBREAK. */
  predicate IsRequest(w: nat) {
    w == 0x73 || w == 0x10_0073
  }

  /** Whether control leaves the sequence. */
  predicate Jumps(st: State, i: Instr)
    requires InstrOk(i)
  {
    match i
    case Jal(_, _) => true
    case Jalr(_, _, _) => true
    case Branch(c, rs1, rs2, _) => Holds(c, st.gpr[rs1], st.gpr[rs2])
    case _ => false
  }

  /** Where a jump that is taken goes. */
  function Target(st: State, i: Instr): Word
    requires InstrOk(i)
  {
    match i
    case Jal(_, imm) => U32(st.pc + imm)
    case Jalr(_, rs1, imm) => U32(st.gpr[rs1] + imm) / 2 * 2
    case Branch(_, _, _, imm) => U32(st.pc + imm)
    case _ => U32(st.pc + 4)
  }

  predicate Aligned(st: State, i: Instr)
    requires InstrOk(i)
  {
    Jumps(st, i) ==> Target(st, i) % 4 == 0
  }

  function Execute(st: State, i: Instr): Outcome
    requires InstrOk(i)
  {
    if Aligned(st, i) then Done(Exec(st, i)) else Misaligned(Target(st, i))
  }

  /** A jump goes where the step goes; and the exception is raised exactly by a jump whose step would go to an address
      that is no multiple of 4. */
  lemma {:induction false} JumpsTo(st: State, i: Instr)
    requires InstrOk(i)
    ensures Jumps(st, i) ==> (i.Jal? || i.Jalr? || i.Branch?) && Target(st, i) == Exec(st, i).pc
    ensures !Jumps(st, i) ==> Exec(st, i).pc == (st.pc + 4) % 0x1_0000_0000 && !i.Jal? && !i.Jalr?
    ensures i.Branch? ==> (Jumps(st, i) <==> Holds(i.cond, st.gpr[i.rs1], st.gpr[i.rs2]))
    ensures Execute(st, i)
         == if Jumps(st, i) && Exec(st, i).pc % 4 != 0 then Misaligned(Exec(st, i).pc) else Done(Exec(st, i))
  {
    hide Alu, Extend, LoadBytes, StoreBytes, WriteReg, Holds;
  }

  function Manual(st: State, w: Word): Outcome {
    if Decode(w).Some? then Execute(st, Decode(w).value)
    else if IsFence(w) then Done(State(st.gpr, U32(st.pc + 4), st.mem))
    else if IsRequest(w) then Request
    else Reserved
  }

  /** mulhsu writes what the manual says, or x0. */
  predicate MulhsuRight(st: State, i: Instr)
    requires InstrOk(i)
  {
    i.Op? && i.op.MULHSU? ==>
      var a, b := st.gpr[i.rs1], st.gpr[i.rs2];
      i.rd == 0 || b == 0 || (b == 1 && a < 0x8000_0000)
  }

  lemma {:induction false} AsBuiltIsExec(st: State, i: Instr)
    requires InstrOk(i)
    ensures ExecAsBuilt(st, i) == Exec(st, i) <==> MulhsuRight(st, i)
  {
    if i.Op? && i.op.MULHSU? {
      var a, b := st.gpr[i.rs1], st.gpr[i.rs2];
      RvArith.MulhsuExactlyWhen(a, b);
      hide Alu, RvArith.MulhsuAsBuilt, U32;
      if i.rd != 0 {
        assert ExecAsBuilt(st, i).gpr[i.rd] == RvArith.MulhsuAsBuilt(a, b);
        assert Exec(st, i).gpr[i.rd] == Alu(MULHSU, a, b);
      }
    }
  }

  lemma {:induction false} StepCpu(world: World, g: Global, i: Instr)
    requires InstrOk(i)
    ensures Step(world, g, i).cpu == ExecAsBuilt(g.cpu, i)
  {
    hide ExecAsBuilt, Touch, RefSteps;
  }

  /** Words without a decoding end or idle: none of them leaves the manual's next state. */
  lemma {:induction false} UndecodedDiffers(world: World, g: Global, w: Word)
    requires Decode(w).None?
    ensures var h := Perform(world, g, w); h.dead || Manual(g.cpu, w) != Done(h.cpu)
  {
    if IsFence(w) {
      assert Opcode(w) == 0x0f;
      TouchKeeps(world, g, g.cpu.pc);
      TouchKeeps(world, Touch(world, g, g.cpu.pc), U32(g.cpu.pc + 4));
      FarApart(g.cpu.pc);
      hide Decode, Touch, U32, Opcode, Funct3;
    }
  }

  lemma {:induction false} FarApart(pc: Word)
    ensures U32(pc + 8) != U32(pc + 4)
  {
  }

  /** On every word, whatever it is: a step of the interpreter that does not end the process is the step of the manual
      if and only if the word is an instruction other than FENCE, ECALL and EBREAK, a jump it takes goes to a multiple
      of 4, and it is no mulhsu that goes wrong. */
  lemma {:induction false} TakesManualStep(world: World, g: Global)
    requires !g.dead && !Next(world, g).dead
    ensures var w := Fetched(g.cpu);
      Manual(g.cpu, w) == Done(Next(world, g).cpu)
      <==> Decode(w).Some? && Aligned(g.cpu, Decode(w).value) && MulhsuRight(g.cpu, Decode(w).value)
  {
    var w, g1 := Fetched(g.cpu), Touch(world, g, g.cpu.pc);
    TouchKeeps(world, g, g.cpu.pc);
    if Decode(w).Some? {
      var i := Decode(w).value;
      StepCpu(world, g1, i);
      AsBuiltIsExec(g.cpu, i);
      TrapIsNone(w);
      hide Exec, ExecAsBuilt, Touch, Step, Aligned, MulhsuRight, Decode, Trap;
    } else {
      UndecodedDiffers(world, g1, w);
      hide Perform, Touch, Decode, Manual;
    }
  }

  /** FENCE, which the manual passes over, and ECALL and EBREAK, which it hands to the environment: the interpreter ends
      the run on them. */
  lemma {:induction false} SystemEndsRun(world: World, g: Global, w: Word)
    requires (w % 0x80 == 0x0f && w / 0x1000 % 8 == 0) || w == 0x73 || w == 0x10_0073
    ensures Manual(g.cpu, w)
         == if w % 0x80 == 0x0f then Done(State(g.cpu.gpr, (g.cpu.pc + 4) % 0x1_0000_0000, g.cpu.mem)) else Request
    ensures Perform(world, g, w).nemu == Status(Abort, g.cpu.pc, W - 1)
  {
    assert Opcode(w) == 0x0f || Opcode(w) == 0x73;
    assert IsFence(w) || IsRequest(w);
    hide ImmI, ImmS, ImmB, ImmU, ImmJ, Rd, Rs1, Rs2, Funct3, Funct7, Opcode, Touch;
  }

  /** "jal x1, 2" at an aligned pc raises the exception in the manual; the interpreter goes there and sets x1. */
  lemma {:induction false} MisalignedJump(world: World, g: Global)
    requires !g.dead && g.cpu.pc == 0x8000_0000
    ensures Manual(g.cpu, 0x20_00ef) == Misaligned(0x8000_0002)
    ensures Perform(world, g, 0x20_00ef).cpu == State(WriteReg(g.cpu.gpr, 1, 0x8000_0004), 0x8000_0002, g.cpu.mem)
  {
    assert Opcode(0x20_00ef) == 0x6f && Rd(0x20_00ef) == 1 && ImmJ(0x20_00ef) == 2;
    assert Decode(0x20_00ef) == Some(Jal(1, 2));
    hide Decode, ImmJ;
  }
}

/** The interpreter's decode state and, as values, how what a helper leaves behind becomes the step of the ISA. */
module NemuExec {
  import opened Wrappers
  import Bits
  import opened RvSpec
  import opened NemuState
  import F = RvFormat
  import opened RvArith

  datatype Operand = Reg(reg: nat) | Imm(imm: Word)

  /** DecodeExecState: the instruction, where control goes next, the operands and two temporaries. */
  datatype Decoding = Decoding(instr: Word, seqPc: Word, isJmp: bool, jmpPc: Word,
                               src1: Operand, src2: Operand, dest: Operand, width: nat, s0: Word, s1: Word)

  /** What an rtlreg_t pointer can point to: a register, a temporary or the constant zero. */
  datatype Ptr = Gpr(i: nat) | S0 | S1 | Rz

  predicate PtrOk(p: Ptr) {
    p.Gpr? ==> p.i < 32
  }

  function ValueAt(g: Global, d: Decoding, p: Ptr): Word
    requires PtrOk(p)
  {
    match p case Gpr(i) => g.cpu.gpr[i] case S0 => d.s0 case S1 => d.s1 case Rz => 0
  }

  function PutReg(g: Global, p: Ptr, v: Word): Global
    requires PtrOk(p)
  {
    if p.Gpr? then g.(cpu := g.cpu.(gpr := g.cpu.gpr[p.i := v])) else g
  }

  function PutTmp(d: Decoding, p: Ptr, v: Word): Decoding {
    if p.S0? then d.(s0 := v) else if p.S1? then d.(s1 := v) else d
  }

  // ----- operands ------------------------------------------------------------------------------------------

  predicate IsReg(o: Operand) {
    o.Reg? && o.reg < 32
  }

  predicate RegImm(d: Decoding) {
    IsReg(d.src1) && d.src2.Imm? && IsReg(d.dest)
  }

  predicate RegReg(d: Decoding) {
    IsReg(d.src1) && IsReg(d.src2) && IsReg(d.dest)
  }

  predicate BranchOps(d: Decoding) {
    IsReg(d.src1) && IsReg(d.src2) && d.dest.Imm?
  }

  predicate ImmReg(d: Decoding) {
    d.src1.Imm? && IsReg(d.dest)
  }

  function WithOperands(d: Decoding, src1: Operand, src2: Operand, dest: Operand): Decoding {
    d.(src1 := src1, src2 := src2, dest := dest)
  }

  /** The operand decoders of decode.h; U and J leave src2 as it was. */
  function OperandsI(d: Decoding): Decoding {
    WithOperands(d, Reg(Rs1(d.instr)), Imm(F.OperandI(d.instr)), Reg(Rd(d.instr)))
  }

  function OperandsS(d: Decoding): Decoding {
    WithOperands(d, Reg(Rs1(d.instr)), Imm(F.OperandS(d.instr)), Reg(Rs2(d.instr)))
  }

  function OperandsR(d: Decoding): Decoding {
    WithOperands(d, Reg(Rs1(d.instr)), Reg(Rs2(d.instr)), Reg(Rd(d.instr)))
  }

  function OperandsB(d: Decoding): Decoding {
    WithOperands(d, Reg(Rs1(d.instr)), Reg(Rs2(d.instr)), Imm(F.OperandB(d.instr)))
  }

  function OperandsU(d: Decoding): Decoding {
    WithOperands(d, Imm(F.OperandU(d.instr)), d.src2, Reg(Rd(d.instr)))
  }

  function OperandsJ(d: Decoding): Decoding {
    WithOperands(d, Imm(F.OperandJ(d.instr)), d.src2, Reg(Rd(d.instr)))
  }

  // ----- from the effect of a helper to the step of the ISA ------------------------------------------------------

  function Target(d: Decoding): Word {
    if d.isJmp then d.jmpPc else d.seqPc
  }

  /** update_pc and reset_zero. */
  function Finish(g: Global, d: Decoding): Global {
    g.(cpu := State(g.cpu.gpr[0 := 0], Target(d), g.cpu.mem))
  }

  predicate Ready(g: Global, d: Decoding) {
    !g.dead && ZeroOk(g.cpu) && d.seqPc == U32(g.cpu.pc + 4) && !d.isJmp
  }

  /** The instruction in d has taken (g, d) to (g', d'). */
  predicate Performed(world: World, g: Global, d: Decoding, g': Global, d': Decoding) {
    Same(Finish(g', d'), Perform(world, g, d.instr))
  }

  /** A value written through a register or temporary pointer. */
  predicate Wrote(g: Global, d: Decoding, g': Global, d': Decoding, p: Ptr, v: Word)
    requires PtrOk(p)
  {
    g' == PutReg(g, p, v) && d' == PutTmp(d, p, v)
  }

  lemma {:induction false} WriteBack(world: World, g: Global, d: Decoding, g': Global, d': Decoding, i: Instr, rd: nat, v: Word)
    requires Ready(g, d) && rd < 32 && g' == PutReg(g, Gpr(rd), v) && Target(d') == Target(d)
    requires Opcode(d.instr) != 0x6b && Decode(d.instr) == Some(i)
    requires i.Lui? || i.Auipc? || i.Op? || i.OpImm?
    requires ExecAsBuilt(g.cpu, i) == State(WriteReg(g.cpu.gpr, rd, v), U32(g.cpu.pc + 4), g.cpu.mem)
    ensures Performed(world, g, d, g', d')
  {
    hide Decode, ExecAsBuilt, U32;
  }

  function AluAsBuilt(op: AluOp, a: Word, b: Word): Word {
    if op.MULHSU? then MulhsuAsBuilt(a, b) else Alu(op, a, b)
  }

  /** An R-type helper: by funct7, one of the operations of its funct3, or a failed assertion. */
  predicate OpDone(k: nat, g: Global, d: Decoding, g': Global, d': Decoding)
    requires RegReg(d)
  {
    var op := AluOfFunct(Funct7(d.instr), k);
    if op.None? then g'.dead
    else
      && g' == PutReg(g, Gpr(d.dest.reg), AluAsBuilt(op.value, g.cpu.gpr[d.src1.reg], g.cpu.gpr[d.src2.reg]))
      && Target(d') == Target(d)
  }

  lemma {:induction false} OpPerformed(world: World, g: Global, d: Decoding, g': Global, d': Decoding)
    requires Ready(g, d) && Opcode(d.instr) == 0x33 && d == OperandsR(d) && OpDone(Funct3(d.instr), g, d, g', d')
    ensures Performed(world, g, d, g', d')
  {
    assert RegReg(d);
    hide AluOfFunct, Alu, U32, MulhsuAsBuilt, Rs1, Rs2, Rd, Funct3, Funct7;
    var op := AluOfFunct(Funct7(d.instr), Funct3(d.instr));
    assert d.src1 == Reg(Rs1(d.instr)) && d.src2 == Reg(Rs2(d.instr)) && d.dest == Reg(Rd(d.instr));
    if op.Some? {
      var rd, v := Rd(d.instr), AluAsBuilt(op.value, g.cpu.gpr[d.src1.reg], g.cpu.gpr[d.src2.reg]);
      WriteBack(world, g, d, g', d', Op(op.value, rd, Rs1(d.instr), Rs2(d.instr)), rd, v);
    }
  }

  predicate ImmDone(op: AluOp, g: Global, d: Decoding, g': Global, d': Decoding)
    requires RegImm(d)
  {
    Wrote(g, d, g', d', Gpr(d.dest.reg), Alu(op, g.cpu.gpr[d.src1.reg], d.src2.imm))
  }

  /** Shifts by an immediate look at imm[11:5] for the kind and use imm[4:0]. */
  lemma {:induction false} ShiftFields(w: Word)
    ensures F.OperandI(w) / 0x20 % 0x80 == Funct7(w) && F.OperandI(w) % 32 == Rs2(w)
  {
    var f := w / 0x10_0000;
    assert w / 0x200_0000 == f / 0x20;
    LowOfSigned(f % 0x1000);
    assert f % 0x1000 % 0x20 == f % 0x20 && f % 0x1000 / 0x20 == f / 0x20 % 0x80;
  }

  lemma {:induction false} LowOfSigned(x: nat)
    requires x < 0x1000
    ensures U32(SignExtend(x, 0x800)) % 0x20 == x % 0x20 && U32(SignExtend(x, 0x800)) / 0x20 % 0x80 == x / 0x20
  {
  }

  lemma {:induction false} ShiftResult(op: AluOp, a: Word, x: Word, y: Word)
    requires op.SLL? || op.SRL? || op.SRA?
    requires x % 32 == y % 32
    ensures Alu(op, a, x) == Alu(op, a, y)
  {
    hide Bits.Pow2;
  }

  lemma {:induction false} ImmResult(w: Word, a: Word)
    ensures ImmOp(w).Some? ==> var i := ImmOp(w).value;
      i.OpImm? && Alu(i.op, a, F.OperandI(w)) == Alu(i.op, a, U32(i.imm))
  {
    ShiftFields(w);
    ImmediateI(w);
    hide F.OperandI, ImmI, Rd, Rs1, Rs2, Funct3, Funct7, Alu, U32;
    if ImmOp(w).Some? {
      var i := ImmOp(w).value;
      if i.op.SLL? || i.op.SRL? || i.op.SRA? {
        RegIsWord(w);
        ShiftResult(i.op, a, F.OperandI(w), U32(i.imm));
      }
    }
  }

  lemma {:induction false} RegIsWord(w: Word)
    ensures U32(Rs2(w)) == Rs2(w) && Rs2(w) % 32 == Rs2(w)
  {
  }

  lemma {:induction false} ImmPerformed(world: World, g: Global, d: Decoding, g': Global, d': Decoding, op: AluOp)
    requires Ready(g, d) && Opcode(d.instr) == 0x13 && d == OperandsI(d) && ImmDone(op, g, d, g', d')
    requires ImmOp(d.instr).Some? && ImmOp(d.instr).value.op == op
    ensures Performed(world, g, d, g', d')
  {
    var w := d.instr;
    var i := ImmOp(w).value;
    assert d.src1 == Reg(Rs1(w)) && d.dest == Reg(Rd(w));
    var a := g.cpu.gpr[Rs1(w)];
    ImmResult(w, a);
    hide Alu, U32, Rs1, Rd, Rs2, Funct3, Funct7, F.OperandI, ImmI;
    WriteBack(world, g, d, g', d', i, Rd(w), Alu(op, a, F.OperandI(w)));
  }

  lemma {:induction false} ImmediateI(w: Word)
    ensures F.OperandI(w) == U32(ImmI(w))
  {
  }

  // ----- loads, stores and jumps ------------------------------------------------------------------------------

  lemma {:induction false} MemoryStep(world: World, g: Global, i: Instr)
    requires InstrOk(i) && (i.Load? || i.Store?)
    ensures var a := U32(g.cpu.gpr[i.rs1] + i.imm); var t := Touch(world, g, a);
      && (t.dead ==> Step(world, g, i).dead)
      && t.cpu == g.cpu
      && Step(world, g, i) == t.(cpu :=
           if i.Load? then
             State(WriteReg(g.cpu.gpr, i.rd, Extend(LoadBytes(g.cpu.mem, a, i.len), i.len, i.signed)), U32(g.cpu.pc + 4), g.cpu.mem)
           else State(g.cpu.gpr, U32(g.cpu.pc + 4), StoreBytes(g.cpu.mem, a, g.cpu.gpr[i.rs2], i.len)))
  {
    hide LoadBytes, Extend, U32, StoreBytes, InPmem;
  }

  lemma {:induction false} LoadPerformed(world: World, g: Global, d: Decoding, g': Global, len: nat, signed: bool)
    requires Ready(g, d) && Opcode(d.instr) == 0x03 && d == OperandsI(d)
    requires Decode(d.instr) == Some(Load(len, signed, Rd(d.instr), Rs1(d.instr), ImmI(d.instr)))
    requires var a := U32(g.cpu.gpr[Rs1(d.instr)] + F.OperandI(d.instr)); var t := Touch(world, g, a);
      && g'.dead == t.dead
      && (!g'.dead ==> g' == PutReg(t, Gpr(Rd(d.instr)), Extend(LoadBytes(g.cpu.mem, a, len), len, signed)))
    ensures Performed(world, g, d, g', d)
  {
    var i := Decode(d.instr).value;
    AddressI(d.instr, g.cpu.gpr[Rs1(d.instr)]);
    assert Perform(world, g, d.instr) == Step(world, g, i);
    MemoryStep(world, g, i);
    hide Decode, LoadBytes, Extend, U32, F.OperandI, ImmI, Rd, Rs1, Touch, Perform, Step;
  }

  lemma {:induction false} SumWraps(x: int, y: int)
    ensures U32(x + U32(y)) == U32(x + y)
  {
    CongruentWords(x + U32(y), x + y, -(y / W));
  }

  lemma {:induction false} AddressI(w: Word, x: Word)
    ensures U32(x + F.OperandI(w)) == U32(x + ImmI(w)) && U32(x + F.OperandS(w)) == U32(x + ImmS(w))
  {
    F.DecodersAgree(w);
    SumWraps(x, ImmI(w));
    SumWraps(x, ImmS(w));
  }

  lemma {:induction false} StorePerformed(world: World, g: Global, d: Decoding, g': Global, len: nat)
    requires Ready(g, d) && Opcode(d.instr) == 0x23 && d == OperandsS(d)
    requires Decode(d.instr) == Some(Store(len, Rs1(d.instr), Rs2(d.instr), ImmS(d.instr)))
    requires var a := U32(g.cpu.gpr[Rs1(d.instr)] + F.OperandS(d.instr)); var t := Touch(world, g, a);
      && g'.dead == t.dead
      && (!g'.dead ==> g' == t.(cpu := g.cpu.(mem := StoreBytes(g.cpu.mem, a, g.cpu.gpr[Rs2(d.instr)], len))))
    ensures Performed(world, g, d, g', d)
  {
    var i := Decode(d.instr).value;
    AddressI(d.instr, g.cpu.gpr[Rs1(d.instr)]);
    assert Perform(world, g, d.instr) == Step(world, g, i);
    MemoryStep(world, g, i);
    hide Decode, StoreBytes, U32, F.OperandS, ImmS, Rs1, Rs2, Touch, Perform, Step;
    assert g.cpu.gpr[0 := 0] == g.cpu.gpr;
  }

  lemma {:induction false} DecodeBranch(w: Word, c: Cond)
    requires Opcode(w) == 0x63 && CondOf(Funct3(w)) == Some(c)
    ensures Decode(w) == Some(Branch(c, Rs1(w), Rs2(w), ImmB(w)))
  {
    hide Opcode, Rd, Rs1, Rs2, Funct3, Funct7, CondOf, ImmB, ImmI, ImmS, ImmU, ImmJ;
  }

  lemma {:induction false} DecodeJump(w: Word)
    ensures Opcode(w) == 0x6f ==> Decode(w) == Some(Jal(Rd(w), ImmJ(w)))
    ensures Opcode(w) == 0x67 && Funct3(w) == 0 ==> Decode(w) == Some(Jalr(Rd(w), Rs1(w), ImmI(w)))
  {
    hide Opcode, Rd, Rs1, Rs2, Funct3, Funct7, CondOf, ImmB, ImmI, ImmS, ImmU, ImmJ;
  }

  /** A branch helper: a jump to pc + imm when the condition holds. */
  predicate Branched(c: Cond, g: Global, d: Decoding, g': Global, d': Decoding)
    requires BranchOps(d)
  {
    && g' == g
    && Target(d') == if Holds(c, g.cpu.gpr[d.src1.reg], g.cpu.gpr[d.src2.reg]) then U32(g.cpu.pc + d.dest.imm) else Target(d)
  }

  lemma {:induction false} BranchPerformed(world: World, g: Global, d: Decoding, g': Global, d': Decoding, c: Cond)
    requires Ready(g, d) && Opcode(d.instr) == 0x63 && d == OperandsB(d)
    requires CondOf(Funct3(d.instr)) == Some(c) && Branched(c, g, d, g', d')
    ensures Performed(world, g, d, g', d')
  {
    hide Decode, ImmB, ImmJ, ImmI, Opcode, Alu;
    var w := d.instr;
    assert d.src1 == Reg(Rs1(w)) && d.src2 == Reg(Rs2(w)) && d.dest == Imm(F.OperandB(w));
    F.BranchOperand(w);
    SumWraps(g.cpu.pc, ImmB(w));
    DecodeBranch(w, c);
    hide Decode, U32, F.OperandB, ImmB, Rs1, Rs2, Funct3, Holds, CondOf;
    assert g.cpu.gpr[0 := 0] == g.cpu.gpr;
  }

  lemma {:induction false} JalPerformed(world: World, g: Global, d: Decoding, g': Global, d': Decoding)
    requires Ready(g, d) && Opcode(d.instr) == 0x6f && d == OperandsJ(d)
    requires g' == PutReg(g, Gpr(Rd(d.instr)), d.seqPc) && Target(d') == U32(g.cpu.pc + F.OperandJ(d.instr))
    ensures Performed(world, g, d, g', d')
  {
    hide Decode, ImmB, ImmJ, ImmI, Opcode, Alu;
    F.JumpOperand(d.instr);
    SumWraps(g.cpu.pc, ImmJ(d.instr));
    DecodeJump(d.instr);
    hide Decode, U32, F.OperandJ, ImmJ, Rd;
  }

  /** Clearing bit 0 with a mask. */
  lemma {:induction false} ClearBitZero(x: Word)
    ensures Bits.And(x, 0xffff_fffe) == x / 2 * 2
  {
    Bits.AndField(x, 31, 1);
    Bits.Pow2Values();
    hide Bits.And, Bits.Pow2;
  }

  lemma {:induction false} JalrStep(world: World, g: Global, rd: nat, rs1: nat, imm: int)
    requires rd < 32 && rs1 < 32
    ensures Step(world, g, Jalr(rd, rs1, imm)) == SkipDut(world, g, 1, 2).(cpu :=
      State(WriteReg(g.cpu.gpr, rd, U32(g.cpu.pc + 4)), U32(g.cpu.gpr[rs1] + imm) / 2 * 2, g.cpu.mem))
  {
    hide RefSteps, U32;
  }

  lemma {:induction false} JalrPerformed(world: World, g: Global, d: Decoding, g': Global, d': Decoding)
    requires Ready(g, d) && Opcode(d.instr) == 0x67 && Funct3(d.instr) == 0 && d == OperandsI(d)
    requires g' == PutReg(SkipDut(world, g, 1, 2), Gpr(Rd(d.instr)), d.seqPc)
    requires Target(d') == U32(g.cpu.gpr[Rs1(d.instr)] + F.OperandI(d.instr)) / 2 * 2
    ensures Performed(world, g, d, g', d')
  {
    hide Decode, ImmB, ImmJ, ImmI, Opcode, Alu;
    AddressI(d.instr, g.cpu.gpr[Rs1(d.instr)]);
    DecodeJump(d.instr);
    JalrStep(world, g, Rd(d.instr), Rs1(d.instr), ImmI(d.instr));
    hide Decode, U32, F.OperandI, ImmI, Rd, Rs1, SkipDut, Step;
  }

  lemma {:induction false} UpperPerformed(world: World, g: Global, d: Decoding, g': Global)
    requires Ready(g, d) && d == OperandsU(d)
    requires
      || (Opcode(d.instr) == 0x37 && g' == PutReg(g, Gpr(Rd(d.instr)), F.OperandU(d.instr)))
      || (Opcode(d.instr) == 0x17 && g' == PutReg(g, Gpr(Rd(d.instr)), U32(g.cpu.pc + F.OperandU(d.instr))))
    ensures Performed(world, g, d, g', d)
  {
    SumWraps(g.cpu.pc, ImmU(d.instr));
    assert F.OperandU(d.instr) == U32(ImmU(d.instr));
    hide U32, F.OperandU, ImmU, Rd;
  }

  lemma {:induction false} InvalidPerformed(world: World, g: Global, d: Decoding, g': Global, d': Decoding)
    requires Ready(g, d) && Decode(d.instr).None?
    requires Opcode(d.instr) != 0x63 && Opcode(d.instr) != 0x67 && Opcode(d.instr) != 0x33 && Opcode(d.instr) != 0x13
    requires Opcode(d.instr) != 0x6b
    requires Same(g', Invalid(world, g).(cpu := g.cpu)) && d' == d.(seqPc := U32(g.cpu.pc + 8))
    ensures Performed(world, g, d, g', d')
  {
    hide Decode, Touch, U32;
    TouchKeeps(world, g, g.cpu.pc);
    TouchKeeps(world, Touch(world, g, g.cpu.pc), U32(g.cpu.pc + 4));
    assert g.cpu.gpr[0 := 0] == g.cpu.gpr;
  }

  /** No case of the branch dispatch matches funct3 2 or 3. */
  lemma {:induction false} IdlePerformed(world: World, g: Global, d: Decoding, d': Decoding)
    requires Ready(g, d) && Opcode(d.instr) == 0x63 && CondOf(Funct3(d.instr)).None? && Target(d') == Target(d)
    ensures Performed(world, g, d, g, d')
  {
    hide CondOf, Funct3, U32;
    assert g.cpu.gpr[0 := 0] == g.cpu.gpr;
  }

  /** A failed assertion. */
  lemma {:induction false} DeadPerformed(world: World, g: Global, d: Decoding, g': Global, d': Decoding)
    requires Ready(g, d) && g'.dead && Decode(d.instr).None?
    requires Opcode(d.instr) == 0x67 || Opcode(d.instr) == 0x33 || Opcode(d.instr) == 0x13
    ensures Performed(world, g, d, g', d')
  {
    hide Decode;
  }

  lemma {:induction false} TrapPerformed(world: World, g: Global, d: Decoding, g': Global)
    requires Ready(g, d) && Opcode(d.instr) == 0x6b && g' == SkipRef(g).(nemu := Status(End, g.cpu.pc, g.cpu.gpr[10]))
    ensures Performed(world, g, d, g', d)
  {
    hide U32;
    assert g.cpu.gpr[0 := 0] == g.cpu.gpr;
  }

  lemma {:induction false} NextWords(pc: Word)
    ensures U32(U32(pc + 4) + 4) == U32(pc + 8)
  {
  }

  /** The opcode field and its two low bits. */
  lemma {:induction false} OpcodeParts(w: Word)
    requires w % 4 == 3
    ensures Opcode(w) == 4 * (w / 4 % 0x20) + 3
  {
  }

  lemma {:induction false} SameInstr(world: World, g: Global, d: Decoding, e: Decoding, g': Global, d': Decoding)
    requires d.instr == e.instr && Performed(world, g, d, g', d')
    ensures Performed(world, g, e, g', d')
  {
  }
}

/** The RISC-V interpreter: fetch, decode, execute through register-transfer primitives
    (isa/riscv32, engine/interpreter), the run loop (cpu-exec.c) and differential testing (difftest/dut.c). */
module Nemu {
  import opened Wrappers
  import Bits
  import opened RvSpec
  import opened NemuState
  import opened NemuExec
  import opened RvArith
  import F = RvFormat
  import M = RvManual

  class Emulator {
    const world: World
    const gpr: array<Word>
    var pc: Word
    var mem: Memory
    var nemuState: Status
    var dead: bool
    var isSkipRef: bool
    var skipDutNrInstr: nat
    var ref: State
    var nrGuestInstr: nat
    var s: Decoding

    predicate Valid() {
      gpr.Length == 32
    }

    ghost function Snap(): Global
      requires Valid()
      reads this, gpr
    {
      Global(State(gpr[..], pc, mem), nemuState, dead, isSkipRef, skipDutNrInstr, ref, nrGuestInstr)
    }

    constructor (world: World, pc: Word, mem: Memory, ref: State, s: Decoding)
      ensures Valid() && fresh(gpr) && this.world == world && this.s == s
      ensures Snap() == Global(State(seq(32, _ => 0), pc, mem), Status(Stop, 0, 0), false, false, 0, ref, 0)
    {
      this.world, this.pc, this.mem, this.ref, this.s := world, pc, mem, ref, s;
      nemuState, dead, isSkipRef, skipDutNrInstr, nrGuestInstr := Status(Stop, 0, 0), false, false, 0, 0;
      gpr := new Word[32](_ => 0);
      new;
      assert gpr[..] == seq(32, _ => 0);
    }

    // ----- differential testing, the requests ----------------------------------------------------------------

    method DifftestSkipRef()
      requires Valid()
      modifies this
      ensures Snap() == SkipRef(old(Snap())) && s == old(s)
    {
      isSkipRef := true;
      skipDutNrInstr := 0;
    }

    method DifftestSkipDut(nrRef: nat, nrDut: nat)
      requires Valid()
      modifies this
      ensures Snap() == SkipDut(world, old(Snap()), nrRef, nrDut) && s == old(s)
    {
      skipDutNrInstr := skipDutNrInstr + nrDut;
      var n := nrRef;
      while n > 0
        invariant RefSteps(world, ref, n) == RefSteps(world, old(ref), nrRef)
        invariant Snap() == old(Snap()).(skipDut := old(skipDutNrInstr) + nrDut, ref := ref) && s == old(s)
      {
        n := n - 1;
        ref := RefStep(world, ref);
      }
    }

    // ----- memory -----------------------------------------------------------------------------------------------

    /** fetch_mmio_map and check_bound. */
    method TouchBus(addr: nat)
      requires Valid()
      modifies this
      ensures Snap() == Touch(world, old(Snap()), addr) && s == old(s)
    {
      if !InPmem(addr) {
        if world.mmio(addr) {
          DifftestSkipRef();
        } else {
          dead := true;
        }
      }
    }

    method PaddrRead(addr: nat, len: nat) returns (v: Word)
      requires Valid()
      modifies this
      ensures Snap() == Touch(world, old(Snap()), addr) && s == old(s) && v == LoadBytes(old(mem), addr, len)
    {
      v := LoadBytes(mem, addr, len);
      TouchBus(addr);
    }

    method PaddrWrite(addr: nat, v: Word, len: nat)
      requires Valid()
      modifies this
      ensures s == old(s) && dead == Touch(world, old(Snap()), addr).dead
      ensures Snap() == Touch(world, old(Snap()), addr).(cpu := old(Snap()).cpu.(mem := StoreBytes(old(mem), addr, v, len)))
    {
      TouchBus(addr);
      mem := StoreBytes(mem, addr, v, len);
    }

    method InstrFetch() returns (w: Word)
      requires Valid()
      modifies this
      ensures Snap() == Touch(world, old(Snap()), old(s.seqPc)) && s == old(s).(seqPc := U32(old(s.seqPc) + 4))
      ensures w == LoadBytes(old(mem), old(s.seqPc), 4)
    {
      w := PaddrRead(s.seqPc, 4);
      s := s.(seqPc := U32(s.seqPc + 4));
    }

    // ----- register transfer ----------------------------------------------------------------------------------------

    function Get(p: Ptr): (v: Word)
      requires Valid() && PtrOk(p)
      reads this, gpr
      ensures v == ValueAt(Snap(), s, p)
    {
      match p case Gpr(i) => gpr[i] case S0 => s.s0 case S1 => s.s1 case Rz => 0
    }

    method Set(p: Ptr, v: Word)
      requires Valid() && PtrOk(p)
      modifies this, gpr
      ensures Wrote(old(Snap()), old(s), Snap(), s, p, v)
    {
      match p
      case Gpr(i) =>
        gpr[i] := v;
        assert gpr[..] == old(gpr[..])[i := v];
      case S0 => s := s.(s0 := v);
      case S1 => s := s.(s1 := v);
      case Rz =>
    }

    method RtlCompute(op: COp, dest: Ptr, src1: Ptr, src2: Ptr)
      requires Valid() && PtrOk(dest) && PtrOk(src1) && PtrOk(src2) && Defined(op, Get(src1), Get(src2))
      modifies this, gpr
      ensures Wrote(old(Snap()), old(s), Snap(), s, dest, Compute(op, old(Get(src1)), old(Get(src2))))
    {
      Set(dest, Compute(op, Get(src1), Get(src2)));
    }

    method RtlComputeImm(op: COp, dest: Ptr, src1: Ptr, imm: Word)
      requires Valid() && PtrOk(dest) && PtrOk(src1) && Defined(op, Get(src1), imm)
      modifies this, gpr
      ensures Wrote(old(Snap()), old(s), Snap(), s, dest, Compute(op, old(Get(src1)), imm))
    {
      Set(dest, Compute(op, Get(src1), imm));
    }

    method RtlSetrelop(relop: Relop, dest: Ptr, src1: Ptr, src2: Ptr)
      requires Valid() && PtrOk(dest) && PtrOk(src1) && PtrOk(src2)
      modifies this, gpr
      ensures Wrote(old(Snap()), old(s), Snap(), s, dest,
                    if InterpretRelop(relop, old(Get(src1)), old(Get(src2))) then 1 else 0)
    {
      Set(dest, if InterpretRelop(relop, Get(src1), Get(src2)) then 1 else 0);
    }

    method RtlSetrelopi(relop: Relop, dest: Ptr, src1: Ptr, imm: Word)
      requires Valid() && PtrOk(dest) && PtrOk(src1)
      modifies this, gpr
      ensures Wrote(old(Snap()), old(s), Snap(), s, dest, if InterpretRelop(relop, old(Get(src1)), imm) then 1 else 0)
    {
      Set(dest, if InterpretRelop(relop, Get(src1), imm) then 1 else 0);
    }

    method RtlLi(dest: Ptr, imm: Word)
      requires Valid() && PtrOk(dest)
      modifies this, gpr
      ensures Wrote(old(Snap()), old(s), Snap(), s, dest, imm)
    {
      RtlComputeImm(CAdd, dest, Rz, imm);
    }

    method RtlMv(dest: Ptr, src1: Ptr)
      requires Valid() && PtrOk(dest) && PtrOk(src1)
      modifies this, gpr
      ensures Wrote(old(Snap()), old(s), Snap(), s, dest, old(Get(src1)))
    {
      if dest != src1 {
        RtlCompute(CAdd, dest, src1, Rz);
      } else {
        assert dest.Gpr? ==> gpr[..] == gpr[..][dest.i := gpr[dest.i]];
      }
    }

    method RtlLm(dest: Ptr, addr: Ptr, offset: Word, len: nat)
      requires Valid() && PtrOk(dest) && PtrOk(addr)
      modifies this, gpr
      ensures var a := U32(old(Get(addr)) + offset);
        Wrote(Touch(world, old(Snap()), a), old(s), Snap(), s, dest, LoadBytes(old(mem), a, len))
    {
      var v := PaddrRead(U32(Get(addr) + offset), len);
      Set(dest, v);
    }

    /** The casts to int8_t and int16_t. */
    method RtlLms(dest: Ptr, addr: Ptr, offset: Word, len: nat)
      requires Valid() && PtrOk(dest) && PtrOk(addr) && (len == 1 || len == 2)
      modifies this, gpr
      ensures var a := U32(old(Get(addr)) + offset);
        Wrote(Touch(world, old(Snap()), a), old(s), Snap(), s, dest, Extend(LoadBytes(old(mem), a, len), len, true))
    {
      var v := PaddrRead(U32(Get(addr) + offset), len);
      if len == 1 {
        Set(dest, U32(SignExtend(v, 0x80)));
      } else {
        Set(dest, U32(SignExtend(v, 0x8000)));
      }
    }

    method RtlSm(addr: Ptr, offset: Word, src1: Ptr, len: nat)
      requires Valid() && PtrOk(src1) && PtrOk(addr)
      modifies this
      ensures var a := U32(old(Get(addr)) + offset);
        && s == old(s) && dead == Touch(world, old(Snap()), a).dead
        && Snap() == Touch(world, old(Snap()), a).(cpu := old(Snap()).cpu.(mem := StoreBytes(old(mem), a, old(Get(src1)), len)))
    {
      PaddrWrite(U32(Get(addr) + offset), Get(src1), len);
    }

    method RtlJ(target: Word)
      requires Valid()
      modifies this
      ensures Snap() == old(Snap()) && s == old(s).(jmpPc := target, isJmp := true)
    {
      s := s.(jmpPc := target, isJmp := true);
    }

    method RtlJr(target: Ptr)
      requires Valid() && PtrOk(target)
      modifies this
      ensures Snap() == old(Snap()) && s == old(s).(jmpPc := old(Get(target)), isJmp := true)
    {
      s := s.(jmpPc := Get(target), isJmp := true);
    }

    method RtlExit(state: RunState, haltPc: Word, haltRet: Word)
      requires Valid()
      modifies this
      ensures Snap() == old(Snap()).(nemu := Status(state, haltPc, haltRet)) && s == old(s)
    {
      nemuState := Status(state, haltPc, haltRet);
    }

    // ----- compute.h ---------------------------------------------------------------------------------------------------

    method Lui()
      requires Valid() && ImmReg(s)
      modifies this, gpr
      ensures Wrote(old(Snap()), old(s), Snap(), s, Gpr(old(s.dest.reg)), old(s.src1.imm))
    {
      RtlLi(Gpr(s.dest.reg), s.src1.imm);
    }

    method Auipc()
      requires Valid() && ImmReg(s)
      modifies this, gpr
      ensures Wrote(old(Snap()), old(s), Snap(), s, Gpr(old(s.dest.reg)), U32(old(pc) + old(s.src1.imm)))
    {
      RtlLi(Gpr(s.dest.reg), U32(s.src1.imm + pc));
    }

    /** addi, xori, ori and andi. */
    method ComputeImm(op: AluOp)
      requires Valid() && RegImm(s) && (op.ADD? || op.XOR? || op.OR? || op.AND?)
      modifies this, gpr
      ensures ImmDone(op, old(Snap()), old(s), Snap(), s)
    {
      HelperComputes(op, gpr[s.src1.reg], s.src2.imm);
      RtlComputeImm(OpOf(op), Gpr(s.dest.reg), Gpr(s.src1.reg), s.src2.imm);
    }

    method Slti()
      requires Valid() && RegImm(s)
      modifies this, gpr
      ensures ImmDone(SLT, old(Snap()), old(s), Snap(), s)
    {
      RtlSetrelopi(RLt, Gpr(s.dest.reg), Gpr(s.src1.reg), s.src2.imm);
    }

    method Sltiu()
      requires Valid() && RegImm(s)
      modifies this, gpr
      ensures ImmDone(SLTU, old(Snap()), old(s), Snap(), s)
    {
      RtlSetrelopi(RLtu, Gpr(s.dest.reg), Gpr(s.src1.reg), s.src2.imm);
    }

    method ShiftImm(op: AluOp)
      requires Valid() && RegImm(s) && (op.SLL? || op.SRL? || op.SRA?)
      modifies this, gpr
      ensures ImmDone(op, old(Snap()), old(s), Snap(), s)
    {
      HelperComputes(op, gpr[s.src1.reg], s.src2.imm);
      RtlComputeImm(OpOf(op), Gpr(s.dest.reg), Gpr(s.src1.reg), s.src2.imm);
    }

    method Slli()
      requires Valid() && RegImm(s)
      modifies this, gpr
      ensures if old(s.src2.imm) / 0x20 % 0x80 == 0 then ImmDone(SLL, old(Snap()), old(s), Snap(), s) else dead
    {
      if s.src2.imm / 0x20 % 0x80 == 0 {
        ShiftImm(SLL);
      } else {
        dead := true;
      }
    }

    method Srlai()
      requires Valid() && RegImm(s)
      modifies this, gpr
      ensures var kind := old(s.src2.imm) / 0x20 % 0x80;
        if kind == 0 then ImmDone(SRL, old(Snap()), old(s), Snap(), s)
        else if kind == 0x20 then ImmDone(SRA, old(Snap()), old(s), Snap(), s) else dead
    {
      var kind := s.src2.imm / 0x20 % 0x80;
      if kind == 0 {
        ShiftImm(SRL);
      } else if kind == 0x20 {
        ShiftImm(SRA);
      } else {
        dead := true;
      }
    }

    /** One register-register operation of the interpreter. */
    method ComputeReg(op: AluOp)
      requires Valid() && RegReg(s) && !op.SLT? && !op.SLTU? && !op.MULHSU?
      requires Defined(OpOf(op), gpr[s.src1.reg], gpr[s.src2.reg])
      modifies this, gpr
      ensures Wrote(old(Snap()), old(s), Snap(), s, Gpr(old(s.dest.reg)),
                    Alu(op, old(gpr[s.src1.reg]), old(gpr[s.src2.reg])))
    {
      HelperComputes(op, gpr[s.src1.reg], gpr[s.src2.reg]);
      hide Alu, Compute;
      RtlCompute(OpOf(op), Gpr(s.dest.reg), Gpr(s.src1.reg), Gpr(s.src2.reg));
    }

    method AddSubMul()
      requires Valid() && RegReg(s)
      modifies this, gpr
      ensures OpDone(0, old(Snap()), old(s), Snap(), s)
    {
      hide Alu;
      match Funct7(s.instr)
      case 0x00 => ComputeReg(ADD);
      case 0x20 => ComputeReg(SUB);
      case 0x01 => ComputeReg(MUL);
      case _ => dead := true;
    }

    method SltMulhsu()
      requires Valid() && RegReg(s)
      modifies this, gpr
      ensures OpDone(2, old(Snap()), old(s), Snap(), s)
    {
      hide Compute, U32;
      match Funct7(s.instr)
      case 0x00 => RtlSetrelop(RLt, Gpr(s.dest.reg), Gpr(s.src1.reg), Gpr(s.src2.reg));
      case 0x01 =>
        RtlCompute(CMulHi, S0, Gpr(s.src1.reg), Gpr(s.src2.reg));
        RtlLi(S1, W - 1);
        RtlCompute(CMulHi, S1, S1, Gpr(s.src2.reg));
        RtlCompute(CAdd, Gpr(s.dest.reg), S0, S1);
      case _ => dead := true;
    }

    method SltuMulhu()
      requires Valid() && RegReg(s)
      modifies this, gpr
      ensures OpDone(3, old(Snap()), old(s), Snap(), s)
    {
      match Funct7(s.instr)
      case 0x00 => RtlSetrelop(RLtu, Gpr(s.dest.reg), Gpr(s.src1.reg), Gpr(s.src2.reg));
      case 0x01 => ComputeReg(MULHU);
      case _ => dead := true;
    }

    method XorDiv()
      requires Valid() && RegReg(s)
      modifies this, gpr
      ensures OpDone(4, old(Snap()), old(s), Snap(), s)
    {
      var a, b := gpr[s.src1.reg], gpr[s.src2.reg];
      SpecialDivision(a, b);
      hide Alu;
      match Funct7(s.instr)
      case 0x00 => ComputeReg(XOR);
      case 0x01 =>
        if b == 0 {
          RtlLi(Gpr(s.dest.reg), W - 1);
        } else if a == 0x8000_0000 && b == W - 1 {
          RtlMv(Gpr(s.dest.reg), Gpr(s.src1.reg));
        } else {
          ComputeReg(DIV);
        }
      case _ => dead := true;
    }

    method OrRem()
      requires Valid() && RegReg(s)
      modifies this, gpr
      ensures OpDone(6, old(Snap()), old(s), Snap(), s)
    {
      var a, b := gpr[s.src1.reg], gpr[s.src2.reg];
      SpecialDivision(a, b);
      hide Alu;
      match Funct7(s.instr)
      case 0x00 => ComputeReg(OR);
      case 0x01 =>
        if b == 0 {
          RtlMv(Gpr(s.dest.reg), Gpr(s.src1.reg));
        } else if a == 0x8000_0000 && b == W - 1 {
          RtlLi(Gpr(s.dest.reg), 0);
        } else {
          ComputeReg(REM);
        }
      case _ => dead := true;
    }

    method AndRemu()
      requires Valid() && RegReg(s)
      modifies this, gpr
      ensures OpDone(7, old(Snap()), old(s), Snap(), s)
    {
      var a, b := gpr[s.src1.reg], gpr[s.src2.reg];
      SpecialDivision(a, b);
      hide Alu;
      match Funct7(s.instr)
      case 0x00 => ComputeReg(AND);
      case 0x01 =>
        if b == 0 {
          RtlMv(Gpr(s.dest.reg), Gpr(s.src1.reg));
        } else {
          ComputeReg(REMU);
        }
      case _ => dead := true;
    }

    method SllMulh()
      requires Valid() && RegReg(s)
      modifies this, gpr
      ensures OpDone(1, old(Snap()), old(s), Snap(), s)
    {
      hide Alu;
      match Funct7(s.instr)
      case 0x00 => ComputeReg(SLL);
      case 0x01 => ComputeReg(MULH);
      case _ => dead := true;
    }

    method SrlaDivu()
      requires Valid() && RegReg(s)
      modifies this, gpr
      ensures OpDone(5, old(Snap()), old(s), Snap(), s)
    {
      var a, b := gpr[s.src1.reg], gpr[s.src2.reg];
      SpecialDivision(a, b);
      hide Alu;
      match Funct7(s.instr)
      case 0x00 => ComputeReg(SRL);
      case 0x20 => ComputeReg(SRA);
      case 0x01 =>
        if b == 0 {
          RtlLi(Gpr(s.dest.reg), W - 1);
        } else {
          ComputeReg(DIVU);
        }
      case _ => dead := true;
    }

    // ----- control.h ------------------------------------------------------------------------------------------------

    method Jal()
      requires Valid() && ImmReg(s)
      modifies this, gpr
      ensures Snap() == PutReg(old(Snap()), Gpr(old(s.dest.reg)), old(s.seqPc))
      ensures Target(s) == U32(old(pc) + old(s.src1.imm)) && s.instr == old(s.instr)
    {
      RtlJ(U32(pc + s.src1.imm));
      RtlLi(Gpr(s.dest.reg), s.seqPc);
    }

    method Jalr()
      requires Valid() && RegImm(s)
      modifies this, gpr
      ensures Funct3(old(s.instr)) != 0 ==> dead
      ensures Funct3(old(s.instr)) == 0 ==>
        && Snap() == PutReg(SkipDut(world, old(Snap()), 1, 2), Gpr(old(s.dest.reg)), old(s.seqPc))
        && Target(s) == U32(old(gpr[s.src1.reg]) + old(s.src2.imm)) / 2 * 2
    {
      DifftestSkipDut(1, 2);
      if Funct3(s.instr) == 0 {
        RtlComputeImm(CAdd, S0, Gpr(s.src1.reg), s.src2.imm);
        ClearBitZero(s.s0);
        RtlComputeImm(CAnd, S0, S0, 0xffff_fffe);
        RtlJr(S0);
        RtlLi(Gpr(s.dest.reg), s.seqPc);
      } else {
        dead := true;
      }
    }

    /** The six branch helpers, which differ in the relation. */
    method BranchOn(relop: Relop, ghost c: Cond)
      requires Valid() && BranchOps(s)
      requires forall a: Word, b: Word :: InterpretRelop(relop, a, b) == Holds(c, a, b)
      modifies this, gpr
      ensures Branched(c, old(Snap()), old(s), Snap(), s)
    {
      RtlSetrelop(relop, S0, Gpr(s.src1.reg), Gpr(s.src2.reg));
      if s.s0 == 1 {
        RtlJ(U32(pc + s.dest.imm));
      }
    }

    // ----- ldst.h -----------------------------------------------------------------------------------------------------

    method Ld()
      requires Valid() && RegImm(s)
      modifies this, gpr
      ensures var a := U32(old(gpr[s.src1.reg]) + old(s.src2.imm));
        Wrote(Touch(world, old(Snap()), a), old(s), Snap(), s, Gpr(old(s.dest.reg)), LoadBytes(old(mem), a, old(s.width)))
    {
      RtlLm(Gpr(s.dest.reg), Gpr(s.src1.reg), s.src2.imm, s.width);
    }

    method Lds()
      requires Valid() && RegImm(s) && (s.width == 1 || s.width == 2)
      modifies this, gpr
      ensures var a := U32(old(gpr[s.src1.reg]) + old(s.src2.imm));
        Wrote(Touch(world, old(Snap()), a), old(s), Snap(), s, Gpr(old(s.dest.reg)),
              Extend(LoadBytes(old(mem), a, old(s.width)), old(s.width), true))
    {
      RtlLms(Gpr(s.dest.reg), Gpr(s.src1.reg), s.src2.imm, s.width);
    }

    method St()
      requires Valid() && RegImm(s)
      modifies this
      ensures var a := U32(old(gpr[s.src1.reg]) + old(s.src2.imm));
        && s == old(s) && dead == Touch(world, old(Snap()), a).dead
        && Snap() == Touch(world, old(Snap()), a).(cpu := old(Snap()).cpu.(mem :=
             StoreBytes(old(mem), a, old(gpr[s.dest.reg]), old(s.width))))
    {
      RtlSm(Gpr(s.src1.reg), s.src2.imm, Gpr(s.dest.reg), s.width);
    }

    // ----- special.c ----------------------------------------------------------------------------------------------------

    method ExecInv()
      requires Valid()
      modifies this
      ensures Same(Snap(), Invalid(world, old(Snap())).(cpu := old(Snap()).cpu))
      ensures s == old(s).(seqPc := U32(old(pc) + 8))
    {
      s := s.(seqPc := pc);
      NextWords(pc);
      TouchKeeps(world, Snap(), pc);
      var first := InstrFetch();
      TouchKeeps(world, Snap(), s.seqPc);
      var second := InstrFetch();
      RtlExit(Abort, pc, W - 1);
    }

    method NemuTrap()
      requires Valid()
      modifies this
      ensures Snap() == SkipRef(old(Snap())).(nemu := Status(End, old(pc), old(gpr[10]))) && s == old(s)
    {
      DifftestSkipRef();
      RtlExit(End, pc, gpr[10]);
    }

    // ----- exec.c ----------------------------------------------------------------------------------------------------------

    method SetWidth(width: nat)
      requires Valid()
      modifies this
      ensures Snap() == old(Snap()) && s == old(s).(width := if width != 0 then width else old(s.width))
    {
      if width != 0 {
        s := s.(width := width);
      }
    }

    method InvalidCase()
      requires Valid() && Ready(Snap(), s) && Decode(s.instr).None?
      requires Opcode(s.instr) !in {0x63, 0x67, 0x33, 0x13, 0x6b}
      modifies this
      ensures Performed(world, old(Snap()), old(s), Snap(), s)
    {
      ExecInv();
      hide Performed, Ready, Decode, Opcode;
      InvalidPerformed(world, old(Snap()), old(s), Snap(), s);
    }

    /** One load of the table: its width and its helper. */
    method LoadAs(width: nat, signed: bool)
      requires Valid() && Ready(Snap(), s) && Opcode(s.instr) == 0x03 && s == OperandsI(s)
      requires width == 1 || width == 2 || (width == 4 && !signed)
      requires Decode(s.instr) == Some(RvSpec.Load(width, signed, Rd(s.instr), Rs1(s.instr), ImmI(s.instr)))
      modifies this, gpr
      ensures Performed(world, old(Snap()), old(s), Snap(), s)
    {
      hide Performed, Decode;
      ghost var g := Snap();
      SetWidth(width);
      if signed {
        Lds();
      } else {
        Ld();
      }
      LoadPerformed(world, g, s, Snap(), width, signed);
      SameInstr(world, g, s, old(s), Snap(), s);
    }

    method Load()
      requires Valid() && Ready(Snap(), s) && Opcode(s.instr) == 0x03 && s == OperandsI(s)
      modifies this, gpr
      ensures Performed(world, old(Snap()), old(s), Snap(), s)
    {
      hide Performed, Ready, OperandsI, ImmI;
      match Funct3(s.instr)
      case 0 => LoadAs(1, true);
      case 1 => LoadAs(2, true);
      case 2 => LoadAs(4, false);
      case 4 => LoadAs(1, false);
      case 5 => LoadAs(2, false);
      case _ => InvalidCase();
    }

    method StoreAs(width: nat)
      requires Valid() && Ready(Snap(), s) && Opcode(s.instr) == 0x23 && s == OperandsS(s)
      requires width == 1 || width == 2 || width == 4
      requires Decode(s.instr) == Some(RvSpec.Store(width, Rs1(s.instr), Rs2(s.instr), ImmS(s.instr)))
      modifies this
      ensures Performed(world, old(Snap()), old(s), Snap(), s)
    {
      hide Performed, Decode;
      ghost var g := Snap();
      SetWidth(width);
      St();
      StorePerformed(world, g, s, Snap(), width);
      SameInstr(world, g, s, old(s), Snap(), s);
    }

    method Store()
      requires Valid() && Ready(Snap(), s) && Opcode(s.instr) == 0x23 && s == OperandsS(s)
      modifies this
      ensures Performed(world, old(Snap()), old(s), Snap(), s)
    {
      hide Performed, Ready, OperandsS, ImmS;
      match Funct3(s.instr)
      case 0 => StoreAs(1);
      case 1 => StoreAs(2);
      case 2 => StoreAs(4);
      case _ => InvalidCase();
    }

    /** Every funct3 value has a case. */
    method OpImm()
      requires Valid() && Ready(Snap(), s) && Opcode(s.instr) == 0x13 && s == OperandsI(s)
      modifies this, gpr
      ensures Performed(world, old(Snap()), old(s), Snap(), s)
    {
      ghost var op := ImmOp(s.instr);
      ShiftFields(s.instr);
      hide Performed, Ready, ImmDone, F.OperandI;
      match Funct3(s.instr) {
        case 0 => ComputeImm(ADD);
        case 2 => Slti();
        case 3 => Sltiu();
        case 4 => ComputeImm(XOR);
        case 6 => ComputeImm(OR);
        case 7 => ComputeImm(AND);
        case 1 => Slli();
        case _ => Srlai();
      }
      if op.Some? {
        ImmPerformed(world, old(Snap()), old(s), Snap(), s, op.value.op);
      } else {
        DeadPerformed(world, old(Snap()), old(s), Snap(), s);
      }
    }

    method Op()
      requires Valid() && Ready(Snap(), s) && Opcode(s.instr) == 0x33 && s == OperandsR(s)
      modifies this, gpr
      ensures Performed(world, old(Snap()), old(s), Snap(), s)
    {
      hide Performed, Ready, OpDone;
      match Funct3(s.instr) {
        case 0 => AddSubMul();
        case 2 => SltMulhsu();
        case 3 => SltuMulhu();
        case 4 => XorDiv();
        case 6 => OrRem();
        case 7 => AndRemu();
        case 1 => SllMulh();
        case _ => SrlaDivu();
      }
      OpPerformed(world, old(Snap()), old(s), Snap(), s);
    }

    method Branch()
      requires Valid() && Ready(Snap(), s) && Opcode(s.instr) == 0x63 && s == OperandsB(s)
      modifies this, gpr
      ensures Performed(world, old(Snap()), old(s), Snap(), s)
    {
      ghost var c := CondOf(Funct3(s.instr));
      hide Performed, Ready, Branched;
      match Funct3(s.instr) {
        case 0 => BranchOn(REq, BEQ);
        case 1 => BranchOn(RNe, BNE);
        case 4 => BranchOn(RLt, BLT);
        case 5 => BranchOn(RGe, BGE);
        case 6 => BranchOn(RLtu, BLTU);
        case 7 => BranchOn(RGeu, BGEU);
        case _ =>
      }
      if c.Some? {
        BranchPerformed(world, old(Snap()), old(s), Snap(), s, c.value);
      } else {
        IdlePerformed(world, old(Snap()), old(s), s);
      }
    }

    method JalrCase()
      requires Valid() && Ready(Snap(), s) && Opcode(s.instr) == 0x67 && s == OperandsI(s)
      modifies this, gpr
      ensures Performed(world, old(Snap()), old(s), Snap(), s)
    {
      ghost var defined := Funct3(s.instr) == 0;
      assert !defined ==> Decode(s.instr).None?;
      Jalr();
      hide Performed, Ready, Decode;
      if defined {
        JalrPerformed(world, old(Snap()), old(s), Snap(), s);
      } else {
        DeadPerformed(world, old(Snap()), old(s), Snap(), s);
      }
    }

    /** The dispatch on opcode6_2, each case with its operand decoder. */
    method Dispatch()
      requires Valid() && Ready(Snap(), s) && s.instr % 4 == 3
      modifies this, gpr
      ensures Performed(world, old(Snap()), old(s), Snap(), s)
    {
      ghost var g, d := Snap(), s;
      OpcodeParts(s.instr);
      hide Performed;
      match s.instr / 4 % 0x20 {
        case 0x00 => s := OperandsI(s); Load();
        case 0x04 => s := OperandsI(s); OpImm();
        case 0x19 => s := OperandsI(s); JalrCase();
        case 0x08 => s := OperandsS(s); Store();
        case 0x05 => s := OperandsU(s); Auipc(); UpperPerformed(world, g, s, Snap());
        case 0x0d => s := OperandsU(s); Lui(); UpperPerformed(world, g, s, Snap());
        case 0x0c => s := OperandsR(s); Op();
        case 0x1b => s := OperandsJ(s); ghost var e := s; Jal(); JalPerformed(world, g, e, Snap(), s);
        case 0x18 => s := OperandsB(s); Branch();
        case 0x1a => NemuTrap(); TrapPerformed(world, g, s, Snap());
        case _ => InvalidCase();
      }
    }

    method FetchDecodeExec()
      requires Valid() && !dead && ZeroOk(Snap().cpu) && s.seqPc == pc && !s.isJmp
      modifies this, gpr
      ensures Same(Finish(Snap(), s), Next(world, old(Snap())))
    {
      hide Perform, Decode;
      TouchKeeps(world, Snap(), pc);
      var w := InstrFetch();
      if dead {
        return;
      }
      s := s.(instr := w);
      if w % 4 != 3 {
        dead := true;
        return;
      }
      Dispatch();
    }

    method UpdatePc()
      requires Valid()
      modifies this
      ensures Snap() == SetPc(old(Snap()), Target(s)) && s == old(s)
    {
      pc := if s.isJmp then s.jmpPc else s.seqPc;
    }

    method ResetZero()
      requires Valid()
      modifies this, gpr
      ensures Wrote(old(Snap()), old(s), Snap(), s, Gpr(0), 0)
    {
      Set(Gpr(0), 0);
    }

    /** One instruction: what Next says of every word; and the step that the manual gives the word exactly when it is
        an instruction other than FENCE, ECALL and EBREAK, no jump it takes is misaligned, and it is no mulhsu that goes
        wrong. */
    method IsaExecOnce() returns (seqPc: Word)
      requires Valid() && !dead && ZeroOk(Snap().cpu)
      modifies this, gpr
      ensures Same(Snap(), Next(world, old(Snap())))
      ensures !dead ==> var st := old(Snap()).cpu; var w := Fetched(st);
        (M.Manual(st, w) == M.Done(Snap().cpu)
         <==> Decode(w).Some? && M.Aligned(st, Decode(w).value) && M.MulhsuRight(st, Decode(w).value))
    {
      ghost var g := Snap();
      s := s.(isJmp := false, seqPc := pc);
      hide Next;
      FetchDecodeExec();
      UpdatePc();
      ResetZero();
      seqPc := s.seqPc;
      if !dead {
        hide Decode, M.Manual, M.Aligned, M.MulhsuRight, Fetched;
        M.TakesManualStep(world, g);
      }
    }

    // ----- difftest/dut.c ---------------------------------------------------------------------------------------------------

    method Checkregs(ghost g: Global, thisPc: Word)
      requires Valid() && g == Snap()
      modifies this
      ensures Snap() == CheckRegs(g, thisPc)
    {
      if ref.gpr != gpr[..] || ref.pc != pc {
        nemuState := nemuState.(state := Abort, haltPc := thisPc);
      }
    }

    method DifftestStep(thisPc: Word, nextPc: Word)
      requires Valid()
      modifies this
      ensures Snap() == DiffStep(world, old(Snap()), thisPc, nextPc)
    {
      if skipDutNrInstr > 0 {
        if ref.pc == nextPc {
          Checkregs(Snap(), nextPc);
          skipDutNrInstr := 0;
          return;
        }
        skipDutNrInstr := skipDutNrInstr - 1;
        if skipDutNrInstr == 0 {
          dead := true;
        }
        return;
      }
      if isSkipRef {
        ref := State(gpr[..], pc, ref.mem);
        isSkipRef := false;
        return;
      }
      ref := RefStep(world, ref);
      Checkregs(Snap(), thisPc);
    }

    // ----- cpu-exec.c ---------------------------------------------------------------------------------------------------------

    /** The body of the loop of cpu_exec. */
    method Turn()
      requires Valid() && !dead && ZeroOk(Snap().cpu)
      modifies this, gpr
      ensures Same(Snap(), Cycle(world, old(Snap())))
    {
      var thisPc := pc;
      hide Next, DiffStep;
      var seqPc := IsaExecOnce();
      if !dead {
        DifftestStep(thisPc, pc);
      }
      if !dead {
        nrGuestInstr := nrGuestInstr + 1;
      }
    }

    method CpuExec(n: nat)
      requires Valid() && !dead && ZeroOk(Snap().cpu)
      modifies this, gpr
      ensures Same(Snap(), Run(world, old(Snap()), n))
      ensures !dead ==> ZeroOk(Snap().cpu)
    {
      hide Cycle;
      if nemuState.state.End? || nemuState.state.Abort? {
        return;
      }
      nemuState := nemuState.(state := Running);
      ghost var start := Snap();
      var k := n;
      while k > 0
        invariant !dead && nemuState.state.Running? && ZeroOk(Snap().cpu)
        invariant Loop(world, start, n) == Loop(world, Snap(), k)
        decreases k
      {
        CycleKeeps(world, Snap());
        Turn();
        if dead || !nemuState.state.Running? {
          break;
        }
        k := k - 1;
      }
      if nemuState.state.Running? {
        nemuState := nemuState.(state := Stop);
      }
    }
  }
}

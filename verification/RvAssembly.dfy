/** An assembler for RV32IM from the tables of chapter 24 of the RISC-V Unprivileged ISA, which the decoder inverts. */
module RvAssembly {
  import opened Wrappers
  import opened Bits
  import opened RvSpec
  import opened RvFormat

  function Low(imm: int, half: int): bool {
    -half <= imm < half
  }

  /** The instructions that have an encoding: an immediate has to fit its format. */
  predicate Encodable(i: Instr) {
    InstrOk(i) &&
    match i
    case Lui(_, imm) => 0 <= imm < W && imm % 0x1000 == 0
    case Auipc(_, imm) => 0 <= imm < W && imm % 0x1000 == 0
    case Jal(_, imm) => Low(imm, 0x10_0000) && imm % 2 == 0
    case Jalr(_, _, imm) => Low(imm, 0x800)
    case Branch(_, _, _, imm) => Low(imm, 0x1000) && imm % 2 == 0
    case Load(len, signed, _, _, imm) => Low(imm, 0x800) && (len == 4 ==> !signed)
    case Store(_, _, _, imm) => Low(imm, 0x800)
    case OpImm(op, _, _, imm) =>
      if op.SLL? || op.SRL? || op.SRA? then 0 <= imm < 32
      else Low(imm, 0x800) && (op.ADD? || op.SLT? || op.SLTU? || op.XOR? || op.OR? || op.AND?)
    case Op(_, _, _, _) => true
  }

  function EncodeR(opcode: nat, rd: nat, f3: nat, rs1: nat, rs2: nat, f7: nat): nat {
    opcode + 0x80 * rd + 0x1000 * f3 + 0x8000 * rs1 + 0x10_0000 * rs2 + 0x200_0000 * f7
  }

  function AluFunct3(op: AluOp): (f: nat)
    ensures f < 8
  {
    match op
    case ADD => 0 case SUB => 0 case MUL => 0
    case SLL => 1 case MULH => 1
    case SLT => 2 case MULHSU => 2
    case SLTU => 3 case MULHU => 3
    case XOR => 4 case DIV => 4
    case SRL => 5 case SRA => 5 case DIVU => 5
    case OR => 6 case REM => 6
    case AND => 7 case REMU => 7
  }

  function AluFunct7(op: AluOp): (f: nat)
    ensures f < 0x80
  {
    if op.SUB? || op.SRA? then 0x20
    else if op.MUL? || op.MULH? || op.MULHSU? || op.MULHU? || op.DIV? || op.DIVU? || op.REM? || op.REMU? then 1 else 0
  }

  function CondFunct3(c: Cond): (f: nat)
    ensures f < 8
  {
    match c case BEQ => 0 case BNE => 1 case BLT => 4 case BGE => 5 case BLTU => 6 case BGEU => 7
  }

  function LoadFunct3(len: nat, signed: bool): (f: nat)
    ensures f < 8
  {
    if len == 4 then 2 else (if len == 1 then 0 else 1) + if signed then 0 else 4
  }

  function StoreFunct3(len: nat): (f: nat)
    ensures f < 8
  {
    if len == 1 then 0 else if len == 2 then 1 else 2
  }

  /** The word of an instruction. */
  function Assemble(i: Instr): nat
    requires Encodable(i)
  {
    match i
    case Lui(rd, imm) => EncodeU(0x37, rd, imm)
    case Auipc(rd, imm) => EncodeU(0x17, rd, imm)
    case Jal(rd, imm) => EncodeJ(0x6f, rd, imm)
    case Jalr(rd, rs1, imm) => EncodeI(0x67, rd, 0, rs1, imm)
    case Branch(c, rs1, rs2, imm) => EncodeB(0x63, CondFunct3(c), rs1, rs2, imm)
    case Load(len, signed, rd, rs1, imm) => EncodeI(0x03, rd, LoadFunct3(len, signed), rs1, imm)
    case Store(len, rs1, rs2, imm) => EncodeS(0x23, StoreFunct3(len), rs1, rs2, imm)
    case OpImm(op, rd, rs1, imm) =>
      if op.SLL? || op.SRL? || op.SRA? then EncodeR(0x13, rd, AluFunct3(op), rs1, imm, AluFunct7(op))
      else EncodeI(0x13, rd, AluFunct3(op), rs1, imm)
    case Op(op, rd, rs1, rs2) => EncodeR(0x33, rd, AluFunct3(op), rs1, rs2, AluFunct7(op))
  }

  // ----- the decoder inverts the assembler -------------------------------------------------------------------------

  lemma {:induction false} RoundTripR(opcode: nat, rd: nat, f3: nat, rs1: nat, rs2: nat, f7: nat)
    requires Fields(opcode, f3, rd, rs1) && rs2 < 0x20 && f7 < 0x80
    ensures var w := EncodeR(opcode, rd, f3, rs1, rs2, f7);
      w < W && Opcode(w) == opcode && Rd(w) == rd && Funct3(w) == f3 && Rs1(w) == rs1 && Rs2(w) == rs2 && Funct7(w) == f7
  {
    var w := EncodeR(opcode, rd, f3, rs1, rs2, f7);
    CommonFields(w, opcode, rd, f3, rs1, rs2 + 0x20 * f7);
    UpperFields(w, opcode + 0x80 * rd + 0x1000 * f3 + 0x8000 * rs1, rs2, f7);
    Digit(w, 0x200_0000, 0x80, opcode + 0x80 * rd + 0x1000 * f3 + 0x8000 * rs1 + 0x10_0000 * rs2, f7, 0);
    hide Opcode, Rd, Funct3, Rs1, Rs2;
  }

  /** The operation tables have these inverses. */
  lemma {:induction false} TablesInvert(op: AluOp, c: Cond)
    ensures AluOfFunct(AluFunct7(op), AluFunct3(op)) == Some(op) && CondOf(CondFunct3(c)) == Some(c)
  {
  }

  /** Every instruction is decoded from its word. */
  lemma {:induction false} DecodeInvertsAssemble(i: Instr)
    requires Encodable(i)
    ensures Assemble(i) < W && Decode(Assemble(i)) == Some(i)
  {
    hide EncodeI, EncodeS, EncodeB, EncodeU, EncodeJ, EncodeR, OperandI, OperandS, OperandB, OperandU, OperandJ, U32;
    hide Opcode, Rd, Funct3, Rs1, Rs2, Funct7, ImmI, ImmS, ImmB, ImmU, ImmJ;
    match i
    case Lui(rd, imm) => RoundTripU(0x37, rd, imm);
    case Auipc(rd, imm) => RoundTripU(0x17, rd, imm);
    case Jal(rd, imm) => RoundTripJ(0x6f, rd, imm);
    case Jalr(rd, rs1, imm) => RoundTripI(0x67, rd, 0, rs1, imm);
    case Branch(c, rs1, rs2, imm) =>
      TablesInvert(ADD, c);
      RoundTripB(0x63, CondFunct3(c), rs1, rs2, imm);
    case Load(len, signed, rd, rs1, imm) => RoundTripI(0x03, rd, LoadFunct3(len, signed), rs1, imm);
    case Store(len, rs1, rs2, imm) => RoundTripS(0x23, StoreFunct3(len), rs1, rs2, imm);
    case OpImm(op, rd, rs1, imm) =>
      if op.SLL? || op.SRL? || op.SRA? {
        RoundTripR(0x13, rd, AluFunct3(op), rs1, imm, AluFunct7(op));
      } else {
        RoundTripI(0x13, rd, AluFunct3(op), rs1, imm);
      }
    case Op(op, rd, rs1, rs2) =>
      TablesInvert(op, BEQ);
      RoundTripR(0x33, rd, AluFunct3(op), rs1, rs2, AluFunct7(op));
  }

  // ----- and the other way round -------------------------------------------------------------------------------------

  /** A word is the sum of its fields, in each of the layouts. */
  lemma {:induction false} FieldsOf(w: Word)
    ensures w == EncodeR(Opcode(w), Rd(w), Funct3(w), Rs1(w), Rs2(w), Funct7(w))
    ensures w == Opcode(w) + 0x80 * Rd(w) + 0x1000 * Funct3(w) + 0x8000 * Rs1(w) + 0x10_0000 * (w / 0x10_0000)
    ensures Fields(Opcode(w), Funct3(w), Rd(w), Rs1(w)) && Rs2(w) < 0x20 && Funct7(w) < 0x80 && w / 0x10_0000 < 0x1000
    ensures w / 0x10_0000 == Rs2(w) + 0x20 * Funct7(w)
  {
    var a := w / 0x80;
    var b := a / 0x20;
    var c := b / 8;
    var d := c / 0x20;
    var e := d / 0x20;
    DivDiv(w, 0x80, 0x20);
    DivDiv(w, 0x1000, 8);
    DivDiv(w, 0x8000, 0x20);
    DivDiv(w, 0x10_0000, 0x20);
    assert b == w / 0x1000 && c == w / 0x8000 && d == w / 0x10_0000 && e == w / 0x200_0000;
    assert e < 0x80;
  }

  lemma {:induction false} SignedField(x: nat, half: nat)
    requires x < 2 * half
    ensures Low(SignExtend(x, half), half) && Wrap(SignExtend(x, half), 2 * half) == x
  {
    if x >= half {
      DivModUnique(x - 2 * half, 2 * half, -1, x);
    } else {
      DivModUnique(x, 2 * half, 0, x);
    }
  }

  lemma {:induction false} AgainI(w: Word)
    ensures Low(ImmI(w), 0x800) && EncodeI(Opcode(w), Rd(w), Funct3(w), Rs1(w), ImmI(w)) == w
  {
    FieldsOf(w);
    SignedField(w / 0x10_0000, 0x800);
    hide Opcode, Rd, Funct3, Rs1, Wrap, SignExtend;
    assert w / 0x10_0000 % 0x1000 == w / 0x10_0000;
  }

  lemma {:induction false} AgainS(w: Word)
    ensures Low(ImmS(w), 0x800) && EncodeS(Opcode(w), Funct3(w), Rs1(w), Rs2(w), ImmS(w)) == w
  {
    FieldsOf(w);
    var x := Funct7(w) * 0x20 + Rd(w);
    SignedField(x, 0x800);
    assert x % 0x20 == Rd(w) && x / 0x20 == Funct7(w) by {
      DivModUnique(x, 0x20, Funct7(w), Rd(w));
    }
    assert ImmS(w) == SignExtend(x, 0x800);
    hide Opcode, Funct3, Rs1, Wrap, SignExtend, ImmS, Rs2, Rd, Funct7;
  }

  lemma {:induction false} AgainU(w: Word)
    ensures 0 <= ImmU(w) < W && ImmU(w) % 0x1000 == 0 && EncodeU(Opcode(w), Rd(w), ImmU(w)) == w
  {
    var a := w / 0x80;
    DivDiv(w, 0x80, 0x20);
    assert w / 0x1000 < 0x10_0000;
    assert ImmU(w) / 0x1000 == w / 0x1000;
    assert a == a / 0x20 * 0x20 + a % 0x20;
  }

  lemma {:induction false} BitsOfB(f7: nat, rd: nat)
    requires f7 < 0x80 && rd < 0x20
    ensures var x := f7 / 0x40 * 0x1000 + rd % 2 * 0x800 + f7 % 0x40 * 0x20 + rd / 2 * 2;
      && x < 0x2000 && x % 2 == 0 && x / 0x1000 == f7 / 0x40 && x / 0x800 % 2 == rd % 2
      && x / 0x20 % 0x40 == f7 % 0x40 && x / 2 % 0x10 == rd / 2
  {
    var s, b, c, d := f7 / 0x40, rd % 2, f7 % 0x40, rd / 2;
    var x := s * 0x1000 + b * 0x800 + c * 0x20 + d * 2;
    Digit(x, 2, 0x10, 0, d, c + 0x40 * (b + 2 * s));
    Digit(x, 0x20, 0x40, d * 2, c, b + 2 * s);
    Digit(x, 0x800, 2, d * 2 + c * 0x20, b, s);
    DivModUnique(x, 0x1000, s, d * 2 + c * 0x20 + b * 0x800);
  }

  lemma {:induction false} AgainB(w: Word)
    ensures Low(ImmB(w), 0x1000) && ImmB(w) % 2 == 0 && EncodeB(Opcode(w), Funct3(w), Rs1(w), Rs2(w), ImmB(w)) == w
  {
    FieldsOf(w);
    var f7, rd := Funct7(w), Rd(w);
    var x := f7 / 0x40 * 0x1000 + rd % 2 * 0x800 + f7 % 0x40 * 0x20 + rd / 2 * 2;
    BitsOfB(f7, rd);
    PiecesOfB(w);
    assert ImmB(w) == SignExtend(x, 0x1000);
    SignedField(x, 0x1000);
    hide Opcode, Funct3, Rs1, Wrap, ImmB, Rs2, Rd, Funct7;
    assert SignExtend(x, 0x1000) % 2 == 0;
    assert f7 == f7 / 0x40 * 0x40 + f7 % 0x40 && rd == rd / 2 * 2 + rd % 2;
  }

  lemma {:induction false} PiecesOfB(w: Word)
    ensures w / 0x8000_0000 % 2 == Funct7(w) / 0x40 && w / 0x80 % 2 == Rd(w) % 2
    ensures w / 0x200_0000 % 0x40 == Funct7(w) % 0x40 && w / 0x100 % 0x10 == Rd(w) / 2
  {
    DivDiv(w, 0x200_0000, 0x40);
    DivDiv(w, 0x80, 2);
    var a, b := w / 0x80, w / 0x200_0000;
    assert b < 0x80;
    assert a % 0x20 == a - a / 0x20 * 0x20;
  }

  lemma {:induction false} BitsOfJ(s: nat, b: nat, c: nat, d: nat)
    requires s < 2 && b < 0x100 && c < 2 && d < 0x400
    ensures var x := s * 0x10_0000 + b * 0x1000 + c * 0x800 + d * 2;
      && x < 0x20_0000 && x % 2 == 0 && x / 0x10_0000 == s && x / 0x1000 % 0x100 == b && x / 0x800 % 2 == c && x / 2 % 0x400 == d
  {
    var x := s * 0x10_0000 + b * 0x1000 + c * 0x800 + d * 2;
    Digit(x, 2, 0x400, 0, d, c + 2 * (b + 0x100 * s));
    Digit(x, 0x800, 2, d * 2, c, b + 0x100 * s);
    Digit(x, 0x1000, 0x100, d * 2 + c * 0x800, b, s);
    DivModUnique(x, 0x10_0000, s, d * 2 + c * 0x800 + b * 0x1000);
  }

  lemma {:induction false} AgainJ(w: Word)
    ensures Low(ImmJ(w), 0x10_0000) && ImmJ(w) % 2 == 0 && EncodeJ(Opcode(w), Rd(w), ImmJ(w)) == w
  {
    var s, b, c, d := w / 0x8000_0000 % 2, w / 0x1000 % 0x100, w / 0x10_0000 % 2, w / 0x20_0000 % 0x400;
    var x := s * 0x10_0000 + b * 0x1000 + c * 0x800 + d * 2;
    BitsOfJ(s, b, c, d);
    assert ImmJ(w) == SignExtend(x, 0x10_0000);
    SignedField(x, 0x10_0000);
    PiecesOfJ(w);
    hide Opcode, Wrap, ImmJ, Rd;
    assert SignExtend(x, 0x10_0000) % 2 == 0;
  }

  lemma {:induction false} PiecesOfJ(w: Word)
    ensures w == Opcode(w) + 0x80 * Rd(w) + 0x1000 * (w / 0x1000 % 0x100) + 0x10_0000 * (w / 0x10_0000 % 2)
                 + 0x20_0000 * (w / 0x20_0000 % 0x400) + 0x8000_0000 * (w / 0x8000_0000 % 2)
  {
    DivDiv(w, 0x80, 0x20);
    DivDiv(w, 0x1000, 0x100);
    DivDiv(w, 0x10_0000, 2);
    DivDiv(w, 0x20_0000, 0x400);
    var a, b, c, d, e := w / 0x80, w / 0x1000, w / 0x10_0000, w / 0x20_0000, w / 0x8000_0000;
    assert e < 2 && a == 0x20 * b + a % 0x20 && b == 0x100 * c + b % 0x100 && c == 2 * d + c % 2 && d == 0x400 * e + d % 0x400;
  }

  /** Every word that is decoded is the word of its instruction. */
  lemma {:induction false} AssembleInvertsDecode(w: Word)
    requires Decode(w).Some?
    ensures Encodable(Decode(w).value) && Assemble(Decode(w).value) == w
  {
    AgainI(w);
    AgainS(w);
    AgainU(w);
    AgainB(w);
    AgainJ(w);
    FieldsOf(w);
    hide EncodeI, EncodeS, EncodeB, EncodeU, EncodeJ, Low;
    hide Opcode, Rd, Funct3, Rs1, Rs2, Funct7, ImmI, ImmS, ImmB, ImmU, ImmJ;
    hide EncodeR;
  }
}

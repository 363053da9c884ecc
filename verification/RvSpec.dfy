/** RV32IM as the RISC-V Unprivileged ISA (version 20191213) describes it: chapter 2 and sections
    7.1 and 7.2, without exceptions, FENCE and the SYSTEM opcode, which RvManual adds. */
module RvSpec {
  import opened Wrappers
  import opened Bits
  import opened Octets

  const W: int := 0x1_0000_0000

  type Word = x: int | 0 <= x < 0x1_0000_0000
  type Regs = x: seq<Word> | |x| == 32 witness seq(32, _ => 0)

  /** Memory is a byte per address; bytes never written read as 0. */
  type Memory = map<nat, Byte>

  datatype State = State(gpr: Regs, pc: Word, mem: Memory)

  function U32(x: int): (r: Word)
    ensures 0 <= x < W ==> r == x
  {
    x % W
  }

  function S32(x: Word): int {
    if x < 0x8000_0000 then x else x - W
  }

  /** The low n bits of x as a signed number. */
  function SignExtend(x: nat, half: nat): int {
    if x < half then x else x - 2 * half
  }

  // ----- memory ---------------------------------------------------------------------------------------

  function ByteAt(mem: Memory, a: nat): Byte {
    if a in mem then mem[a] else 0
  }

  /** Little-endian loads and stores of 1, 2 and 4 bytes. */
  function LoadBytes(mem: Memory, a: nat, len: nat): (v: Word)
    ensures len == 1 ==> v < 0x100
    ensures len == 2 ==> v < 0x1_0000
  {
    if len == 1 then ByteAt(mem, a)
    else if len == 2 then ByteAt(mem, a) + 0x100 * ByteAt(mem, a + 1)
    else ByteAt(mem, a) + 0x100 * ByteAt(mem, a + 1) + 0x1_0000 * ByteAt(mem, a + 2) + 0x100_0000 * ByteAt(mem, a + 3)
  }

  function StoreBytes(mem: Memory, a: nat, v: Word, len: nat): Memory {
    if len == 1 then mem[a := v % 0x100]
    else if len == 2 then mem[a := v % 0x100][a + 1 := v / 0x100 % 0x100]
    else mem[a := v % 0x100][a + 1 := v / 0x100 % 0x100][a + 2 := v / 0x1_0000 % 0x100][a + 3 := v / 0x100_0000 % 0x100]
  }

  /** A store is read back, and the bytes of any other address are as they were. */
  lemma {:induction false} StoreThenLoad(mem: Memory, a: nat, v: Word, len: nat, x: nat)
    requires len == 1 || len == 2 || len == 4
    ensures LoadBytes(StoreBytes(mem, a, v, len), a, len) == v % if len == 1 then 0x100 else if len == 2 then 0x1_0000 else W
    ensures !(a <= x < a + len) ==> ByteAt(StoreBytes(mem, a, v, len), x) == ByteAt(mem, x)
    ensures ByteAt(StoreBytes(mem, a, v, len), a) == v % 0x100
  {
    WordBytes(v);
  }

  lemma {:induction false} WordBytes(v: Word)
    ensures v % 0x1_0000 == v % 0x100 + 0x100 * (v / 0x100 % 0x100)
    ensures v % W
         == v % 0x100 + 0x100 * (v / 0x100 % 0x100) + 0x1_0000 * (v / 0x1_0000 % 0x100) + 0x100_0000 * (v / 0x100_0000 % 0x100)
  {
    var q1, q2, q3 := v / 0x100, v / 0x1_0000, v / 0x100_0000;
    assert v == 0x100 * q1 + v % 0x100;
    assert q1 == 0x100 * q2 + q1 % 0x100;
    assert q2 == 0x100 * q3 + q2 % 0x100;
  }

  // ----- formats (section 2.2 and 2.3) -------------------------------------------------------------------

  function Opcode(w: nat): nat { w % 0x80 }
  function Rd(w: nat): nat { w / 0x80 % 0x20 }
  function Funct3(w: nat): nat { w / 0x1000 % 8 }
  function Rs1(w: nat): nat { w / 0x8000 % 0x20 }
  function Rs2(w: nat): nat { w / 0x10_0000 % 0x20 }
  function Funct7(w: nat): nat { w / 0x200_0000 % 0x80 }

  function ImmI(w: nat): int {
    SignExtend(w / 0x10_0000 % 0x1000, 0x800)
  }

  function ImmS(w: nat): int {
    SignExtend(w / 0x200_0000 % 0x80 * 0x20 + w / 0x80 % 0x20, 0x800)
  }

  function ImmB(w: nat): int {
    SignExtend(w / 0x8000_0000 % 2 * 0x1000 + w / 0x80 % 2 * 0x800 + w / 0x200_0000 % 0x40 * 0x20 + w / 0x100 % 0x10 * 2, 0x1000)
  }

  function ImmU(w: nat): int {
    w / 0x1000 % 0x10_0000 * 0x1000
  }

  function ImmJ(w: nat): int {
    SignExtend(w / 0x8000_0000 % 2 * 0x10_0000 + w / 0x1000 % 0x100 * 0x1000 + w / 0x10_0000 % 2 * 0x800
               + w / 0x20_0000 % 0x400 * 2, 0x10_0000)
  }

  // ----- instructions ---------------------------------------------------------------------------------------

  datatype AluOp = ADD | SUB | SLL | SLT | SLTU | XOR | SRL | SRA | OR | AND
                 | MUL | MULH | MULHSU | MULHU | DIV | DIVU | REM | REMU

  datatype Cond = BEQ | BNE | BLT | BGE | BLTU | BGEU

  datatype Instr =
    | Lui(rd: nat, imm: int)
    | Auipc(rd: nat, imm: int)
    | Jal(rd: nat, imm: int)
    | Jalr(rd: nat, rs1: nat, imm: int)
    | Branch(cond: Cond, rs1: nat, rs2: nat, imm: int)
    | Load(len: nat, signed: bool, rd: nat, rs1: nat, imm: int)
    | Store(len: nat, rs1: nat, rs2: nat, imm: int)
    | OpImm(op: AluOp, rd: nat, rs1: nat, imm: int)
    | Op(op: AluOp, rd: nat, rs1: nat, rs2: nat)

  function AluOfFunct(f7: nat, f3: nat): Option<AluOp> {
    if f7 == 0 then
      match f3
      case 0 => Some(ADD) case 1 => Some(SLL) case 2 => Some(SLT) case 3 => Some(SLTU)
      case 4 => Some(XOR) case 5 => Some(SRL) case 6 => Some(OR) case 7 => Some(AND) case _ => None
    else if f7 == 0x20 then
      match f3
      case 0 => Some(SUB) case 5 => Some(SRA) case _ => None
    else if f7 == 1 then
      match f3
      case 0 => Some(MUL) case 1 => Some(MULH) case 2 => Some(MULHSU) case 3 => Some(MULHU)
      case 4 => Some(DIV) case 5 => Some(DIVU) case 6 => Some(REM) case 7 => Some(REMU) case _ => None
    else None
  }

  /** Shifts by an immediate take the amount from the rs2 field and the kind from funct7. */
  function ImmOp(w: nat): Option<Instr> {
    var rd, rs1, imm, f3 := Rd(w), Rs1(w), ImmI(w), Funct3(w);
    if f3 == 1 then (if Funct7(w) == 0 then Some(OpImm(SLL, rd, rs1, Rs2(w))) else None)
    else if f3 == 5 then
      if Funct7(w) == 0 then Some(OpImm(SRL, rd, rs1, Rs2(w)))
      else if Funct7(w) == 0x20 then Some(OpImm(SRA, rd, rs1, Rs2(w))) else None
    else
      Some(OpImm(if f3 == 0 then ADD else if f3 == 2 then SLT else if f3 == 3 then SLTU
                 else if f3 == 4 then XOR else if f3 == 6 then OR else AND, rd, rs1, imm))
  }

  function CondOf(f3: nat): Option<Cond> {
    match f3
    case 0 => Some(BEQ) case 1 => Some(BNE) case 4 => Some(BLT) case 5 => Some(BGE) case 6 => Some(BLTU) case 7 => Some(BGEU)
    case _ => None
  }

  /** Register numbers are five bits and accesses are 1, 2 or 4 bytes long. */
  predicate InstrOk(i: Instr) {
    match i
    case Lui(rd, _) => rd < 32
    case Auipc(rd, _) => rd < 32
    case Jal(rd, _) => rd < 32
    case Jalr(rd, rs1, _) => rd < 32 && rs1 < 32
    case Branch(_, rs1, rs2, _) => rs1 < 32 && rs2 < 32
    case Load(len, _, rd, rs1, _) => rd < 32 && rs1 < 32 && (len == 1 || len == 2 || len == 4)
    case Store(len, rs1, rs2, _) => rs1 < 32 && rs2 < 32 && (len == 1 || len == 2 || len == 4)
    case OpImm(_, rd, rs1, _) => rd < 32 && rs1 < 32
    case Op(_, rd, rs1, rs2) => rd < 32 && rs1 < 32 && rs2 < 32
  }

  /** None for words that are no RV32IM instruction of this part of the ISA. */
  function Decode(w: nat): (r: Option<Instr>)
    ensures r.Some? ==> InstrOk(r.value)
  {
    var opcode, rd, rs1, rs2, f3 := Opcode(w), Rd(w), Rs1(w), Rs2(w), Funct3(w);
    if opcode == 0x37 then Some(Lui(rd, ImmU(w)))
    else if opcode == 0x17 then Some(Auipc(rd, ImmU(w)))
    else if opcode == 0x6f then Some(Jal(rd, ImmJ(w)))
    else if opcode == 0x67 then (if f3 == 0 then Some(Jalr(rd, rs1, ImmI(w))) else None)
    else if opcode == 0x63 then
      var c := CondOf(f3);
      if c.Some? then Some(Branch(c.value, rs1, rs2, ImmB(w))) else None
    else if opcode == 0x03 then
      match f3
      case 0 => Some(Load(1, true, rd, rs1, ImmI(w)))
      case 1 => Some(Load(2, true, rd, rs1, ImmI(w)))
      case 2 => Some(Load(4, false, rd, rs1, ImmI(w)))
      case 4 => Some(Load(1, false, rd, rs1, ImmI(w)))
      case 5 => Some(Load(2, false, rd, rs1, ImmI(w)))
      case _ => None
    else if opcode == 0x23 then
      match f3
      case 0 => Some(Store(1, rs1, rs2, ImmS(w)))
      case 1 => Some(Store(2, rs1, rs2, ImmS(w)))
      case 2 => Some(Store(4, rs1, rs2, ImmS(w)))
      case _ => None
    else if opcode == 0x13 then ImmOp(w)
    else if opcode == 0x33 then
      var op := AluOfFunct(Funct7(w), f3);
      if op.Some? then Some(Op(op.value, rd, rs1, rs2)) else None
    else None
  }

  // ----- arithmetic --------------------------------------------------------------------------------------------

  /** Division that rounds toward zero. */
  function DivTrunc(n: int, d: int): int
    requires d != 0
  {
    if n >= 0 then (if d > 0 then n / d else -(n / -d)) else (if d > 0 then -(-n / d) else -n / -d)
  }

  /** Semantics for division by zero and division overflow: table 7.1 of section 7.2. */
  function Div(n: int, d: int): int {
    if d == 0 then -1 else if n == -0x8000_0000 && d == -1 then -0x8000_0000 else DivTrunc(n, d)
  }

  function Rem(n: int, d: int): int {
    if d == 0 then n else if n == -0x8000_0000 && d == -1 then 0 else n - d * DivTrunc(n, d)
  }

  function Alu(op: AluOp, a: Word, b: Word): Word {
    match op
    case ADD => U32(a + b)
    case SUB => U32(a - b)
    case SLL => U32(a * Pow2(b % 32))
    case SLT => if S32(a) < S32(b) then 1 else 0
    case SLTU => if a < b then 1 else 0
    case XOR => U32(Xor(a, b))
    case SRL => U32(a / Pow2(b % 32))
    case SRA => U32(S32(a) / Pow2(b % 32))
    case OR => U32(Or(a, b))
    case AND => U32(And(a, b))
    case MUL => U32(a * b)
    case MULH => U32(S32(a) * S32(b) / W)
    case MULHSU => U32(S32(a) * b / W)
    case MULHU => U32(a * b / W)
    case DIV => U32(Div(S32(a), S32(b)))
    case DIVU => if b == 0 then W - 1 else U32(a / b)
    case REM => U32(Rem(S32(a), S32(b)))
    case REMU => if b == 0 then a else U32(a % b)
  }

  /** Subtraction undoes addition, the two readings of a word are congruent, and the comparisons order them. */
  lemma {:induction false} AluLaws(a: Word, b: Word)
    ensures Alu(SUB, Alu(ADD, a, b), b) == a && Alu(SUB, 0, Alu(SUB, a, b)) == Alu(SUB, b, a)
    ensures -0x8000_0000 <= S32(a) < 0x8000_0000 && (S32(a) - a) % 0x1_0000_0000 == 0
    ensures Alu(SLT, a, b) == 1 <==> S32(b) - S32(a) > 0
    ensures Alu(SLTU, a, b) == 1 <==> b - a > 0
    ensures Alu(SLT, a, b) < 2 && Alu(SLTU, a, b) < 2
    ensures (Holds(BEQ, a, b) <==> Alu(SUB, a, b) == 0) && (Holds(BNE, a, b) <==> !Holds(BEQ, a, b))
    ensures (Holds(BLT, a, b) <==> Alu(SLT, a, b) == 1) && (Holds(BGE, a, b) <==> !Holds(BLT, a, b))
    ensures (Holds(BLTU, a, b) <==> Alu(SLTU, a, b) == 1) && (Holds(BGEU, a, b) <==> !Holds(BLTU, a, b))
  {
  }

  predicate Holds(c: Cond, a: Word, b: Word) {
    match c
    case BEQ => a == b
    case BNE => a != b
    case BLT => S32(a) < S32(b)
    case BGE => S32(a) >= S32(b)
    case BLTU => a < b
    case BGEU => a >= b
  }

  // ----- one step -------------------------------------------------------------------------------------------------

  /** Register x0 is hardwired to zero. */
  function WriteReg(gpr: Regs, rd: nat, v: Word): Regs
    requires rd < 32
  {
    if rd == 0 then gpr else gpr[rd := v]
  }

  /** A loaded value in a register. */
  function Extend(v: Word, len: nat, signed: bool): Word {
    if !signed then v else if len == 1 then U32(SignExtend(v, 0x80)) else U32(SignExtend(v, 0x8000))
  }

  function Exec(st: State, i: Instr): State
    requires InstrOk(i)
  {
    var x, next := st.gpr, U32(st.pc + 4);
    match i
    case Lui(rd, imm) => State(WriteReg(x, rd, U32(imm)), next, st.mem)
    case Auipc(rd, imm) => State(WriteReg(x, rd, U32(st.pc + imm)), next, st.mem)
    case Jal(rd, imm) => State(WriteReg(x, rd, next), U32(st.pc + imm), st.mem)
    case Jalr(rd, rs1, imm) => State(WriteReg(x, rd, next), U32(x[rs1] + imm) / 2 * 2, st.mem)
    case Branch(c, rs1, rs2, imm) => State(x, if Holds(c, x[rs1], x[rs2]) then U32(st.pc + imm) else next, st.mem)
    case Load(len, signed, rd, rs1, imm) =>
      State(WriteReg(x, rd, Extend(LoadBytes(st.mem, U32(x[rs1] + imm), len), len, signed)), next, st.mem)
    case Store(len, rs1, rs2, imm) => State(x, next, StoreBytes(st.mem, U32(x[rs1] + imm), x[rs2], len))
    case OpImm(op, rd, rs1, imm) => State(WriteReg(x, rd, Alu(op, x[rs1], U32(imm))), next, st.mem)
    case Op(op, rd, rs1, rs2) => State(WriteReg(x, rd, Alu(op, x[rs1], x[rs2])), next, st.mem)
  }

  // ----- invariants of runs -------------------------------------------------------------------------------------------

  lemma {:induction false} StepKeeps(st: State, w: nat)
    requires Decode(w).Some?
    ensures st.gpr[0] == 0 ==> Exec(st, Decode(w).value).gpr[0] == 0
    ensures st.pc % 2 == 0 ==> Exec(st, Decode(w).value).pc % 2 == 0
  {
    BranchTargetsEven(w);
    var i := Decode(w).value;
    ZeroKept(st, i);
    EvenSum(st.pc, 4);
    hide Alu, Extend, LoadBytes, StoreBytes, U32, Holds, Decode, WriteReg;
    match i
    case Jal(_, imm) => EvenSum(st.pc, imm);
    case Branch(_, _, _, imm) => EvenSum(st.pc, imm);
    case _ =>
  }

  lemma {:induction false} ZeroKept(st: State, i: Instr)
    requires InstrOk(i)
    ensures st.gpr[0] == 0 ==> Exec(st, i).gpr[0] == 0
  {
    hide Alu, Extend, LoadBytes, StoreBytes, U32, Holds;
  }

  lemma {:induction false} BranchTargetsEven(w: nat)
    ensures Decode(w).Some? && Decode(w).value.Jal? ==> Decode(w).value.imm % 2 == 0
    ensures Decode(w).Some? && Decode(w).value.Branch? ==> Decode(w).value.imm % 2 == 0
  {
    EvenImm(w / 0x8000_0000 % 2 * 0x8_0000 + w / 0x1000 % 0x100 * 0x800 + w / 0x10_0000 % 2 * 0x400 + w / 0x20_0000 % 0x400, 0x10_0000);
    assert ImmJ(w) % 2 == 0;
    EvenImm(w / 0x8000_0000 % 2 * 0x800 + w / 0x80 % 2 * 0x400 + w / 0x200_0000 % 0x40 * 0x10 + w / 0x100 % 0x10, 0x1000);
    assert ImmB(w) % 2 == 0;
    hide ImmJ, ImmB, ImmI, ImmS, ImmU;
  }

  lemma {:induction false} EvenImm(x: nat, half: nat)
    ensures SignExtend(2 * x, half) % 2 == 0
  {
  }

  lemma {:induction false} EvenSum(pc: nat, imm: int)
    ensures pc % 2 == 0 && imm % 2 == 0 ==> U32(pc + imm) % 2 == 0
  {
  }
}

/** Instruction words as bit-fields: the layouts of include/isa/riscv32.h and the operand decoders of
    local-include/decode.h, against section 2.3 of the RISC-V Unprivileged ISA. */
module RvFormat {
  import opened Bits
  import opened RvSpec

  // ----- the immediates as the decoders build them -------------------------------------------------------

  function OperandI(w: Word): Word {
    U32(SignExtend(w / 0x10_0000 % 0x1000, 0x800))
  }

  function OperandU(w: Word): Word {
    U32(w / 0x1000 % 0x10_0000 * 0x1000)
  }

  /** simm11_5 is a signed bit-field, so the shifted value is or-ed in as a 32-bit two's complement word. */
  function OperandS(w: Word): Word {
    U32(Or(U32(SignExtend(w / 0x200_0000 % 0x80, 0x40) * 0x20), w / 0x80 % 0x20))
  }

  function OperandJ(w: Word): Word {
    U32(Or(Or(Or(U32(U32(SignExtend(w / 0x8000_0000 % 2, 1)) * 0x10_0000), w / 0x1000 % 0x100 * 0x1000),
              w / 0x10_0000 % 2 * 0x800), w / 0x20_0000 % 0x400 * 2))
  }

  function OperandB(w: Word): Word {
    U32(Or(Or(Or(U32(U32(SignExtend(w / 0x8000_0000 % 2, 1)) * 0x1000), w / 0x80 % 2 * 0x800),
              w / 0x200_0000 % 0x40 * 0x20), w / 0x100 % 0x10 * 2))
  }

  /** Or of a multiple of 2^k with a word below 2^k. */
  lemma {:induction false} OrAdds(hi: nat, k: nat, p: nat, lo: nat)
    requires p == Pow2(k) && lo < p
    ensures Or(hi * p, lo) == hi * p + lo
  {
    OrDisjoint(hi, k, lo);
  }

  lemma {:induction false} ShapeS(s: nat, lo: nat)
    requires s < 0x80 && lo < 0x20
    ensures U32(Or(U32(SignExtend(s, 0x40) * 0x20), lo)) == U32(SignExtend(s * 0x20 + lo, 0x800))
  {
    hide Or, Pow2;
    Pow2Values();
    var hi := if s < 0x40 then s else s + 0x7ff_ff80;
    assert U32(SignExtend(s, 0x40) * 0x20) == hi * 0x20;
    OrAdds(hi, 5, 0x20, lo);
  }

  lemma {:induction false} Pow2Eleven()
    ensures Pow2(11) == 0x800
  {
    Pow2Values();
  }

  lemma {:induction false} ShapeJ(s: nat, b: nat, c: nat, d: nat)
    requires s < 2 && b < 0x100 && c < 2 && d < 0x400
    ensures U32(Or(Or(Or(U32(U32(SignExtend(s, 1)) * 0x10_0000), b * 0x1000), c * 0x800), d * 2))
         == U32(SignExtend(s * 0x10_0000 + b * 0x1000 + c * 0x800 + d * 2, 0x10_0000))
  {
    hide Or, Pow2;
    Pow2Values();
    Pow2Eleven();
    var a := if s == 0 then 0 else 0xfff;
    assert U32(U32(SignExtend(s, 1)) * 0x10_0000) == a * 0x10_0000;
    OrAdds(a, 20, 0x10_0000, b * 0x1000);
    OrAdds(a * 0x100 + b, 12, 0x1000, c * 0x800);
    OrAdds(a * 0x200 + b * 2 + c, 11, 0x800, d * 2);
  }

  lemma {:induction false} ShapeB(s: nat, b: nat, c: nat, d: nat)
    requires s < 2 && b < 2 && c < 0x40 && d < 0x10
    ensures U32(Or(Or(Or(U32(U32(SignExtend(s, 1)) * 0x1000), b * 0x800), c * 0x20), d * 2))
         == U32(SignExtend(s * 0x1000 + b * 0x800 + c * 0x20 + d * 2, 0x1000))
  {
    hide Or, Pow2;
    Pow2Values();
    Pow2Eleven();
    var a := if s == 0 then 0 else 0xf_ffff;
    assert U32(U32(SignExtend(s, 1)) * 0x1000) == a * 0x1000;
    OrAdds(a, 12, 0x1000, b * 0x800);
    OrAdds(a * 2 + b, 11, 0x800, c * 0x20);
    OrAdds(a * 0x80 + b * 0x40 + c, 5, 0x20, d * 2);
  }

  lemma {:induction false} JumpOperand(w: Word)
    ensures OperandJ(w) == U32(ImmJ(w))
  {
    ShapeJ(w / 0x8000_0000 % 2, w / 0x1000 % 0x100, w / 0x10_0000 % 2, w / 0x20_0000 % 0x400);
    hide Or, U32, SignExtend;
  }

  lemma {:induction false} BranchOperand(w: Word)
    ensures OperandB(w) == U32(ImmB(w))
  {
    ShapeB(w / 0x8000_0000 % 2, w / 0x80 % 2, w / 0x200_0000 % 0x40, w / 0x100 % 0x10);
    hide Or, U32, SignExtend;
  }

  /** The or-chains of the decoders are the immediates of the ISA, as 32-bit words. */
  lemma {:induction false} DecodersAgree(w: Word)
    ensures OperandI(w) == U32(ImmI(w)) && OperandU(w) == U32(ImmU(w)) && OperandS(w) == U32(ImmS(w))
    ensures OperandJ(w) == U32(ImmJ(w)) && OperandB(w) == U32(ImmB(w))
  {
    JumpOperand(w);
    BranchOperand(w);
    hide OperandJ, OperandB, ImmJ, ImmB;
    ShapeS(w / 0x200_0000 % 0x80, w / 0x80 % 0x20);
    hide Or, U32, SignExtend;
  }

  // ----- encoding -------------------------------------------------------------------------------------------

  /** The low bits of an immediate, two's complement. */
  function Wrap(imm: int, m: nat): nat
    requires m > 0
  {
    imm % m
  }

  function EncodeI(opcode: nat, rd: nat, f3: nat, rs1: nat, imm: int): nat {
    opcode + 0x80 * rd + 0x1000 * f3 + 0x8000 * rs1 + 0x10_0000 * Wrap(imm, 0x1000)
  }

  function EncodeS(opcode: nat, f3: nat, rs1: nat, rs2: nat, imm: int): nat {
    var u := Wrap(imm, 0x1000);
    opcode + 0x80 * (u % 0x20) + 0x1000 * f3 + 0x8000 * rs1 + 0x10_0000 * rs2 + 0x200_0000 * (u / 0x20)
  }

  function EncodeB(opcode: nat, f3: nat, rs1: nat, rs2: nat, imm: int): nat {
    var u := Wrap(imm, 0x2000);
    opcode + 0x80 * (u / 0x800 % 2) + 0x100 * (u / 2 % 0x10) + 0x1000 * f3 + 0x8000 * rs1 + 0x10_0000 * rs2
    + 0x200_0000 * (u / 0x20 % 0x40) + 0x8000_0000 * (u / 0x1000)
  }

  function EncodeU(opcode: nat, rd: nat, imm: nat): nat {
    opcode + 0x80 * rd + imm / 0x1000 * 0x1000
  }

  function EncodeJ(opcode: nat, rd: nat, imm: int): nat {
    var u := Wrap(imm, 0x20_0000);
    opcode + 0x80 * rd + 0x1000 * (u / 0x1000 % 0x100) + 0x10_0000 * (u / 0x800 % 2) + 0x20_0000 * (u / 2 % 0x400)
    + 0x8000_0000 * (u / 0x10_0000)
  }

  predicate Fields(opcode: nat, f3: nat, a: nat, b: nat) {
    opcode < 0x80 && f3 < 8 && a < 0x20 && b < 0x20
  }

  /** A field in the middle of a word. */
  lemma {:induction false} Digit(x: nat, p: nat, q: nat, lo: nat, b: nat, hi: nat)
    requires p > 0 && q > 0 && lo < p && b < q && x == lo + p * (b + q * hi)
    ensures x / p % q == b
  {
    DivModUnique(x, p, b + q * hi, lo);
    DivModUnique(b + q * hi, q, hi, b);
  }

  /** The fields that have the same place in the formats that own them. */
  lemma {:induction false} CommonFields(w: nat, a: nat, b: nat, c: nat, d: nat, e: nat)
    requires Fields(a, c, b, d) && w == a + 0x80 * b + 0x1000 * c + 0x8000 * d + 0x10_0000 * e
    ensures Opcode(w) == a && Rd(w) == b && Funct3(w) == c && Rs1(w) == d && w / 0x10_0000 == e
  {
    Digit(w, 1, 0x80, 0, a, b + 0x20 * c + 0x100 * d + 0x2000 * e);
    Digit(w, 0x80, 0x20, a, b, c + 8 * d + 0x100 * e);
    Digit(w, 0x1000, 8, a + 0x80 * b, c, d + 0x20 * e);
    Digit(w, 0x8000, 0x20, a + 0x80 * b + 0x1000 * c, d, e);
    DivModUnique(w, 0x10_0000, e, a + 0x80 * b + 0x1000 * c + 0x8000 * d);
  }

  lemma {:induction false} WrapSigned(imm: int, half: nat)
    requires half > 0 && 0 <= imm + half < 2 * half
    ensures SignExtend(Wrap(imm, 2 * half), half) == imm
  {
    if imm < 0 {
      DivModUnique(imm, 2 * half, -1, imm + 2 * half);
    } else {
      DivModUnique(imm, 2 * half, 0, imm);
    }
  }

  /** Encoding a representable immediate and decoding the word gives back every field. */
  lemma {:induction false} RoundTripI(opcode: nat, rd: nat, f3: nat, rs1: nat, imm: int)
    requires Fields(opcode, f3, rd, rs1) && -0x800 <= imm < 0x800
    ensures var w := EncodeI(opcode, rd, f3, rs1, imm);
      w < W && Opcode(w) == opcode && Rd(w) == rd && Funct3(w) == f3 && Rs1(w) == rs1 && OperandI(w) == U32(imm) && ImmI(w) == imm
  {
    hide Opcode, Rd, Funct3, Rs1, U32;
    var w, u := EncodeI(opcode, rd, f3, rs1, imm), Wrap(imm, 0x1000);
    WrapSigned(imm, 0x800);
    hide SignExtend;
    assert w < W && w == opcode + 0x80 * rd + 0x1000 * f3 + 0x8000 * rs1 + 0x10_0000 * u;
    CommonFields(w, opcode, rd, f3, rs1, u);
    hide Wrap, EncodeI;
  }

  lemma {:induction false} RoundTripS(opcode: nat, f3: nat, rs1: nat, rs2: nat, imm: int)
    requires Fields(opcode, f3, rs1, rs2) && -0x800 <= imm < 0x800
    ensures var w := EncodeS(opcode, f3, rs1, rs2, imm);
      w < W && Opcode(w) == opcode && Funct3(w) == f3 && Rs1(w) == rs1 && Rs2(w) == rs2 && OperandS(w) == U32(imm) && ImmS(w) == imm
  {
    var w, u := EncodeS(opcode, f3, rs1, rs2, imm), imm % 0x1000;
    var x, y := u % 0x20, u / 0x20;
    StoreFields(w, opcode, x, f3, rs1, rs2, y);
    hide Or, U32, SignExtend, Opcode, Funct3, Rs1, Rs2;
    ShapeS(y, x);
    WrapSigned(imm, 0x800);
  }

  /** A word in the S layout, from its pieces. */
  lemma {:induction false} StoreFields(w: nat, a: nat, x: nat, c: nat, d: nat, e: nat, y: nat)
    requires Fields(a, c, d, e) && x < 0x20 && y < 0x80
    requires w == a + 0x80 * x + 0x1000 * c + 0x8000 * d + 0x10_0000 * e + 0x200_0000 * y
    ensures w < W && Opcode(w) == a && Funct3(w) == c && Rs1(w) == d && Rs2(w) == e
    ensures w / 0x80 % 0x20 == x && w / 0x200_0000 % 0x80 == y
  {
    CommonFields(w, a, x, c, d, e + 0x20 * y);
    UpperFields(w, a + 0x80 * x + 0x1000 * c + 0x8000 * d, e, y);
    hide Opcode, Funct3, Rs1, Rs2;
  }

  lemma {:induction false} UpperFields(w: nat, lo: nat, b: nat, hi: nat)
    requires lo < 0x10_0000 && b < 0x20 && hi < 0x80 && w == lo + 0x10_0000 * b + 0x200_0000 * hi
    ensures Rs2(w) == b && w / 0x200_0000 == hi && w < W
  {
    Digit(w, 0x10_0000, 0x20, lo, b, hi);
    DivModUnique(w, 0x200_0000, hi, lo + 0x10_0000 * b);
  }

  /** A word in the B layout, from its pieces. */
  lemma {:induction false} BranchFields(w: nat, a: nat, x: nat, z: nat, c: nat, d: nat, e: nat, y: nat, s: nat)
    requires Fields(a, c, d, e) && x < 2 && z < 0x10 && y < 0x40 && s < 2
    requires w == a + 0x80 * x + 0x100 * z + 0x1000 * c + 0x8000 * d + 0x10_0000 * e + 0x200_0000 * y + 0x8000_0000 * s
    ensures w < W && Opcode(w) == a && Funct3(w) == c && Rs1(w) == d && Rs2(w) == e
    ensures w / 0x8000_0000 % 2 == s && w / 0x80 % 2 == x && w / 0x200_0000 % 0x40 == y && w / 0x100 % 0x10 == z
  {
    CommonFields(w, a, x + 2 * z, c, d, e + 0x20 * (y + 0x40 * s));
    hide Opcode, Funct3, Rs1;
    var lo := a + 0x80 * x + 0x100 * z + 0x1000 * c + 0x8000 * d;
    Digit(w, 0x10_0000, 0x20, lo, e, y + 0x40 * s);
    Digit(w, 0x200_0000, 0x40, lo + 0x10_0000 * e, y, s);
    Digit(w, 0x8000_0000, 2, lo + 0x10_0000 * e + 0x200_0000 * y, s, 0);
    Digit(w, 0x80, 2, a, x, z + 0x10 * (c + 8 * (d + 0x20 * (e + 0x20 * (y + 0x40 * s)))));
    Digit(w, 0x100, 0x10, a + 0x80 * x, z, c + 8 * (d + 0x20 * (e + 0x20 * (y + 0x40 * s))));
  }

  lemma {:induction false} RoundTripB(opcode: nat, f3: nat, rs1: nat, rs2: nat, imm: int)
    requires Fields(opcode, f3, rs1, rs2) && -0x1000 <= imm < 0x1000 && imm % 2 == 0
    ensures var w := EncodeB(opcode, f3, rs1, rs2, imm);
      w < W && Opcode(w) == opcode && Funct3(w) == f3 && Rs1(w) == rs1 && Rs2(w) == rs2 && OperandB(w) == U32(imm) && ImmB(w) == imm
  {
    var w, u := EncodeB(opcode, f3, rs1, rs2, imm), imm % 0x2000;
    BranchParts(imm, u);
    var s, x, y, z := u / 0x1000, u / 0x800 % 2, u / 0x20 % 0x40, u / 2 % 0x10;
    BranchFields(w, opcode, x, z, f3, rs1, rs2, y, s);
    hide Or, U32, SignExtend, Opcode, Funct3, Rs1, Rs2;
    ShapeB(s, x, y, z);
    WrapSigned(imm, 0x1000);
  }

  /** The pieces a branch offset is cut into. */
  lemma {:induction false} BranchParts(imm: int, u: nat)
    requires imm % 2 == 0 && u == imm % 0x2000
    ensures u / 0x1000 < 2
    ensures u == u / 0x1000 * 0x1000 + u / 0x800 % 2 * 0x800 + u / 0x20 % 0x40 * 0x20 + u / 2 % 0x10 * 2
  {
    var v := u / 2;
    DivDiv(u, 2, 0x10);
    DivDiv(u, 2, 0x400);
    DivDiv(u, 2, 0x800);
    DivDiv(v, 0x10, 0x40);
    DivDiv(v, 0x400, 2);
  }

  lemma {:induction false} RoundTripU(opcode: nat, rd: nat, imm: nat)
    requires Fields(opcode, 0, rd, 0) && imm < W && imm % 0x1000 == 0
    ensures var w := EncodeU(opcode, rd, imm); w < W && Opcode(w) == opcode && Rd(w) == rd && OperandU(w) == imm && ImmU(w) == imm
  {
    var w, m := EncodeU(opcode, rd, imm), imm / 0x1000;
    Digit(w, 1, 0x80, 0, opcode, rd + 0x20 * m);
    Digit(w, 0x80, 0x20, opcode, rd, m);
    DivModUnique(w, 0x1000, m, opcode + 0x80 * rd);
  }

  /** A word in the J layout, from its pieces. */
  lemma {:induction false} JumpFields(w: nat, a: nat, b: nat, x: nat, y: nat, z: nat, s: nat)
    requires a < 0x80 && b < 0x20 && x < 0x100 && y < 2 && z < 0x400 && s < 2
    requires w == a + 0x80 * b + 0x1000 * x + 0x10_0000 * y + 0x20_0000 * z + 0x8000_0000 * s
    ensures w < W && Opcode(w) == a && Rd(w) == b
    ensures w / 0x8000_0000 % 2 == s && w / 0x1000 % 0x100 == x && w / 0x10_0000 % 2 == y && w / 0x20_0000 % 0x400 == z
  {
    Digit(w, 1, 0x80, 0, a, b + 0x20 * (x + 0x100 * (y + 2 * (z + 0x400 * s))));
    Digit(w, 0x80, 0x20, a, b, x + 0x100 * (y + 2 * (z + 0x400 * s)));
    Digit(w, 0x1000, 0x100, a + 0x80 * b, x, y + 2 * (z + 0x400 * s));
    Digit(w, 0x10_0000, 2, a + 0x80 * b + 0x1000 * x, y, z + 0x400 * s);
    Digit(w, 0x20_0000, 0x400, a + 0x80 * b + 0x1000 * x + 0x10_0000 * y, z, s);
    Digit(w, 0x8000_0000, 2, a + 0x80 * b + 0x1000 * x + 0x10_0000 * y + 0x20_0000 * z, s, 0);
  }

  lemma {:induction false} RoundTripJ(opcode: nat, rd: nat, imm: int)
    requires Fields(opcode, 0, rd, 0) && -0x10_0000 <= imm < 0x10_0000 && imm % 2 == 0
    ensures var w := EncodeJ(opcode, rd, imm); w < W && Opcode(w) == opcode && Rd(w) == rd && OperandJ(w) == U32(imm) && ImmJ(w) == imm
  {
    var w, u := EncodeJ(opcode, rd, imm), imm % 0x20_0000;
    JumpParts(imm, u);
    var s, x, y, z := u / 0x10_0000, u / 0x1000 % 0x100, u / 0x800 % 2, u / 2 % 0x400;
    JumpFields(w, opcode, rd, x, y, z, s);
    hide Or, U32, SignExtend, Opcode, Rd;
    ShapeJ(s, x, y, z);
    WrapSigned(imm, 0x10_0000);
  }

  lemma {:induction false} JumpParts(imm: int, u: nat)
    requires imm % 2 == 0 && u == imm % 0x20_0000
    ensures u / 0x10_0000 < 2
    ensures u == u / 0x10_0000 * 0x10_0000 + u / 0x1000 % 0x100 * 0x1000 + u / 0x800 % 2 * 0x800 + u / 2 % 0x400 * 2
  {
    var v := u / 2;
    assert u == 2 * v;
    assert v == v / 0x400 * 0x400 + v % 0x400;
    assert v / 0x400 == v / 0x800 * 2 + v / 0x400 % 2;
    assert v / 0x800 == v / 0x8_0000 * 0x100 + v / 0x800 % 0x100;
  }
}

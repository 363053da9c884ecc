/** The word operators of the interpreter (engine/interpreter/c_op.h) and the arithmetic the RV32IM helpers
    build from them (exec/compute.h), against the arithmetic of the ISA. */
module RvArith {
  import opened Bits
  import opened RvSpec
  import opened Division

  datatype COp = CAdd | CSub | CAnd | COr | CXor | CShl | CShr | CSar
               | CMulLo | CMulHi | CImulHi | CDivQ | CDivR | CIdivQ | CIdivR

  /** Division is defined in C for a divisor other than zero and, signed, when the quotient fits. */
  predicate Defined(op: COp, a: Word, b: Word) {
    && (op.CDivQ? || op.CDivR? ==> b != 0)
    && (op.CIdivQ? || op.CIdivR? ==> b != 0 && !(a == 0x8000_0000 && b == W - 1))
  }

  function Compute(op: COp, a: Word, b: Word): Word
    requires Defined(op, a, b)
  {
    match op
    case CAdd => U32(a + b)
    case CSub => U32(a - b)
    case CAnd => U32(And(a, b))
    case COr => U32(Or(a, b))
    case CXor => U32(Xor(a, b))
    case CShl => U32(a * Pow2(And(b, 0x1f)))
    case CShr => U32(a / Pow2(And(b, 0x1f)))
    case CSar => U32(S32(a) / Pow2(And(b, 0x1f)))
    case CMulLo => U32(a * b)
    case CMulHi => U32(a * b / W)
    case CImulHi => U32(S32(a) * S32(b) / W)
    case CDivQ => U32(a / b)
    case CDivR => U32(a % b)
    case CIdivQ => U32(TruncDiv(S32(a), S32(b)))
    case CIdivR => U32(TruncMod(S32(a), S32(b)))
  }

  datatype Relop = RFalse | RTrue | REq | RNe | RLt | RLe | RGt | RGe | RLtu | RLeu | RGtu | RGeu

  predicate InterpretRelop(relop: Relop, a: Word, b: Word) {
    match relop
    case RFalse => false
    case RTrue => true
    case REq => a == b
    case RNe => a != b
    case RLt => S32(a) < S32(b)
    case RLe => S32(a) <= S32(b)
    case RGt => S32(a) > S32(b)
    case RGe => S32(a) >= S32(b)
    case RLtu => a < b
    case RLeu => a <= b
    case RGtu => a > b
    case RGeu => a >= b
  }

  /** On equal words equality holds, and the orders compare the integers the words stand for. */
  lemma {:induction false} RelopsOrder(a: Word, b: Word)
    ensures !InterpretRelop(RFalse, a, b) && InterpretRelop(RTrue, a, b)
    ensures (InterpretRelop(REq, a, b) <==> a - b == 0) && (InterpretRelop(RNe, a, b) <==> !InterpretRelop(REq, a, b))
    ensures (InterpretRelop(RLt, a, b) <==> S32(b) - S32(a) > 0) && (InterpretRelop(RLtu, a, b) <==> b - a > 0)
    ensures (InterpretRelop(RGt, a, b) <==> InterpretRelop(RLt, b, a)) && (InterpretRelop(RGtu, a, b) <==> InterpretRelop(RLtu, b, a))
    ensures (InterpretRelop(RGe, a, b) <==> !InterpretRelop(RLt, a, b)) && (InterpretRelop(RGeu, a, b) <==> !InterpretRelop(RLtu, a, b))
    ensures (InterpretRelop(RLe, a, b) <==> !InterpretRelop(RLt, b, a)) && (InterpretRelop(RLeu, a, b) <==> !InterpretRelop(RLtu, b, a))
  {
  }

  // ----- shifts -------------------------------------------------------------------------------------------

  lemma {:induction false} ShiftAmount(b: Word)
    ensures And(b, 0x1f) == b % 32
  {
    AndMask(b, 5);
    Pow2Values();
  }

  // ----- section 7.2 ------------------------------------------------------------------------------------------

  /** Truncating division by its defining property. */
  lemma {:induction false} DivisionCharacterised(n: int, d: int, q: int, r: int)
    requires d != 0 && n == q * d + r && Abs(r) < Abs(d) && (r == 0 || (r < 0 <==> n < 0))
    ensures q == DivTrunc(n, d)
  {
    if n >= 0 && d > 0 {
      DivModUnique(n, d, q, r);
    } else if n >= 0 {
      DivModUnique(n, -d, -q, r);
    } else if d > 0 {
      assert -n == (-q) * d + (-r);
      DivModUnique(-n, d, -q, -r);
    } else {
      assert -n == q * (-d) + (-r);
      DivModUnique(-n, -d, q, -r);
    }
  }

  /** The remainder has the sign of the dividend and is smaller than the divisor. */
  lemma {:induction false} TruncatingDivision(n: int, d: int)
    requires d != 0
    ensures var r := n - d * DivTrunc(n, d);
      Abs(r) < Abs(d) && (r == 0 || (r < 0 <==> n < 0))
  {
    var q := DivTrunc(n, d);
    if n >= 0 && d > 0 {
      assert n == q * d + n % d;
    } else if n >= 0 {
      assert n == (-q) * (-d) + n % -d;
      SignsCancel(q, d);
    } else if d > 0 {
      assert -n == (-q) * d + -n % d;
      SignsCancel(q, d);
    } else {
      assert -n == q * (-d) + -n % -d;
      SignsCancel(q, d);
    }
  }

  lemma {:induction false} SignsCancel(q: int, d: int)
    ensures (-q) * (-d) == q * d == d * q && (-q) * d == -(q * d) == q * (-d)
  {
  }

  lemma {:induction false} CDivisionAgrees(n: int, d: int)
    requires d != 0
    ensures TruncDiv(n, d) == DivTrunc(n, d) && TruncMod(n, d) == n - d * DivTrunc(n, d)
  {
    CDivides(n, d, Abs(n) / Abs(d), Abs(n) % Abs(d));
    var q, r := TruncDiv(n, d), TruncMod(n, d);
    assert Abs(r) < Abs(d) && (r == 0 || (r < 0 <==> n < 0));
    hide TruncDiv, TruncMod, DivTrunc;
    DivisionCharacterised(n, d, q, r);
  }

  lemma {:induction false} CDivides(n: int, d: int, t: int, u: int)
    requires d != 0 && Abs(n) == t * Abs(d) + u
    ensures n == (if (n < 0) == (d < 0) then t else -t) * d + (if n < 0 then -u else u)
    ensures d * (if (n < 0) == (d < 0) then t else -t) == (if (n < 0) == (d < 0) then t else -t) * d
  {
    SignsCancel(t, d);
  }

  lemma {:induction false} CongruentWords(x: int, y: int, k: int)
    requires x == y + k * W
    ensures U32(x) == U32(y)
  {
    DivModUnique(x, W, y / W + k, y % W);
  }

  lemma {:induction false} SignedIsCongruent(a: Word)
    ensures U32(S32(a)) == a
  {
  }

  lemma {:induction false} DivRemInt(a: int, b: int)
    ensures Div(a, b) * b + Rem(a, b) == if a == -0x8000_0000 && b == -1 then 0x8000_0000 else a
  {
    if b != 0 {
      SignsCancel(DivTrunc(a, b), b);
    }
  }

  /** Reducing the factors and the summand modulo 2^32 first does not change the result. */
  lemma {:induction false} MultiplyAddWraps(q: int, b: int, r: int, d: Word)
    requires U32(b) == d
    ensures U32(U32(q) * d + U32(r)) == U32(q * b + r)
  {
    var kq, kb, kr := q / W, b / W, r / W;
    assert U32(q) == q - kq * W && d == b - kb * W && U32(r) == r - kr * W;
    hide U32;
    Regroup(q, b, r, kq, -kb, kr);
    CongruentWords(U32(q) * d + U32(r), q * b + r, q * -kb - kq * b - kq * -kb * W - kr);
  }

  /** q * d + r == n modulo 2^32 for all operands, signed and unsigned, with a zero divisor and with the
      overflowing quotient. */
  lemma {:induction false} DivideThenMultiply(n: Word, d: Word)
    ensures U32(Alu(DIV, n, d) * d + Alu(REM, n, d)) == n
    ensures U32(Alu(DIVU, n, d) * d + Alu(REMU, n, d)) == n
  {
    var a, b := S32(n), S32(d);
    SignedIsCongruent(n);
    SignedIsCongruent(d);
    DivRemInt(a, b);
    MultiplyAddWraps(Div(a, b), b, Rem(a, b), d);
    UnsignedDivision(n, d);
    hide Div, Rem;
  }

  lemma {:induction false} UnsignedDivision(n: Word, d: Word)
    ensures Alu(DIVU, n, d) * d + Alu(REMU, n, d) == n
  {
    hide U32;
    if d != 0 {
      QuotientBound(n, d);
      assert n == n / d * d + n % d;
    }
  }

  lemma {:induction false} Regroup(q: int, b: int, r: int, kq: int, kd: int, kr: int)
    ensures (q - kq * W) * (b + kd * W) + (r - kr * W) == q * b + r + (q * kd - kq * b - kq * kd * W - kr) * W
  {
  }

  // ----- section 7.1 -----------------------------------------------------------------------------------------------

  /** The two halves of each product put together are the exact 64-bit product. */
  lemma {:induction false} ExactProduct(a: Word, b: Word)
    ensures Alu(MULHU, a, b) * W + Alu(MUL, a, b) == a * b
    ensures S32(Alu(MULH, a, b)) * W + Alu(MUL, a, b) == S32(a) * S32(b)
    ensures S32(Alu(MULHSU, a, b)) * W + Alu(MUL, a, b) == S32(a) * b
  {
    var x, y := S32(a), S32(b);
    HighHalf(a, b);
    SignedProductRange(x, y);
    SignedProductRange(x, b);
    var ka, kb := (if a == x then 0 else 1), (if b == y then 0 else 1);
    Regroup(x, y, 0, 0, kb, 0);
    assert a == x + ka * W && b == y + kb * W;
    assert a * b == x * y + (x * kb + ka * y + ka * kb * W) * W by { Expand(x, y, ka, kb); }
    CongruentWords(a * b, x * y, x * kb + ka * y + ka * kb * W);
    assert a * b == x * b + (ka * b) * W by { Expand(x, b, ka, 0); }
    CongruentWords(a * b, x * b, ka * b);
    SignedHigh(x * y);
    SignedHigh(x * b);
  }

  lemma {:induction false} Expand(x: int, y: int, ka: int, kb: int)
    ensures (x + ka * W) * (y + kb * W) == x * y + (x * kb + ka * y + ka * kb * W) * W
  {
  }

  lemma {:induction false} HighHalf(a: Word, b: Word)
    ensures 0 <= a * b / W < W && a * b == a * b / W * W + a * b % W
  {
    ProductRange(a, b);
    DivideByW(a * b);
  }

  lemma {:induction false} ProductRange(a: Word, b: Word)
    ensures 0 <= a * b < W * W
  {
    MulMono(0, a, b);
    MulMono(a, 0xffff_ffff, b);
    assert 0xffff_ffff * b <= 0xffff_ffff * 0xffff_ffff;
  }

  lemma {:induction false} DivideByW(p: int)
    requires 0 <= p < W * W
    ensures 0 <= p / W < W && p == p / W * W + p % W
  {
  }

  lemma {:induction false} SignedProductRange(x: int, y: int)
    requires -0x8000_0000 <= x < 0x8000_0000 && -0x8000_0000 <= y < W
    ensures -0x8000_0000 * W <= x * y < 0x8000_0000 * W
  {
    if y >= 0 {
      MulMono(x, 0x8000_0000, y);
      MulMono(-0x8000_0000, x, y);
    } else {
      MulMono(-x, 0x8000_0000, -y);
      MulMono(x, 0x8000_0000, -y);
      SignsCancel(x, y);
    }
  }

  lemma {:induction false} SignedHigh(p: int)
    requires -0x8000_0000 * W <= p < 0x8000_0000 * W
    ensures S32(U32(p / W)) * W + U32(p) == p
  {
    assert p == p / W * W + p % W;
    assert -0x8000_0000 <= p / W < 0x8000_0000;
  }

  /** What the slt_mulhsu helper computes for mulhsu. */
  function MulhsuAsBuilt(a: Word, b: Word): Word {
    Compute(CAdd, Compute(CMulHi, a, b), Compute(CMulHi, W - 1, b))
  }

  /** Its second term is -1 * rs2 whatever the sign of rs1, so it meets section 7.1 only on these operands. */
  lemma {:induction false} MulhsuExactlyWhen(a: Word, b: Word)
    ensures MulhsuAsBuilt(a, b) == Alu(MULHSU, a, b) <==> b == 0 || (b == 1 && a < 0x8000_0000)
  {
    HighHalf(a, b);
    var h := a * b / W;
    if b == 0 {
      assert a * b == 0 && S32(a) * b == 0 && (W - 1) * b == 0;
    } else {
      assert (W - 1) * b == (b - 1) * W + (W - b);
      DivModUnique((W - 1) * b, W, b - 1, W - b);
      assert MulhsuAsBuilt(a, b) == U32(h + b - 1);
      if a < 0x8000_0000 {
        assert Alu(MULHSU, a, b) == h;
      } else {
        assert S32(a) * b == a * b - b * W;
        DivModUnique(S32(a) * b, W, h - b, a * b % W);
        assert Alu(MULHSU, a, b) == U32(h - b);
        Odd(h, b);
      }
    }
  }

  lemma {:induction false} Odd(h: nat, b: Word)
    requires h < W && b > 0
    ensures U32(h + b - 1) != U32(h - b)
  {
  }

  /** An operand pair on which it differs: the high word of 1 * 2 is 0. */
  lemma {:induction false} MulhsuDiffers()
    ensures MulhsuAsBuilt(1, 2) == 1 && Alu(MULHSU, 1, 2) == 0
  {
  }

  // ----- the helpers compute the ISA's results --------------------------------------------------------------------------

  /** The C operator a helper applies for each instruction; for div, divu, rem and remu after the tests for a
      zero divisor and overflow. */
  function OpOf(op: AluOp): COp {
    match op
    case ADD => CAdd case SUB => CSub case SLL => CShl case SRL => CShr case SRA => CSar
    case XOR => CXor case OR => COr case AND => CAnd
    case MUL => CMulLo case MULH => CImulHi case MULHU => CMulHi
    case DIV => CIdivQ case DIVU => CDivQ case REM => CIdivR case REMU => CDivR
    case _ => CAdd
  }

  lemma {:induction false} HelperComputes(op: AluOp, a: Word, b: Word)
    requires !op.SLT? && !op.SLTU? && !op.MULHSU?
    requires Defined(OpOf(op), a, b)
    ensures Compute(OpOf(op), a, b) == Alu(op, a, b)
  {
    ShiftAmount(b);
    hide And, Or, Xor, Pow2;
    if op.DIV? || op.REM? {
      CDivisionAgrees(S32(a), S32(b));
      hide TruncDiv, TruncMod, DivTrunc;
    }
  }

  lemma {:induction false} SpecialDivision(a: Word, b: Word)
    ensures b == 0 ==> Alu(DIV, a, b) == W - 1 && Alu(DIVU, a, b) == W - 1 && Alu(REM, a, b) == a && Alu(REMU, a, b) == a
    ensures a == 0x8000_0000 && b == W - 1 ==> Alu(DIV, a, b) == a && Alu(REM, a, b) == 0
  {
  }
}

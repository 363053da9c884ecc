/** What expr returns, in plain arithmetic: the operators are those of the machine that is debugged, and numbers in either
    notation are what their digits say. */
module ExprValues {
  import opened Wrappers
  import opened ExprTree
  import opened Lexer
  import opened Debugger
  import opened GenExpr
  import Bits
  import Rv = RvSpec

  // ----- operators -----------------------------------------------------------------------------------------------

  /** The operators of C on 32-bit words do what the instructions of RV32IM do. */
  lemma {:induction false} ApplyIsAlu(a: Rv.Word, b: Rv.Word)
    ensures Apply('+' as int, a, b) == Some(Rv.Alu(Rv.ADD, a, b)) && Apply('-' as int, a, b) == Some(Rv.Alu(Rv.SUB, a, b))
    ensures Apply('*' as int, a, b) == Some(Rv.Alu(Rv.MUL, a, b))
    ensures Apply('/' as int, a, b) == if b == 0 then None else Some(Rv.Alu(Rv.DIVU, a, b))
    ensures Apply(TK_EQ, a, b) == Some(if a == b then 1 else 0) && Apply(TK_UNEQ, a, b) == Some(if a == b then 0 else 1)
    ensures Apply(TK_AND, a, b) == Some(if a == 0 || b == 0 then 0 else 1)
  {
  }

  /** A dereference reads the word at its address, if all of it is in the 128 MB from 0x8000_0000 on. */
  lemma {:induction false} DerefReads(env: Env, t: Tree)
    requires EnvOk(env) && Printable(Deref(t))
    ensures var a := Value(env, t);
      Value(env, Deref(t))
      == if a.Some? && 0x8000_0000 <= a.value <= 0x8800_0000 - 4 then Some(env.read(a.value)) else None
  {
  }

  // ----- numbers -------------------------------------------------------------------------------------------------

  /** "%x" and "%X" */
  function Hexadecimal(n: nat, upper: bool): (s: string)
    ensures |s| > 0
  {
    var d := [if upper then "0123456789ABCDEF"[n % 16] else "0123456789abcdef"[n % 16]];
    if n < 16 then d else Hexadecimal(n / 16, upper) + d
  }

  lemma {:induction false} HexDigitIs(d: nat)
    requires d < 16
    ensures IsXDigit("0123456789ABCDEF"[d]) && DigitValue("0123456789ABCDEF"[d]) == d
    ensures IsXDigit("0123456789abcdef"[d]) && DigitValue("0123456789abcdef"[d]) == d
  {
  }

  lemma {:induction false} ReadHex(n: nat, upper: bool, rest: string)
    ensures ReadNumber(Hexadecimal(n, upper) + rest, 16, 0) == ReadNumber(rest, 16, n)
    ensures CountXDigits(Hexadecimal(n, upper) + rest) == |Hexadecimal(n, upper)| + CountXDigits(rest)
    decreases n
  {
    HexDigitIs(n % 16);
    var d := [if upper then "0123456789ABCDEF"[n % 16] else "0123456789abcdef"[n % 16]];
    ReadDigit(d[0], rest, n / 16);
    if n < 16 {
      assert Hexadecimal(n, upper) == d;
    } else {
      ReadHex(n / 16, upper, d + rest);
      assert Hexadecimal(n, upper) + rest == Hexadecimal(n / 16, upper) + (d + rest);
    }
  }

  lemma {:induction false} ReadDigit(c: char, rest: string, acc: nat)
    requires IsXDigit(c) && DigitValue(c) < 16
    ensures ReadNumber([c] + rest, 16, acc) == ReadNumber(rest, 16, acc * 16 + DigitValue(c))
    ensures CountXDigits([c] + rest) == 1 + CountXDigits(rest)
  {
    assert ([c] + rest)[1..] == rest;
  }

  /** A number in hexadecimal, in digits of either case, is read modulo 2^32 if it is below 2^64, and as 2^32 - 1 otherwise,
      as long as its token has fewer than 32 characters. */
  lemma {:induction false} HexNumberRead(env: Env, n: nat, upper: bool, x: char, suffix: string)
    requires EnvOk(env) && (x == 'x' || x == 'X') && (suffix == "" || suffix == "u" || suffix == "U")
    requires 2 + |Hexadecimal(n, upper)| + |suffix| < 32
    ensures ExprOf(env, "0" + [x] + Hexadecimal(n, upper) + suffix)
         == (if n < 0x1_0000_0000_0000_0000 then n % 0x1_0000_0000 else 0xffff_ffff, true)
  {
    var digits := Hexadecimal(n, upper);
    var text := "0" + [x] + digits + suffix;
    var tok := Token(TK_HEX, text);
    assert text[2..] == digits + suffix && (digits + suffix)[|digits|..] == suffix && text[2 + |digits|..] == suffix;
    ReadHex(n, upper, suffix);
    assert CountXDigits(suffix) == 0 && ReadNumber(suffix, 16, n) == n;
    assert LiteralValue(tok) == Scanned(n) && TokenOk(tok);
    OneToken(env, tok);
  }

  /** So is one in decimal. */
  lemma {:induction false} NumberRead(env: Env, n: nat, suffix: string)
    requires EnvOk(env) && (suffix == "" || suffix == "u" || suffix == "U") && |Decimal(n)| + |suffix| < 32
    ensures ExprOf(env, Decimal(n) + suffix) == (if n < 0x1_0000_0000_0000_0000 then n % 0x1_0000_0000 else 0xffff_ffff, true)
  {
    var text := Decimal(n) + suffix;
    var tok := Token(TK_DIGIT, text);
    DecimalDigits(n, suffix);
    ReadDecimal(n, suffix, 0);
    assert text[|Decimal(n)|..] == suffix;
    assert CountDigits(suffix) == 0 && ReadNumber(suffix, 10, n) == n;
    assert LiteralValue(tok) == Scanned(n) && TokenOk(tok);
    OneToken(env, tok);
  }

  lemma {:induction false} OneToken(env: Env, tok: Token)
    requires EnvOk(env) && TokenOk(tok) && (tok.ty == TK_HEX || tok.ty == TK_DIGIT)
    ensures ExprOf(env, tok.str) == (LiteralValue(tok), true)
  {
    RenderTight([tok]);
    assert Tight([tok]) == [Item(0, tok)] && [tok][1..] == [] && Texts([]) == "" && Texts([tok]) == tok.str;
    assert TokensOf(Tight([tok])) == [tok];
    hide ExprOf, LiteralValue;
    ExprOfPrinted(env, Leaf(tok), Tight([tok]), 0);
  }

  // ----- registers ----------------------------------------------------------------------------------------------

  /** The names of chapter 25 of the RISC-V Unprivileged ISA, but for zero. */
  lemma {:induction false} NamesAre(k: nat)
    requires k < 32
    ensures 1 <= k < 5 ==> REGSL[k] == ["ra", "sp", "gp", "tp"][k - 1]
    ensures 5 <= k < 8 ==> REGSL[k] == "t" + Decimal(k - 5)
    ensures 8 <= k < 10 ==> REGSL[k] == "s" + Decimal(k - 8)
    ensures 10 <= k < 18 ==> REGSL[k] == "a" + Decimal(k - 10)
    ensures 18 <= k < 28 ==> REGSL[k] == "s" + Decimal(k - 16)
    ensures 28 <= k ==> REGSL[k] == "t" + Decimal(k - 25)
  {
    assert Decimal(10) == "10" && Decimal(11) == "11" by {
      assert Decimal(1) == "1";
    }
  }

  // ----- operators among each other ---------------------------------------------------------------------------------

  /** Tokens around an operator. */
  lemma {:induction false} TextsConcat(a: seq<Token>, b: seq<Token>)
    ensures Texts(a + b) == Texts(a) + Texts(b)
  {
    if a == [] {
      assert a + b == b;
    } else {
      assert (a + b)[1..] == a[1..] + b;
      TextsConcat(a[1..], b);
    }
  }

  predicate AllOk(ts: seq<Token>) {
    forall i :: 0 <= i < |ts| ==> TokenOk(ts[i])
  }

  function N(n: nat): string {
    Decimal(n) + "u"
  }

  function Lit(n: nat): Tree {
    Leaf(NumberToken(n))
  }

  /** t has n tokens, the text s without a space, and the value v. */
  predicate Reads(env: Env, t: Tree, n: nat, s: string, v: Option<nat>)
    requires EnvOk(env)
  {
    Printable(t) && AllOk(Raw(t)) && |Raw(t)| == n && Texts(Raw(t)) == s && Value(env, t) == v
  }

  lemma {:induction false} ReadsNumber(env: Env, n: nat)
    requires EnvOk(env) && n < 0x1_0000_0000
    ensures Reads(env, Lit(n), 1, N(n), Some(n))
  {
    NumberOk(n);
    LiteralOfNumber(n);
    assert [NumberToken(n)][1..] == [] && Texts([]) == "";
  }

  lemma {:induction false} ReadsBin(env: Env, op: nat, l: Tree, r: Tree, m: nat, n: nat, s: string, u: string, x: Option<nat>, y: Option<nat>)
    requires EnvOk(env) && IsOp(op) && Reads(env, l, m, s, x) && Reads(env, r, n, u, y)
    requires Prec(l) <= Prio(op) && Prec(r) < Prio(op)
    requires (x.Some? ==> x.value < 0x1_0000_0000) && (y.Some? ==> y.value < 0x1_0000_0000)
    ensures Reads(env, Bin(op, l, r), m + 1 + n, s + Text(Mark(op)) + u,
                  if x.Some? && y.Some? then Apply(op, x.value, y.value) else None)
  {
    TextsConcat(Raw(l), [Mark(op)]);
    TextsConcat(Raw(l) + [Mark(op)], Raw(r));
    assert [Mark(op)][1..] == [] && Texts([]) == "" && Texts([Mark(op)]) == Text(Mark(op));
    hide Text, Prio, Prec, Apply;
  }

  /** What expr makes of it. */
  lemma {:induction false} ReadsTo(env: Env, t: Tree, n: nat, s: string, v: Option<nat>)
    requires EnvOk(env) && Reads(env, t, n, s, v) && n <= 32
    ensures var r := ExprOf(env, s); (r.1 <==> v.Some?) && (r.1 ==> r.0 == v.value)
  {
    var ts := Raw(t);
    RenderTight(ts);
    assert TokensOf(Tight(ts)) == ts;
    hide ExprOf, Value, Render, Texts, Raw, Printable;
    ExprOfPrinted(env, t, Tight(ts), 0);
  }

  /** Precedence and grouping, for all numbers: "a-b*c-d/e==f&&g". */
  lemma {:induction false} AllOperators(env: Env, a: nat, b: nat, c: nat, d: nat, e: nat, f: nat, g: nat)
    requires EnvOk(env) && a < 0x1_0000_0000 && b < 0x1_0000_0000 && c < 0x1_0000_0000 && d < 0x1_0000_0000
    requires e < 0x1_0000_0000 && f < 0x1_0000_0000 && g < 0x1_0000_0000
    ensures var r := ExprOf(env, N(a) + "-" + N(b) + "*" + N(c) + "-" + N(d) + "/" + N(e) + "==" + N(f) + "&&" + N(g));
      && (r.1 <==> e != 0)
      && (e != 0 ==> r.0 == if (a - b * c - d / e) % 0x1_0000_0000 == f && g != 0 then 1 else 0)
  {
    var t := ReadsDifference(env, a, b, c, d, e);
    var s := N(a) + "-" + (N(b) + "*" + N(c)) + "-" + (N(d) + "/" + N(e));
    Regroup(N(a), N(b), N(c), N(d), N(e), N(f), N(g));
    hide *;
    ReadsTruth(env, t, 9, s, if e == 0 then None else Some((a - b * c - d / e) % 0x1_0000_0000), f, g);
  }

  /** A sum with "==f&&g" behind it. */
  lemma {:induction false} ReadsTruth(env: Env, t: Tree, n: nat, s: string, v: Option<nat>, f: nat, g: nat)
    requires EnvOk(env) && Reads(env, t, n, s, v) && Prec(t) <= 4 && n <= 28
    requires (v.Some? ==> v.value < 0x1_0000_0000) && f < 0x1_0000_0000 && g < 0x1_0000_0000
    ensures var r := ExprOf(env, s + "==" + N(f) + "&&" + N(g));
      (r.1 <==> v.Some?) && (r.1 ==> r.0 == if v.value == f && g != 0 then 1 else 0)
  {
    ReadsNumber(env, f);
    ReadsNumber(env, g);
    OperatorTexts();
    hide Reads, N, Texts, ExprOf, Text;
    var x := if v.None? then None else Some(if v.value == f then 1 else 0);
    var y := if v.None? then None else Some(if v.value == f && g != 0 then 1 else 0);
    ReadsBin(env, TK_EQ, t, Lit(f), n, 1, s, N(f), v, Some(f));
    ReadsBin(env, TK_AND, Bin(TK_EQ, t, Lit(f)), Lit(g), n + 2, 1, s + "==" + N(f), N(g), x, Some(g));
    ReadsTo(env, Bin(TK_AND, Bin(TK_EQ, t, Lit(f)), Lit(g)), n + 4, s + "==" + N(f) + "&&" + N(g), y);
  }

  /** "a-b*c-d/e" */
  lemma {:induction false} ReadsDifference(env: Env, a: nat, b: nat, c: nat, d: nat, e: nat) returns (t: Tree)
    requires EnvOk(env) && a < 0x1_0000_0000 && b < 0x1_0000_0000 && c < 0x1_0000_0000 && d < 0x1_0000_0000 && e < 0x1_0000_0000
    ensures Reads(env, t, 9, N(a) + "-" + (N(b) + "*" + N(c)) + "-" + (N(d) + "/" + N(e)),
                  if e == 0 then None else Some((a - b * c - d / e) % 0x1_0000_0000)) && Prec(t) == 4
  {
    var bc, de, abc := ReadsProducts(env, a, b, c, d, e);
    OperatorTexts();
    if e != 0 {
      QuotientSmall(d, e);
      Wraps(a, b * c, d / e);
    }
    hide Reads, N, Text;
    t := Bin(MINUS, abc, de);
    ReadsBin(env, MINUS, abc, de, 5, 3, N(a) + "-" + (N(b) + "*" + N(c)), N(d) + "/" + N(e),
             Some((a - b * c % 0x1_0000_0000) % 0x1_0000_0000), if e == 0 then None else Some(d / e));
  }

  /** "a-b*c" and "d/e". */
  lemma {:induction false} ReadsProducts(env: Env, a: nat, b: nat, c: nat, d: nat, e: nat) returns (bc: Tree, de: Tree, abc: Tree)
    requires EnvOk(env) && a < 0x1_0000_0000 && b < 0x1_0000_0000 && c < 0x1_0000_0000 && d < 0x1_0000_0000 && e < 0x1_0000_0000
    ensures Reads(env, de, 3, N(d) + "/" + N(e), if e == 0 then None else Some(d / e)) && Prec(de) == 3
    ensures Reads(env, abc, 5, N(a) + "-" + (N(b) + "*" + N(c)), Some((a - b * c % 0x1_0000_0000) % 0x1_0000_0000)) && Prec(abc) == 4
  {
    ReadsNumber(env, a);
    ReadsNumber(env, b);
    ReadsNumber(env, c);
    ReadsNumber(env, d);
    ReadsNumber(env, e);
    OperatorTexts();
    hide Reads, N, Texts, Text;
    bc, de := Bin(STAR, Lit(b), Lit(c)), Bin(SLASH, Lit(d), Lit(e));
    abc := Bin(MINUS, Lit(a), bc);
    ReadsBin(env, STAR, Lit(b), Lit(c), 1, 1, N(b), N(c), Some(b), Some(c));
    ReadsBin(env, SLASH, Lit(d), Lit(e), 1, 1, N(d), N(e), Some(d), Some(e));
    ReadsBin(env, MINUS, Lit(a), bc, 1, 3, N(a), N(b) + "*" + N(c), Some(a), Some(b * c % 0x1_0000_0000));
  }

  lemma {:induction false} OperatorTexts()
    ensures Text(Mark(MINUS)) == "-" && Text(Mark(STAR)) == "*" && Text(Mark(SLASH)) == "/"
    ensures Text(Mark(TK_EQ)) == "==" && Text(Mark(TK_AND)) == "&&"
  {
  }

  lemma {:induction false} QuotientSmall(d: nat, e: nat)
    requires e > 0
    ensures d / e <= d
  {
    Bits.QuotientBound(d, e);
  }

  lemma {:induction false} Wraps(a: nat, p: nat, q: nat)
    ensures ((a - p % 0x1_0000_0000) % 0x1_0000_0000 - q) % 0x1_0000_0000 == (a - p - q) % 0x1_0000_0000
  {
  }

  lemma {:induction false} Regroup(a: string, b: string, c: string, d: string, e: string, f: string, g: string)
    ensures a + "-" + (b + "*" + c) + "-" + (d + "/" + e) + "==" + f + "&&" + g
         == a + "-" + b + "*" + c + "-" + d + "/" + e + "==" + f + "&&" + g
  {
  }
}

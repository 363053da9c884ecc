/** Expressions of NEMU's debugger as trees: tokens, C precedence, printing and meaning
    (nemu/src/monitor/debug/expr.c). */
module ExprTree {
  import opened Wrappers
  import Bits

  // Token types: characters stand for themselves.
  const TK_NOTYPE: nat := 256
  const TK_DIGIT: nat := 257
  const TK_DEREF: nat := 258
  const TK_HEX: nat := 259
  const TK_REG: nat := 260
  const TK_UNEQ: nat := 271
  const TK_EQ: nat := 272
  const TK_AND: nat := 273
  const PLUS: nat := 43
  const MINUS: nat := 45
  const STAR: nat := 42
  const SLASH: nat := 47
  const LPAREN: nat := 40
  const RPAREN: nat := 41

  datatype Token = Token(ty: nat, str: string)

  const WORD: int := 0x1_0000_0000

  /** The binary operators (is_op_type). */
  predicate IsOp(ty: nat) {
    ty == PLUS || ty == MINUS || ty == STAR || ty == SLASH || ty == TK_EQ || ty == TK_UNEQ || ty == TK_AND
  }

  predicate IsOperand(ty: nat) {
    ty == TK_DIGIT || ty == TK_HEX || ty == TK_REG
  }

  /** Operator precedence as C has it: the larger binds the looser. */
  function Prio(op: nat): nat {
    if op == STAR || op == SLASH then 3
    else if op == PLUS || op == MINUS then 4
    else if op == TK_EQ || op == TK_UNEQ then 7
    else if op == TK_AND then 11
    else 0
  }

  // ----- trees -------------------------------------------------------------------------------------------

  datatype Tree =
    | Leaf(tok: Token)
    | Paren(inner: Tree)
    | Deref(ptr: Tree)
    | Bin(op: nat, left: Tree, right: Tree)

  function Prec(t: Tree): nat {
    if t.Bin? then Prio(t.op) else 0
  }

  /** Printed without its own parentheses, a tree parses back to itself: operands bind as C says, and
      operators of one level group to the left. */
  predicate Printable(t: Tree) {
    match t
    case Leaf(tok) => IsOperand(tok.ty)
    case Paren(e) => Printable(e)
    case Deref(e) => Printable(e) && !e.Bin?
    case Bin(op, l, r) => IsOp(op) && Printable(l) && Printable(r) && Prec(l) <= Prio(op) && Prec(r) < Prio(op)
  }

  function Mark(ty: nat): Token {
    Token(ty, "")
  }

  /** The tokens of a tree, with dereferences told apart from multiplications. */
  function Flat(t: Tree): (s: seq<Token>)
    ensures |s| > 0
  {
    match t
    case Leaf(tok) => [tok]
    case Paren(e) => [Mark(LPAREN)] + Flat(e) + [Mark(RPAREN)]
    case Deref(e) => [Mark(TK_DEREF)] + Flat(e)
    case Bin(op, l, r) => Flat(l) + [Mark(op)] + Flat(r)
  }

  /** The tokens as the lexer sees them: both kinds of star alike. */
  function Raw(t: Tree): (s: seq<Token>)
    ensures |s| > 0
  {
    match t
    case Leaf(tok) => [tok]
    case Paren(e) => [Mark(LPAREN)] + Raw(e) + [Mark(RPAREN)]
    case Deref(e) => [Mark(STAR)] + Raw(e)
    case Bin(op, l, r) => Raw(l) + [Mark(op)] + Raw(r)
  }

  // ----- meaning -----------------------------------------------------------------------------------------

  /** What an evaluation can see of the machine. */
  datatype Env = Env(gpr: seq<nat>, pc: nat, read: nat -> nat)

  ghost predicate EnvOk(env: Env) {
    |env.gpr| == 32 && env.pc < WORD && (forall i :: 0 <= i < 32 ==> env.gpr[i] < WORD) && (forall a :: env.read(a) < WORD)
  }

  const PMEM_BASE: nat := 0x8000_0000
  const PMEM_SIZE: nat := 0x800_0000

  const REGSL: seq<string> := [
    "$0", "ra", "sp", "gp", "tp", "t0", "t1", "t2", "s0", "s1", "a0", "a1", "a2", "a3", "a4", "a5",
    "a6", "a7", "s2", "s3", "s4", "s5", "s6", "s7", "s8", "s9", "s10", "s11", "t3", "t4", "t5", "t6"]

  function IndexOfName(name: string, i: nat): (r: Option<nat>)
    requires i <= 32
    ensures r.Some? ==> i <= r.value < 32 && REGSL[r.value] == name
    ensures r.None? ==> forall j :: i <= j < 32 ==> REGSL[j] != name
    decreases 32 - i
  {
    if i == 32 then None else if REGSL[i] == name then Some(i) else IndexOfName(name, i + 1)
  }

  /** The register a name stands for, if any. */
  function RegValue(env: Env, name: string): Option<nat>
    requires |env.gpr| == 32
  {
    if name == "pc" then Some(env.pc)
    else
      var i := IndexOfName(name, 0);
      if i.Some? then Some(env.gpr[i.value]) else None
  }

  predicate IsDigit(c: char) {
    '0' <= c <= '9'
  }

  predicate IsXDigit(c: char) {
    IsDigit(c) || 'a' <= c <= 'f' || 'A' <= c <= 'F'
  }

  function DigitValue(c: char): nat
    requires IsXDigit(c)
  {
    if IsDigit(c) then c as int - '0' as int
    else if 'a' <= c <= 'f' then c as int - 'a' as int + 10
    else c as int - 'A' as int + 10
  }

  /** The number read from the leading digits of s, after `acc`. */
  function ReadNumber(s: string, base: nat, acc: nat): nat
    decreases |s|
  {
    if s != "" && IsXDigit(s[0]) && DigitValue(s[0]) < base
    then ReadNumber(s[1..], base, acc * base + DigitValue(s[0])) else acc
  }

  /** sscanf into an unsigned int: through an unsigned long, which saturates. */
  function Scanned(n: nat): (w: nat)
    ensures w < WORD && (n < 0x1_0000_0000_0000_0000 ==> w == n % WORD)
  {
    (if n < 0x1_0000_0000_0000_0000 then n else 0xffff_ffff_ffff_ffff) % WORD
  }

  /** The value of a number token. */
  function LiteralValue(tok: Token): (w: nat)
    ensures w < WORD
  {
    if tok.ty == TK_HEX && |tok.str| >= 2 then Scanned(ReadNumber(tok.str[2..], 16, 0))
    else Scanned(ReadNumber(tok.str, 10, 0))
  }

  function AddressOk(addr: nat): bool {
    addr >= PMEM_BASE && addr + 4 <= PMEM_BASE + PMEM_SIZE
  }

  /** A binary operation on words; None for a division by zero. */
  function Apply(op: nat, a: nat, b: nat): (r: Option<nat>)
    requires IsOp(op) && a < WORD && b < WORD
    ensures r.Some? ==> r.value < WORD
    ensures r.None? <==> op == SLASH && b == 0
  {
    if op == PLUS then Some((a + b) % WORD)
    else if op == MINUS then Some((a - b) % WORD)
    else if op == STAR then Some(a * b % WORD)
    else if op == SLASH then (if b == 0 then None else Quotient(a, b))
    else if op == TK_EQ then Some(if a == b then 1 else 0)
    else if op == TK_UNEQ then Some(if a != b then 1 else 0)
    else Some(if a != 0 && b != 0 then 1 else 0)
  }

  function Quotient(a: nat, b: nat): (r: Option<nat>)
    requires b != 0
    ensures r.Some? && r.value <= a
  {
    Bits.QuotientBound(a, b);
    Some(a / b)
  }

  /** The meaning of a tree modulo 2^32, all operands evaluated; None when some operand divides by
      zero, names an unknown register or dereferences outside memory. */
  function Value(env: Env, t: Tree): (r: Option<nat>)
    requires EnvOk(env) && Printable(t)
    ensures r.Some? ==> r.value < WORD
  {
    match t
    case Leaf(tok) =>
      if tok.ty == TK_REG then
        var name := if |tok.str| > 0 then tok.str[1..] else "";
        RegValue(env, name)
      else Some(LiteralValue(tok))
    case Paren(e) => Value(env, e)
    case Deref(e) =>
      var a := Value(env, e);
      if a.Some? && AddressOk(a.value) then Some(env.read(a.value)) else None
    case Bin(op, l, r) =>
      var a, b := Value(env, l), Value(env, r);
      if a.Some? && b.Some? then Apply(op, a.value, b.value) else None
  }

  // ----- the meaning in C ----------------------------------------------------------------------------------

  /** The value as C has it: the right operand of && is looked at only when the left one is not 0. */
  function CMeaning(env: Env, t: Tree): (r: Option<nat>)
    requires EnvOk(env) && Printable(t)
    ensures r.Some? ==> r.value < WORD
  {
    match t
    case Leaf(_) => Value(env, t)
    case Paren(e) => CMeaning(env, e)
    case Deref(e) =>
      var a := CMeaning(env, e);
      if a.Some? && AddressOk(a.value) then Some(env.read(a.value)) else None
    case Bin(op, l, r) =>
      var a := CMeaning(env, l);
      if op == TK_AND && a == Some(0) then Some(0)
      else
        var b := CMeaning(env, r);
        if a.Some? && b.Some? then Apply(op, a.value, b.value) else None
  }

  /** Every right operand of && that C does not look at has a C value, those inside it included. */
  predicate SkippedHaveValues(env: Env, t: Tree)
    requires EnvOk(env) && Printable(t)
  {
    match t
    case Leaf(_) => true
    case Paren(e) => SkippedHaveValues(env, e)
    case Deref(e) => SkippedHaveValues(env, e)
    case Bin(op, l, r) =>
      && SkippedHaveValues(env, l) && SkippedHaveValues(env, r)
      && (op == TK_AND && CMeaning(env, l) == Some(0) ==> CMeaning(env, r).Some?)
  }

  /** With all operands evaluated a tree has its C value if it has one and nothing that C skips is without one, and
      no value otherwise. */
  lemma {:induction false} ValueAgainstC(env: Env, t: Tree)
    requires EnvOk(env) && Printable(t)
    ensures Value(env, t) == CMeaning(env, t) || Value(env, t).None?
    ensures CMeaning(env, t).Some? ==> (Value(env, t).Some? <==> SkippedHaveValues(env, t))
    decreases t
  {
    match t
    case Leaf(_) =>
    case Paren(e) => ValueAgainstC(env, e);
    case Deref(e) => ValueAgainstC(env, e);
    case Bin(op, l, r) =>
      ValueAgainstC(env, l);
      ValueAgainstC(env, r);
  }

  // ----- every bracketing-free string has a C parse ---------------------------------------------------------

  function Max(a: nat, b: nat): nat {
    if a >= b then a else b
  }

  function Size(t: Tree): nat {
    match t
    case Leaf(_) => 1
    case Paren(e) => 1 + Size(e)
    case Deref(e) => 1 + Size(e)
    case Bin(_, l, r) => 1 + Size(l) + Size(r)
  }

  /** The C parse of `l op r` printed side by side: the loosest operator, the last of its level, goes
      to the root. */
  function Join(op: nat, l: Tree, r: Tree): (t: Tree)
    requires IsOp(op) && Printable(l) && Printable(r)
    ensures Printable(t) && t.Bin? && Prec(t) == Max(Prio(op), Max(Prec(l), Prec(r)))
    decreases Size(l) + Size(r)
  {
    if r.Bin? && Prec(r) >= Prio(op) && Prec(r) >= Prec(l) then Bin(r.op, Join(op, l, r.left), r.right)
    else if l.Bin? && Prec(l) > Prio(op) then Bin(l.op, l.left, Join(op, l.right, r))
    else Bin(op, l, r)
  }

  lemma {:induction false} JoinPrints(op: nat, l: Tree, r: Tree)
    requires IsOp(op) && Printable(l) && Printable(r)
    ensures Flat(Join(op, l, r)) == Flat(l) + [Mark(op)] + Flat(r)
    ensures Raw(Join(op, l, r)) == Raw(l) + [Mark(op)] + Raw(r)
    decreases Size(l) + Size(r)
  {
    if r.Bin? && Prec(r) >= Prio(op) && Prec(r) >= Prec(l) {
      JoinPrints(op, l, r.left);
      ConcatAssoc(Flat(l), Mark(op), Flat(r.left), Mark(r.op), Flat(r.right));
      ConcatAssoc(Raw(l), Mark(op), Raw(r.left), Mark(r.op), Raw(r.right));
    } else if l.Bin? && Prec(l) > Prio(op) {
      JoinPrints(op, l.right, r);
      ConcatAssoc(Flat(l.left), Mark(l.op), Flat(l.right), Mark(op), Flat(r));
      ConcatAssoc(Raw(l.left), Mark(l.op), Raw(l.right), Mark(op), Raw(r));
    }
  }

  lemma {:induction false} ConcatAssoc(a: seq<Token>, x: Token, b: seq<Token>, y: Token, c: seq<Token>)
    ensures (a + [x] + b) + [y] + c == a + [x] + (b + [y] + c)
  {
  }
}

/** The random expression generator of nemu/tools/gen-expr/gen-expr.c, run on a tape of random
    draws, and what the debugger makes of its output. */
module GenExpr {
  import opened Wrappers
  import opened ExprTree
  import opened Lexer
  import Debugger
  import Bits

  const BUFF: nat := 65536

  // ----- sentences ------------------------------------------------------------------------------------------

  predicate IsArithOp(op: nat) {
    op == PLUS || op == MINUS || op == STAR || op == SLASH
  }

  /** "%u" */
  function Decimal(n: nat): (s: string)
    ensures |s| > 0
  {
    if n < 10 then [DigitChar(n)] else Decimal(n / 10) + [DigitChar(n % 10)]
  }

  function DigitChar(d: nat): (c: char)
    requires d < 10
    ensures IsDigit(c) && DigitValue(c) == d
  {
    ['0', '1', '2', '3', '4', '5', '6', '7', '8', '9'][d]
  }

  function NumberToken(n: nat): Token {
    Token(TK_DIGIT, Decimal(n) + "u")
  }

  /** Trees over unsigned literals and the four operations. */
  predicate Arithmetic(t: Tree) {
    match t
    case Leaf(tok) => exists n: nat :: n < WORD && tok == NumberToken(n)
    case Paren(e) => Arithmetic(e)
    case Deref(_) => false
    case Bin(op, l, r) => IsArithOp(op) && Arithmetic(l) && Arithmetic(r)
  }

  /** s prints t, with any spaces. */
  ghost predicate Prints(s: string, t: Tree, items: seq<Item>, trail: nat) {
    && Printable(t) && Arithmetic(t) && TokensOf(items) == Raw(t)
    && (forall i :: 0 <= i < |items| ==> TokenOk(items[i].tok))
    && s == Render(items, trail)
  }

  ghost predicate IsSentence(s: string) {
    exists t: Tree, items: seq<Item>, trail: nat :: Prints(s, t, items, trail)
  }

  // ----- the grammar's rules keep sentences -------------------------------------------------------------------

  lemma {:induction false} DecimalDigits(n: nat, rest: string)
    ensures CountDigits(Decimal(n) + rest) == |Decimal(n)| + CountDigits(rest)
    decreases n
  {
    if n < 10 {
      assert (Decimal(n) + rest)[1..] == rest;
    } else {
      var last := [DigitChar(n % 10)];
      assert Decimal(n) + rest == Decimal(n / 10) + (last + rest);
      DecimalDigits(n / 10, last + rest);
      assert (last + rest)[1..] == rest;
    }
  }

  lemma {:induction false} DecimalLength(n: nat, k: nat, bound: nat)
    requires n < bound && bound == Power10(k) && k > 0
    ensures |Decimal(n)| <= k
    decreases k
  {
    assert Power10(1) == 10;
    if n >= 10 {
      DecimalLength(n / 10, k - 1, Power10(k - 1));
    }
  }

  function Power10(k: nat): nat {
    if k == 0 then 1 else 10 * Power10(k - 1)
  }

  lemma {:induction false} NumberOk(n: nat)
    requires n < WORD
    ensures TokenOk(NumberToken(n)) && |NumberToken(n).str| <= 11
  {
    DecimalDigits(n, "u");
    var s := Decimal(n) + "u";
    assert s[|Decimal(n)|..] == "u";
    assert n < Power10(10);
    DecimalLength(n, 10, Power10(10));
  }

  /** A generated literal reads back as its number. */
  lemma {:induction false} LiteralOfNumber(n: nat)
    requires n < WORD
    ensures LiteralValue(NumberToken(n)) == n
  {
    ReadDecimal(n, "u", 0);
    assert Power10(0) == 1;
  }

  lemma {:induction false} ReadDecimal(n: nat, rest: string, acc: nat)
    requires acc == 0
    ensures ReadNumber(Decimal(n) + rest, 10, acc) == ReadNumber(rest, 10, n)
    decreases n
  {
    if n < 10 {
      assert (Decimal(n) + rest)[1..] == rest;
    } else {
      var last := [DigitChar(n % 10)];
      assert Decimal(n) + rest == Decimal(n / 10) + (last + rest);
      ReadDecimal(n / 10, last + rest, acc);
      assert (last + rest)[1..] == rest;
    }
  }

  lemma {:induction false} NumberIsSentence(n: nat)
    requires n < WORD
    ensures IsSentence(Decimal(n) + "u")
  {
    NumberOk(n);
    var items := [Item(0, NumberToken(n))];
    assert items[1..] == [] && Render([], 0) == "";
    assert Render(items, 0) == Spaces(0) + (Decimal(n) + "u") + "";
    assert Spaces(0) == "";
    assert TokensOf(items) == [NumberToken(n)];
    assert Prints(Decimal(n) + "u", Leaf(NumberToken(n)), items, 0);
  }

  lemma {:induction false} RenderConcat(a: seq<Item>, b: seq<Item>, trail: nat)
    ensures Render(a + b, trail) == Render(a, 0) + Render(b, trail)
    decreases |a|
  {
    if a == [] {
      assert a + b == b && Spaces(0) == "";
    } else {
      assert (a + b)[0] == a[0] && (a + b)[1..] == a[1..] + b;
      RenderConcat(a[1..], b, trail);
    }
  }

  lemma {:induction false} RenderTrail(a: seq<Item>, trail: nat)
    ensures Render(a, trail) == Render(a, 0) + Spaces(trail)
    decreases |a|
  {
    if a == [] {
      assert Spaces(0) == "";
    } else {
      RenderTrail(a[1..], trail);
    }
  }

  lemma {:induction false} SpacesAdd(m: nat, n: nat)
    ensures Spaces(m) + Spaces(n) == Spaces(m + n)
  {
  }

  /** A token after printed tokens. */
  lemma {:induction false} RenderToken(items: seq<Item>, trail: nat, tok: Token)
    ensures Render(items + [Item(trail, tok)], 0) == Render(items, trail) + Text(tok)
  {
    RenderConcat(items, [Item(trail, tok)], 0);
    RenderTrail(items, trail);
    RenderOne(trail, tok);
    hide Render, Text, Spaces;
    assert Render(items, 0) + (Spaces(trail) + Text(tok)) == Render(items, 0) + Spaces(trail) + Text(tok);
  }

  lemma {:induction false} RenderOne(n: nat, tok: Token)
    ensures Render([Item(n, tok)], 0) == Spaces(n) + Text(tok)
  {
    hide Text;
    assert [Item(n, tok)][1..] == [] && Render([], 0) == Spaces(0) == "";
  }

  lemma {:induction false} TokensConcat(a: seq<Item>, b: seq<Item>)
    ensures TokensOf(a + b) == TokensOf(a) + TokensOf(b)
  {
  }

  lemma {:induction false} SpacesAround(s: string, m: nat, n: nat)
    requires IsSentence(s)
    ensures IsSentence(Spaces(m) + s + Spaces(n))
  {
    var t, items: seq<Item>, trail: nat :| Prints(s, t, items, trail);
    RenderTrail(items, trail);
    RenderTrail(items, trail + n);
    SpacesAdd(trail, n);
    SpacesAdd(m, items[0].spaces);
    var items' := [Item(m + items[0].spaces, items[0].tok)] + items[1..];
    assert items'[1..] == items[1..];
    assert Render(items', trail + n) == Spaces(m) + Render(items, trail + n);
    assert TokensOf(items') == TokensOf(items);
    assert Prints(Spaces(m) + s + Spaces(n), t, items', trail + n);
  }

  lemma {:induction false} ParenRender(items: seq<Item>, trail: nat)
    ensures Render([Item(0, Mark(LPAREN))] + (items + [Item(trail, Mark(RPAREN))]), 0) == "(" + Render(items, trail) + ")"
  {
    RenderConcat([Item(0, Mark(LPAREN))], items + [Item(trail, Mark(RPAREN))], 0);
    RenderToken(items, trail, Mark(RPAREN));
    RenderOne(0, Mark(LPAREN));
    assert Spaces(0) == "" && Text(Mark(LPAREN)) == "(" && Text(Mark(RPAREN)) == ")";
    hide Render, Text, Spaces;
    assert "(" + Render(items, trail) + ")" == "(" + (Render(items, trail) + ")");
  }

  lemma {:induction false} ParenSentence(s: string)
    requires IsSentence(s)
    ensures IsSentence("(" + s + ")")
  {
    var t, items: seq<Item>, trail: nat :| Prints(s, t, items, trail);
    var open, close := [Item(0, Mark(LPAREN))], Item(trail, Mark(RPAREN));
    hide Render;
    ParenRender(items, trail);
    TokensConcat(open, items + [close]);
    TokensConcat(items, [close]);
    assert TokensOf(open) == [Mark(LPAREN)] && TokensOf([close]) == [Mark(RPAREN)];
    assert Raw(Paren(t)) == [Mark(LPAREN)] + (Raw(t) + [Mark(RPAREN)]);
    assert Prints("(" + s + ")", Paren(t), open + (items + [close]), 0);
  }

  /** Two sentences around an operator: the result prints the tree C gives it. */
  lemma {:induction false} JoinSentence(a: string, op: nat, b: string)
    requires IsSentence(a) && IsSentence(b) && IsArithOp(op)
    ensures IsSentence(a + Text(Mark(op)) + b)
  {
    var t, items: seq<Item>, trail: nat :| Prints(a, t, items, trail);
    var u, jtems: seq<Item>, trail': nat :| Prints(b, u, jtems, trail');
    var mid := Item(trail, Mark(op));
    hide Render, Text;
    RenderConcat(items + [mid], jtems, trail');
    RenderToken(items, trail, Mark(op));
    TokensConcat(items + [mid], jtems);
    TokensConcat(items, [mid]);
    assert TokensOf([mid]) == [Mark(op)];
    hide TokensOf, Flat;
    JoinPrints(op, t, u);
    JoinArithmetic(op, t, u);
    assert Prints(a + Text(Mark(op)) + b, Join(op, t, u), items + [mid] + jtems, trail');
  }

  lemma {:induction false} JoinArithmetic(op: nat, l: Tree, r: Tree)
    requires IsArithOp(op) && Printable(l) && Printable(r) && Arithmetic(l) && Arithmetic(r)
    ensures Arithmetic(Join(op, l, r))
    decreases Size(l) + Size(r)
  {
    if r.Bin? && Prec(r) >= Prio(op) && Prec(r) >= Prec(l) {
      JoinArithmetic(op, l, r.left);
    } else if l.Bin? && Prec(l) > Prio(op) {
      JoinArithmetic(op, l.right, r);
    }
  }

  // ----- what the debugger makes of a sentence ------------------------------------------------------------------

  /** The value C gives an expression over unsigned ints; None for a division by zero. */
  function CValue(t: Tree): (r: Option<nat>)
    requires Arithmetic(t)
    ensures r.Some? ==> r.value < WORD
  {
    match t
    case Leaf(tok) => Some(LiteralValue(tok))
    case Paren(e) => CValue(e)
    case Bin(op, l, r) =>
      var a, b := CValue(l), CValue(r);
      if a.Some? && b.Some? then Apply(op, a.value, b.value) else None
  }

  lemma {:induction false} ValueOfArithmetic(env: Env, t: Tree)
    requires EnvOk(env) && Printable(t) && Arithmetic(t)
    ensures Value(env, t) == CValue(t)
    decreases t
  {
    match t
    case Leaf(_) =>
    case Paren(e) => ValueOfArithmetic(env, e);
    case Bin(op, l, r) =>
      ValueOfArithmetic(env, l);
      ValueOfArithmetic(env, r);
  }

  /** expr accepts s exactly when its n tokens fit and t has a C value, and returns that value. */
  ghost predicate EvaluatesTo(env: Env, s: string, t: Tree, n: nat, trail: nat)
    requires EnvOk(env) && Arithmetic(t)
  {
    var r := Debugger.ExprOf(env, s);
    (r.1 <==> Fits(n, trail) && CValue(t).Some?) && (r.1 ==> r.0 == CValue(t).value)
  }

  /** Every sentence has a C parse, and by every C parse it has, expr accepts it with its C value
      exactly when its tokens fit and nothing is divided by zero. */
  lemma {:induction false} SentenceEvaluates(env: Env, s: string)
    requires EnvOk(env) && IsSentence(s)
    ensures exists t: Tree, items: seq<Item>, trail: nat :: Prints(s, t, items, trail)
    ensures forall t: Tree, items: seq<Item>, trail: nat :: Prints(s, t, items, trail) ==> EvaluatesTo(env, s, t, |items|, trail)
  {
    forall t: Tree, items: seq<Item>, trail: nat | Prints(s, t, items, trail) ensures EvaluatesTo(env, s, t, |items|, trail) {
      Debugger.ExprOfPrinted(env, t, items, trail);
      ValueOfArithmetic(env, t);
    }
  }

  // ----- what the program makes of a tape -------------------------------------------------------------------------

  /** The tape ran out; nothing was written; or a text was.  The rest of the tape is left. */
  datatype Outcome = Dry | Failed(rest: seq<nat>) | Written(text: string, rest: seq<nat>)

  /** gen_num where there is room for so many characters: any number but 2^32 - 1. */
  function Number(tape: seq<nat>, room: int): (o: Outcome)
    ensures o.Written? ==> 0 < |o.text| <= room
    ensures !o.Dry? ==> |o.rest| <= |tape|
  {
    if tape == [] then Dry
    else
      var text := Decimal(tape[0] % 0xffff_ffff) + "u";
      if room >= |text| then Written(text, tape[1..]) else Failed(tape[1..])
  }

  /** opt_space */
  function OptionalSpace(tape: seq<nat>, room: int): (o: Outcome)
    ensures !o.Failed? && (o.Written? ==> |o.text| <= (if room > 0 then 1 else 0))
    ensures !o.Dry? ==> |o.rest| <= |tape|
  {
    if room <= 0 then Written("", tape) else if tape == [] then Dry else Written(Spaces(tape[0] % 2), tape[1..])
  }

  /** gen_rand_expr */
  function Gen(tape: seq<nat>, room: int): (o: Outcome)
    ensures o.Written? ==> 0 < |o.text| <= room
    ensures !o.Dry? ==> |o.rest| < |tape|
    decreases |tape|, 0
  {
    if tape == [] then Dry
    else
      var kind, t := tape[0] % 4, tape[1..];
      if kind == 0 then Number(t, room)
      else if kind == 1 then Parens(t, room)
      else if kind == 2 then Binary(t, room)
      else Spaced(t, room)
  }

  function Parens(tape: seq<nat>, room: int): (o: Outcome)
    ensures o.Written? ==> 0 < |o.text| <= room
    ensures !o.Dry? ==> |o.rest| <= |tape|
    decreases |tape|, 1
  {
    if room <= 2 then Failed(tape)
    else
      match Gen(tape, room - 1)
      case Written(e, t) => if room - 1 - |e| > 0 then Written("(" + e + ")", t) else Failed(t)
      case o => o
  }

  function Binary(tape: seq<nat>, room: int): (o: Outcome)
    ensures o.Written? ==> 0 < |o.text| <= room
    ensures !o.Dry? ==> |o.rest| <= |tape|
    decreases |tape|, 1
  {
    match Gen(tape, room)
    case Written(a, t) =>
      if t == [] then Dry
      else (
        match Gen(t[1..], room - |a| - 1)
        case Written(b, u) => Written(a + ["+-*/"[t[0] % 4]] + b, u)
        case o => o)
    case o => o
  }

  function Spaced(tape: seq<nat>, room: int): (o: Outcome)
    ensures o.Written? ==> 0 < |o.text| <= room
    ensures !o.Dry? ==> |o.rest| <= |tape|
    decreases |tape|, 1
  {
    match OptionalSpace(tape, room)
    case Written(m, t) => (
      match Gen(t, room - |m|)
      case Written(e, u) => (
        match OptionalSpace(u, room - |m| - |e|)
        case Written(n, v) => Written(m + e + n, v)
        case o => o)
      case o => o)
    case o => o
  }

  /** The retry loop of main. */
  function Retry(tape: seq<nat>): (o: Outcome)
    ensures !o.Failed? && (o.Written? ==> 0 < |o.text| < BUFF)
    decreases |tape|
  {
    match Gen(tape, BUFF - 1)
    case Failed(t) => Retry(t)
    case o => o
  }

  /** Sound: whatever is written is a sentence. */
  lemma {:induction false} GenSentence(tape: seq<nat>, room: int)
    ensures var o := Gen(tape, room); o.Written? ==> IsSentence(o.text)
    decreases |tape|, 0
  {
    hide IsSentence, Decimal, Spaces, Parens, Binary, Spaced;
    if tape != [] && Gen(tape, room).Written? {
      var kind, t := tape[0] % 4, tape[1..];
      if kind == 0 {
        NumberIsSentence(t[0] % 0xffff_ffff);
      } else if kind == 1 {
        ParensSentence(t, room);
      } else if kind == 2 {
        BinarySentence(t, room);
      } else {
        SpacedSentence(t, room);
      }
    }
  }

  lemma {:induction false} ParensSentence(tape: seq<nat>, room: int)
    requires Parens(tape, room).Written?
    ensures IsSentence(Parens(tape, room).text)
    decreases |tape|, 1
  {
    hide IsSentence, Gen;
    GenSentence(tape, room - 1);
    ParenSentence(Gen(tape, room - 1).text);
  }

  lemma {:induction false} BinarySentence(tape: seq<nat>, room: int)
    requires Binary(tape, room).Written?
    ensures IsSentence(Binary(tape, room).text)
    decreases |tape|, 1
  {
    hide IsSentence, Gen;
    var a := Gen(tape, room);
    GenSentence(tape, room);
    GenSentence(a.rest[1..], room - |a.text| - 1);
    OpText(a.rest[0] % 4);
    JoinSentence(a.text, [PLUS, MINUS, STAR, SLASH][a.rest[0] % 4], Gen(a.rest[1..], room - |a.text| - 1).text);
  }

  lemma {:induction false} OpText(k: nat)
    requires k < 4
    ensures Text(Mark([PLUS, MINUS, STAR, SLASH][k])) == ["+-*/"[k]] && IsArithOp([PLUS, MINUS, STAR, SLASH][k])
  {
  }

  lemma {:induction false} SpacedSentence(tape: seq<nat>, room: int)
    requires Spaced(tape, room).Written?
    ensures IsSentence(Spaced(tape, room).text)
    decreases |tape|, 1
  {
    hide IsSentence, Gen, Spaces;
    var m := OptionalSpace(tape, room);
    var e := Gen(m.rest, room - |m.text|);
    GenSentence(m.rest, room - |m.text|);
    var n := OptionalSpace(e.rest, room - |m.text| - |e.text|);
    assert Spaces(0) == "";
    SpacesAround(e.text, |m.text|, |n.text|);
  }

  lemma {:induction false} RetrySentence(tape: seq<nat>)
    ensures Retry(tape).Written? ==> IsSentence(Retry(tape).text)
    decreases |tape|
  {
    hide IsSentence;
    GenSentence(tape, BUFF - 1);
    if Gen(tape, BUFF - 1).Failed? {
      RetrySentence(Gen(tape, BUFF - 1).rest);
    }
  }

  // ----- every expression of the grammar can come out ---------------------------------------------------------------

  /** The grammar: numbers, parentheses, the four operators, and spaces before and after. */
  datatype Derivation =
    | Num(n: nat)
    | Group(inner: Derivation)
    | Op(left: Derivation, k: nat, right: Derivation)
    | Blank(before: bool, body: Derivation, after: bool)

  predicate DerivationOk(d: Derivation) {
    match d
    case Num(n) => n < 0xffff_ffff
    case Group(e) => DerivationOk(e)
    case Op(a, k, b) => k < 4 && DerivationOk(a) && DerivationOk(b)
    case Blank(_, e, _) => DerivationOk(e)
  }

  function Sign(k: nat): char {
    if k == 0 then '+' else if k == 1 then '-' else if k == 2 then '*' else '/'
  }

  function Derived(d: Derivation): (s: string)
    requires DerivationOk(d)
    ensures |s| > 0
  {
    match d
    case Num(n) => Decimal(n) + "u"
    case Group(e) => "(" + Derived(e) + ")"
    case Op(a, k, b) => Derived(a) + [Sign(k)] + Derived(b)
    case Blank(m, e, n) => (if m then " " else "") + Derived(e) + (if n then " " else "")
  }

  /** The draws that lead to it. */
  function Draws(d: Derivation): seq<nat> {
    match d
    case Num(n) => [0, n]
    case Group(e) => [1] + Draws(e)
    case Op(a, k, b) => [2] + Draws(a) + [k] + Draws(b)
    case Blank(m, e, n) => [3, if m then 1 else 0] + Draws(e) + [if n then 1 else 0]
  }

  /** Complete: every expression of the grammar that leaves a character of room comes out of its draws. */
  lemma {:induction false} GenComplete(d: Derivation, more: seq<nat>, room: int)
    requires DerivationOk(d) && |Derived(d)| < room
    ensures Gen(Draws(d) + more, room) == Written(Derived(d), more)
    decreases d
  {
    hide Gen, Draws, Decimal;
    match d
    case Num(n) =>
      GenKind(d, more, room);
    case Group(e) =>
      GenComplete(e, more, room - 1);
      GroupComplete(e, more, room);
    case Op(a, k, b) =>
      GenComplete(a, [k] + (Draws(b) + more), room);
      GenComplete(b, more, room - |Derived(a)| - 1);
      OpComplete(a, k, b, more, room);
    case Blank(m, e, n) =>
      GenComplete(e, [if n then 1 else 0] + more, room - if m then 1 else 0);
      BlankComplete(m, e, n, more, room);
  }

  lemma {:induction false} GroupComplete(e: Derivation, more: seq<nat>, room: int)
    requires DerivationOk(e) && |Derived(e)| + 2 < room && Gen(Draws(e) + more, room - 1) == Written(Derived(e), more)
    ensures Gen(Draws(Group(e)) + more, room) == Written(Derived(Group(e)), more)
  {
    GenKind(Group(e), more, room);
    DerivedLength(Group(e));
    hide *;
    ParensIs(Draws(e) + more, room, Derived(e), more);
  }

  lemma {:induction false} OpComplete(a: Derivation, k: nat, b: Derivation, more: seq<nat>, room: int)
    requires DerivationOk(a) && DerivationOk(b) && k < 4
    requires Gen(Draws(a) + ([k] + (Draws(b) + more)), room) == Written(Derived(a), [k] + (Draws(b) + more))
    requires Gen(Draws(b) + more, room - |Derived(a)| - 1) == Written(Derived(b), more)
    ensures Gen(Draws(Op(a, k, b)) + more, room) == Written(Derived(Op(a, k, b)), more)
  {
    GenKind(Op(a, k, b), more, room);
    DerivedLength(Op(a, k, b));
    hide *;
    BinaryIs(Draws(a) + ([k] + (Draws(b) + more)), room, Derived(a), k, Draws(b) + more, Derived(b), more);
  }

  lemma {:induction false} BlankComplete(m: bool, e: Derivation, n: bool, more: seq<nat>, room: int)
    requires var i, j := if m then 1 else 0, if n then 1 else 0;
      DerivationOk(e) && i + |Derived(e)| + 1 <= room && Gen(Draws(e) + ([j] + more), room - i) == Written(Derived(e), [j] + more)
    ensures Gen(Draws(Blank(m, e, n)) + more, room) == Written(Derived(Blank(m, e, n)), more)
  {
    GenKind(Blank(m, e, n), more, room);
    DerivedLength(Blank(m, e, n));
    hide *;
    SpacedIs(m, Draws(e) + ([if n then 1 else 0] + more), room, Derived(e), n, more);
  }

  lemma {:induction false} DerivedLength(d: Derivation)
    requires DerivationOk(d)
    ensures match d
      case Num(n) => Derived(d) == Decimal(n) + "u" && |Derived(d)| == |Decimal(n)| + 1
      case Group(e) => Derived(d) == "(" + Derived(e) + ")" && |Derived(d)| == |Derived(e)| + 2
      case Op(a, k, b) =>
        && Derived(d) == Derived(a) + [Sign(k)] + Derived(b)
        && |Derived(d)| == |Derived(a)| + 1 + |Derived(b)|
      case Blank(m, e, n) =>
        && Derived(d) == (if m then " " else "") + Derived(e) + (if n then " " else "")
        && |Derived(d)| == (if m then 1 else 0) + |Derived(e)| + (if n then 1 else 0)
  {
  }

  /** So it does of main, which has room for 65535 characters and a terminator. */
  lemma {:induction false} RetryComplete(d: Derivation, more: seq<nat>)
    requires DerivationOk(d) && |Derived(d)| < 65535
    ensures Retry(Draws(d) + more) == Written(Derived(d), more)
  {
    GenComplete(d, more, BUFF - 1);
    hide Gen, Draws, Derived;
  }

  /** The draws of a derivation choose its case. */
  lemma {:induction false} GenKind(d: Derivation, more: seq<nat>, room: int)
    requires DerivationOk(d)
    ensures var g := Gen(Draws(d) + more, room);
      match d
      case Num(n) => g == if room >= |Decimal(n)| + 1 then Written(Decimal(n) + "u", more) else Failed(more)
      case Group(e) => g == Parens(Draws(e) + more, room)
      case Op(a, k, b) => g == Binary(Draws(a) + ([k] + (Draws(b) + more)), room)
      case Blank(m, e, n) => g == Spaced([if m then 1 else 0] + (Draws(e) + ([if n then 1 else 0] + more)), room)
  {
    hide Parens, Binary, Spaced, Decimal;
    match d
    case Num(n) =>
      assert (Draws(d) + more)[1..] == [n] + more && ([n] + more)[1..] == more;
    case Group(e) =>
      assert (Draws(d) + more)[1..] == Draws(e) + more;
    case Op(a, k, b) =>
      assert (Draws(d) + more)[1..] == Draws(a) + ([k] + (Draws(b) + more));
    case Blank(m, e, n) =>
      assert (Draws(d) + more)[1..] == [if m then 1 else 0] + (Draws(e) + ([if n then 1 else 0] + more));
  }

  lemma {:induction false} ParensIs(tape: seq<nat>, room: int, e: string, more: seq<nat>)
    requires Gen(tape, room - 1) == Written(e, more) && |e| + 2 <= room && e != ""
    ensures Parens(tape, room) == Written("(" + e + ")", more)
  {
  }

  lemma {:induction false} BinaryIs(tape: seq<nat>, room: int, a: string, k: nat, t: seq<nat>, b: string, more: seq<nat>)
    requires Gen(tape, room) == Written(a, [k] + t) && Gen(t, room - |a| - 1) == Written(b, more) && k < 4
    ensures Binary(tape, room)
         == Written(a + [Sign(k)] + b, more)
  {
    hide Gen;
    assert ([k] + t)[1..] == t;
  }

  lemma {:induction false} SpacedIs(m: bool, t: seq<nat>, room: int, e: string, n: bool, more: seq<nat>)
    requires var i, j := if m then 1 else 0, if n then 1 else 0;
      Gen(t, room - i) == Written(e, [j] + more) && i + |e| + 1 <= room
    ensures Spaced([if m then 1 else 0] + t, room) == Written((if m then " " else "") + e + (if n then " " else ""), more)
  {
    hide Gen;
    var i, j := if m then 1 else 0, if n then 1 else 0;
    assert ([i] + t)[1..] == t && ([j] + more)[1..] == more;
    assert Spaces(0) == "" && Spaces(1) == " ";
  }

  // ----- the program -----------------------------------------------------------------------------------------------

  class Generator {
    const buf: array<char>
    var current: int
    var tape: seq<nat>

    constructor (draws: seq<nat>)
      ensures Ready() && current == 0 && tape == draws && fresh(buf)
    {
      buf := new char[BUFF];
      current, tape := 0, draws;
    }

    /** The cursor may stand one past the buffer: then nothing more is written. */
    ghost predicate Ready()
      reads this
    {
      buf.Length == BUFF && 0 <= current <= BUFF
    }

    function Rest(): int
      reads this
    {
      BUFF - 1 - current
    }

    /** rand() % n; `done` is false once the tape is used up, where the program would draw on. */
    method Choose(n: nat) returns (done: bool, v: nat)
      requires n > 0
      modifies this`tape
      ensures done == (old(tape) != []) && (done ==> v == old(tape)[0] % n && tape == old(tape)[1..])
    {
      if tape == [] {
        return false, 0;
      }
      v := tape[0] % n;
      tape := tape[1..];
      done := true;
    }

    method Put(c: char)
      requires buf.Length == BUFF && 0 <= current < BUFF
      modifies this`current, buf
      ensures current == old(current) + 1
      ensures buf[..current] == old(buf[..current]) + [c]
    {
      buf[current] := c;
      current := current + 1;
    }

    /** What a generating call has done: the bytes before the cursor are as they were, and behind them stands the text,
        with room left for the terminator, or the cursor is where it was. */
    ghost predicate Did(c0: int, buf0: seq<char>, o: Outcome, done: bool, r: bool)
      requires 0 <= c0 <= BUFF && |buf0| == BUFF
      reads this, buf
    {
      && Ready() && buf[..c0] == buf0[..c0] && done == !o.Dry?
      && (done ==> tape == o.rest && r == o.Written?)
      && (done && !r ==> current == c0)
      && (done && r ==> current == c0 + |o.text| && buf[c0..current] == o.text)
    }

    method GenNum() returns (done: bool, r: bool)
      requires Ready()
      modifies this`current, this`tape, buf
      ensures Did(old(current), old(buf[..]), Number(old(tape), old(Rest())), done, r)
    {
      var num;
      done, num := Choose(0xffff_ffff);
      if !done {
        return false, false;
      }
      var text := Decimal(num) + "u";
      if Rest() >= |text| {
        ghost var c0, before := current, buf[..current];
        PutAll(text);
        assert buf[c0..current] == text;
        assert buf[..c0] == before;
        return true, true;
      }
      return true, false;
    }

    method PutAll(text: string)
      requires buf.Length == BUFF && 0 <= current <= BUFF - |text|
      modifies this`current, buf
      ensures current == old(current) + |text|
      ensures buf[..current] == old(buf[..current]) + text
    {
      ghost var c0, before := current, buf[..current];
      var i := 0;
      while i < |text|
        invariant i <= |text| && current == c0 + i
        invariant buf[..current] == before + text[..i]
      {
        Put(text[i]);
        assert text[..i + 1] == text[..i] + [text[i]];
        i := i + 1;
      }
      assert text[..i] == text;
    }

    method OptSpace() returns (done: bool)
      requires Ready()
      modifies this`current, this`tape, buf
      ensures Did(old(current), old(buf[..]), OptionalSpace(old(tape), old(Rest())), done, true)
    {
      done := true;
      ghost var before := buf[..current];
      if Rest() > 0 {
        var k;
        done, k := Choose(2);
        if !done {
          return;
        }
        var i := 0;
        while i < k
          invariant i <= k <= 1 && current == old(current) + i && tape == old(tape)[1..]
          invariant i == 0 ==> buf[..current] == before
          invariant i == 1 ==> buf[..current] == before + [' ']
        {
          Put(' ');
          i := i + 1;
        }
        assert Spaces(1) == [' '];
      }
      assert Spaces(0) == [];
      assert buf[..old(current)] == before;
    }

    method GenRandExpr() returns (done: bool, r: bool)
      requires Ready()
      modifies this`current, this`tape, buf
      ensures Did(old(current), old(buf[..]), Gen(old(tape), old(Rest())), done, r)
      decreases |tape|, 0
    {
      var kind;
      done, kind := Choose(4);
      if !done {
        return false, false;
      }
      if kind == 0 {
        done, r := GenNum();
      } else if kind == 1 {
        done, r := GenParens();
      } else if kind == 2 {
        done, r := GenBinary();
      } else {
        done, r := GenSpaced();
      }
    }

    /** case 1: "(" expr ")" */
    method GenParens() returns (done: bool, r: bool)
      requires Ready()
      modifies this`current, this`tape, buf
      ensures Did(old(current), old(buf[..]), Parens(old(tape), old(Rest())), done, r)
      decreases |tape|, 1
    {
      if Rest() > 2 {
        var temp := current;
        ghost var before := buf[..temp];
        current := current + 1;
        ghost var entry := buf[..temp + 1];
        done, r := GenRandExpr();
        assert buf[..temp] == before by { assert buf[..temp + 1][..temp] == entry[..temp]; }
        if !done {
          return false, false;
        }
        if r && Rest() > 0 {
          ghost var body := buf[temp + 1..current];
          buf[temp] := '(';
          buf[current] := ')';
          current := current + 1;
          assert buf[temp..current] == "(" + body + ")";
          assert buf[..temp] == before;
          return true, true;
        }
        current := temp;
      }
      return true, false;
    }

    /** case 2: expr op expr.  The operator is written without a check: a successful call has left
        room for it. */
    method GenBinary() returns (done: bool, r: bool)
      requires Ready()
      modifies this`current, this`tape, buf
      ensures Did(old(current), old(buf[..]), Binary(old(tape), old(Rest())), done, r)
      decreases |tape|, 1
    {
      var temp := current;
      ghost var before := buf[..temp];
      done, r := GenRandExpr();
      if !done || !r {
        return;
      }
      ghost var left, mid := buf[temp..current], current;
      ghost var upToMid := buf[..mid];
      assert upToMid == before + left;
      var k;
      done, k := Choose(4);
      if !done {
        return false, false;
      }
      Put("+-*/"[k]);
      ghost var upToOp := buf[..current];
      assert upToOp == upToMid + ["+-*/"[k]];
      done, r := GenRandExpr();
      assert buf[..mid + 1] == upToOp;
      assert buf[..temp] == before by { assert upToOp[..temp] == before; }
      if !done {
        return false, false;
      }
      if r {
        ghost var right := buf[mid + 1..current];
        assert buf[temp..current] == left + ["+-*/"[k]] + right by {
          assert buf[..current] == upToOp + right;
          assert upToOp == before + left + ["+-*/"[k]];
        }
        return true, true;
      }
      current := temp;
      return true, false;
    }

    /** default: spaces around expr */
    method GenSpaced() returns (done: bool, r: bool)
      requires Ready()
      modifies this`current, this`tape, buf
      ensures Did(old(current), old(buf[..]), Spaced(old(tape), old(Rest())), done, r)
      decreases |tape|, 1
    {
      var temp := current;
      ghost var before := buf[..temp];
      done := OptSpace();
      if !done {
        return false, false;
      }
      ghost var mid, upToMid := current, buf[..current];
      ghost var m := buf[temp..mid];
      assert upToMid == before + m;
      done, r := GenRandExpr();
      assert buf[..temp] == before by { assert buf[..mid] == upToMid; assert upToMid[..temp] == before; }
      if !done {
        return false, false;
      }
      if r {
        ghost var body, upToEnd, end := buf[mid..current], buf[..current], current;
        assert upToEnd == before + m + body;
        done := OptSpace();
        if !done {
          return false, false;
        }
        assert buf[temp..current] == m + body + buf[end..current] by {
          assert buf[..end] == upToEnd;
          assert buf[..current] == upToEnd + buf[end..current];
        }
        assert buf[..temp] == before by { assert upToEnd[..temp] == before; }
        return true, true;
      }
      current := temp;
      return true, false;
    }

    /** The retry loop of main, and the terminating NUL. */
    method Generate() returns (done: bool)
      requires buf.Length == BUFF
      modifies this, buf
      ensures done == Retry(old(tape)).Written?
      ensures done ==> 0 < current < 65536 && buf[current] == '\0' && tape == Retry(old(tape)).rest
      ensures done ==> buf[..current] == Retry(old(tape)).text && IsSentence(buf[..current])
    {
      current := 0;
      var ok := false;
      done := true;
      RetrySentence(tape);
      hide IsSentence;
      while !ok
        invariant buf.Length == BUFF && current == 0 && Retry(tape) == Retry(old(tape))
        decreases |tape|
      {
        done, ok := GenRandExpr();
        if !done {
          return;
        }
        if ok {
          assert buf[0..current] == buf[..current];
          buf[current] := '\0';
          return;
        }
        current := 0;
      }
    }
  }
}

/** The functions of nemu/src/monitor/debug/expr.c over the static token array, each proved to
    compute what Eval and Lexer say of the token sequence. */
module Debugger {
  import opened Wrappers
  import opened ExprTree
  import opened Eval
  import opened Lexer

  // ----- telling dereferences from products -------------------------------------------------------------

  /** After which tokens a star is a dereference. */
  predicate UnaryAfter(ty: nat) {
    IsOp(ty) || ty == LPAREN || ty == TK_DEREF
  }

  function MarkStar(tok: Token, unary: bool): Token {
    if tok.ty == STAR && unary then Token(TK_DEREF, tok.str) else tok
  }

  /** The tokens with the stars in unary position renamed, from left to right. */
  function Marked(ts: seq<Token>, unary: bool): (r: seq<Token>)
    ensures |r| == |ts|
  {
    if ts == [] then []
    else
      var tok := MarkStar(ts[0], unary);
      [tok] + Marked(ts[1..], UnaryAfter(tok.ty))
  }

  lemma {:induction false} MarkedAt(ts: seq<Token>, unary: bool, i: nat)
    requires i < |ts|
    ensures Marked(ts, unary)[i] == MarkStar(ts[i], if i == 0 then unary else UnaryAfter(Marked(ts, unary)[i - 1].ty))
    decreases i
  {
    if i > 0 {
      var tok := MarkStar(ts[0], unary);
      MarkedAt(ts[1..], UnaryAfter(tok.ty), i - 1);
    }
  }

  lemma {:induction false} MarkedStep(tok: Token, rest: seq<Token>, unary: bool)
    ensures Marked([tok] + rest, unary) == [MarkStar(tok, unary)] + Marked(rest, UnaryAfter(MarkStar(tok, unary).ty))
  {
    assert ([tok] + rest)[1..] == rest;
  }

  /** Renaming turns the tokens of a tree as the lexer sees them into the tokens eval works on. */
  lemma {:induction false} MarkedIsFlat(t: Tree, rest: seq<Token>)
    requires Printable(t)
    ensures Marked(Raw(t) + rest, true) == Flat(t) + Marked(rest, false)
    decreases t
  {
    hide Marked;
    match t
    case Leaf(tok) =>
      MarkedStep(tok, rest, true);
    case Paren(e) =>
      var tail := [Mark(RPAREN)] + rest;
      assert Raw(t) + rest == [Mark(LPAREN)] + (Raw(e) + tail);
      MarkedStep(Mark(LPAREN), Raw(e) + tail, true);
      MarkedIsFlat(e, tail);
      MarkedStep(Mark(RPAREN), rest, false);
      assert Flat(t) == [Mark(LPAREN)] + Flat(e) + [Mark(RPAREN)];
    case Deref(e) =>
      assert Raw(t) + rest == [Mark(STAR)] + (Raw(e) + rest);
      MarkedStep(Mark(STAR), Raw(e) + rest, true);
      MarkedIsFlat(e, rest);
    case Bin(op, l, r) =>
      var tail := [Mark(op)] + (Raw(r) + rest);
      assert Raw(t) + rest == Raw(l) + tail;
      MarkedIsFlat(l, tail);
      MarkedStep(Mark(op), Raw(r) + rest, false);
      MarkedIsFlat(r, rest);
      assert Flat(t) == Flat(l) + [Mark(op)] + Flat(r);
  }

  lemma {:induction false} DepthOfMarked(ts: seq<Token>, unary: bool, i: nat)
    requires i <= |ts|
    ensures Depth(Marked(ts, unary), i) == Depth(ts, i)
  {
    if i > 0 {
      DepthOfMarked(ts, unary, i - 1);
      MarkedAt(ts, unary, i - 1);
    }
  }

  lemma {:induction false} MarkedBalanced(ts: seq<Token>)
    requires Balanced(ts)
    ensures Balanced(Marked(ts, true))
  {
    forall i | 0 <= i <= |ts| ensures Depth(Marked(ts, true), i) == Depth(ts, i) {
      DepthOfMarked(ts, true, i);
    }
  }

  // ----- expr as a function -------------------------------------------------------------------------------

  /** What expr returns for a string, and its success flag. */
  function ExprOf(env: Env, e: string): (nat, bool)
    requires EnvOk(env)
  {
    var ts := Lex(e, []);
    if ts.None? then (0, false)
    else if !Balanced(ts.value) then (0, false)
    else EvalRange(env, Marked(ts.value, true), 0, |ts.value| - 1, true)
  }

  lemma {:induction false} DepthConcat(a: seq<Token>, b: seq<Token>, i: nat)
    requires i <= |a| + |b|
    ensures Depth(a + b, i) == if i <= |a| then Depth(a, i) else Depth(a, |a|) + Depth(b, i - |a|)
    decreases i
  {
    if i > 0 {
      DepthConcat(a, b, i - 1);
    }
  }

  /** Two balanced strings around a token that is no parenthesis. */
  lemma {:induction false} BalancedAround(a: seq<Token>, x: Token, b: seq<Token>)
    requires Balanced(a) && Balanced(b) && Turn(x.ty) == 0
    ensures Balanced(a + [x] + b)
  {
    var ax := a + [x];
    DepthConcat(a, [x], |ax|);
    assert Depth([x], 1) == 0;
    forall i | 0 <= i <= |ax + b|
      ensures Depth(ax + b, i) == if i <= |a| then Depth(a, i) else Depth(b, i - |a| - 1)
    {
      DepthConcat(ax, b, i);
      if i <= |ax| {
        DepthConcat(a, [x], i);
      }
    }
  }

  lemma {:induction false} BalancedInside(a: seq<Token>)
    requires Balanced(a)
    ensures Balanced([Mark(LPAREN)] + a + [Mark(RPAREN)])
  {
    var open, close := [Mark(LPAREN)], [Mark(RPAREN)];
    assert Depth(open, 1) == 1 && Depth(close, 1) == -1;
    var s := open + a + close;
    forall i | 0 <= i <= |s|
      ensures Depth(s, i) == if i == 0 || i == |s| then 0 else 1 + Depth(a, i - 1)
    {
      DepthConcat(open + a, close, i);
      DepthConcat(open, a, if i <= |a| + 1 then i else |a| + 1);
    }
  }

  /** A printed tree is balanced. */
  lemma {:induction false} RawBalanced(t: Tree)
    requires Printable(t)
    ensures Balanced(Raw(t))
    decreases t
  {
    match t
    case Leaf(tok) =>
      assert Depth([tok], 1) == 0;
    case Paren(e) =>
      RawBalanced(e);
      BalancedInside(Raw(e));
    case Deref(e) =>
      RawBalanced(e);
      BalancedAround([], Mark(STAR), Raw(e));
      assert Raw(t) == [] + [Mark(STAR)] + Raw(e);
    case Bin(op, l, r) =>
      RawBalanced(l);
      RawBalanced(r);
      BalancedAround(Raw(l), Mark(op), Raw(r));
  }

  /** What reaches eval from a printed tree. */
  lemma {:induction false} PrintedReaches(t: Tree, items: seq<Item>, trail: nat)
    requires Printable(t) && TokensOf(items) == Raw(t)
    requires forall i :: 0 <= i < |items| ==> TokenOk(items[i].tok)
    ensures Lex(Render(items, trail), []) == if Fits(|items|, trail) then Some(Raw(t)) else None
    ensures Balanced(Raw(t)) && Marked(Raw(t), true) == Flat(t)
  {
    hide Lex, Render, Fits, Balanced, TokenOk, Printable;
    PrintedIsSeparate(t, items);
    LexRender(items, trail, []);
    assert [] + TokensOf(items) == TokensOf(items);
    RawBalanced(t);
    MarkedIsFlat(t, []);
    assert Raw(t) + [] == Raw(t) && Flat(t) + Marked([], false) == Flat(t);
  }

  /** The evaluator is right on every printed tree: within the token limit, expr succeeds exactly
      when the tree has a value, and returns it. */
  lemma {:induction false} ExprOfPrinted(env: Env, t: Tree, items: seq<Item>, trail: nat)
    requires EnvOk(env) && Printable(t) && TokensOf(items) == Raw(t)
    requires forall i :: 0 <= i < |items| ==> TokenOk(items[i].tok)
    ensures var r := ExprOf(env, Render(items, trail));
      && (r.1 <==> Fits(|items|, trail) && Value(env, t).Some?)
      && (r.1 ==> r.0 == Value(env, t).value)
  {
    hide Lex, Render, Balanced, Marked, Flat, Raw, Value, Fits, TokensOf, EvalRange, Printable, TokenOk;
    PrintedReaches(t, items, trail);
    EvalWhole(env, t);
  }

  // ----- && as C has it, and the names of registers -----------------------------------------------------------

  /** Against C: of a printed tree with a C value, expr returns that value if and only if the tokens fit and every right
      operand of && that C does not look at has a value too; of one without, it returns none. */
  lemma {:induction false} ExprAgainstC(env: Env, t: Tree, items: seq<Item>, trail: nat)
    requires EnvOk(env) && Printable(t) && TokensOf(items) == Raw(t)
    requires forall i :: 0 <= i < |items| ==> TokenOk(items[i].tok)
    ensures var r, c := ExprOf(env, Render(items, trail)), CMeaning(env, t);
      if c.None? then !r.1
      else (r == (c.value, true) <==> Fits(|items|, trail) && SkippedHaveValues(env, t)) && (r.1 ==> r.0 == c.value)
  {
    ExprOfPrinted(env, t, items, trail);
    ValueAgainstC(env, t);
    hide ExprOf, Value, CMeaning, SkippedHaveValues, Render, TokensOf, Raw, Printable, Fits;
  }

  function Digit(c: char): Token {
    Token(TK_DIGIT, [c])
  }

  /** "0&&1/0" has the C value 0, and expr fails on it. */
  lemma {:induction false} AndBothSides(env: Env)
    requires EnvOk(env)
    ensures var t := Bin(TK_AND, Leaf(Digit('0')), Bin(SLASH, Leaf(Digit('1')), Leaf(Digit('0'))));
      Printable(t) && CMeaning(env, t) == Some(0) && !ExprOf(env, "0&&1/0").1
  {
    var z, o := Digit('0'), Digit('1');
    var t := Bin(TK_AND, Leaf(z), Bin(SLASH, Leaf(o), Leaf(z)));
    var items := [Item(0, z), Item(0, Mark(TK_AND)), Item(0, o), Item(0, Mark(SLASH)), Item(0, z)];
    DigitValueIs('0');
    DigitValueIs('1');
    assert Value(env, t).None?;
    assert TokensOf(items) == [z, Mark(TK_AND), o, Mark(SLASH), z] == Raw(t);
    RenderTight([z, Mark(TK_AND), o, Mark(SLASH), z]);
    assert items == Tight([z, Mark(TK_AND), o, Mark(SLASH), z]);
    assert Texts([z, Mark(TK_AND), o, Mark(SLASH), z]) == "0&&1/0" by {
      assert Texts([]) == "" && Texts([z]) == "0" && Texts([Mark(SLASH), z]) == "/0";
      assert [z][1..] == [] && [Mark(SLASH), z][1..] == [z] && [o, Mark(SLASH), z][1..] == [Mark(SLASH), z];
      assert [Mark(TK_AND), o, Mark(SLASH), z][1..] == [o, Mark(SLASH), z];
      assert [z, Mark(TK_AND), o, Mark(SLASH), z][1..] == [Mark(TK_AND), o, Mark(SLASH), z];
      assert Texts([o, Mark(SLASH), z]) == "1/0" && Texts([Mark(TK_AND), o, Mark(SLASH), z]) == "&&1/0";
    }
    ExprOfPrinted(env, t, items, 0);
  }

  lemma {:induction false} DigitValueIs(c: char)
    requires c == '0' || c == '1'
    ensures LiteralValue(Digit(c)) == (if c == '0' then 0 else 1) && TokenOk(Digit(c))
  {
    assert [c][1..] == "" && ReadNumber("", 10, 0) == 0 && ReadNumber("", 10, 1) == 1;
    assert CountDigits("") == 0;
    assert CountDigits([c]) == 1 && [c][1..] == "";
  }

  function Tight(ts: seq<Token>): seq<Item> {
    seq(|ts|, i requires 0 <= i < |ts| => Item(0, ts[i]))
  }

  function Texts(ts: seq<Token>): string {
    if ts == [] then "" else Text(ts[0]) + Texts(ts[1..])
  }

  lemma {:induction false} RenderTight(ts: seq<Token>)
    ensures Render(Tight(ts), 0) == Texts(ts)
  {
    assert Spaces(0) == "";
    if ts != [] {
      assert Tight(ts)[1..] == Tight(ts[1..]);
      RenderTight(ts[1..]);
    }
  }

  /** The one token of "$" and a name, unless there are too many characters. */
  lemma {:induction false} RegisterToken(name: string)
    requires CountAlnum(name) == |name|
    ensures Lex("$" + name, []) == if 0 < |name| < 31 then Some([Token(TK_REG, "$" + name)]) else None
  {
    var s := "$" + name;
    assert s[1..] == name;
    if name == "" {
      NoRule(s, 0);
    } else {
      NoEarlier(s, 9);
      assert s[|s|..] == "" && s[..|s|] == s && [] + [Token(TK_REG, s)] == [Token(TK_REG, s)];
      LexEnd([Token(TK_REG, s)]);
    }
  }

  lemma {:induction false} NoRule(s: string, i: nat)
    requires i <= NR_REGEX && forall j :: i <= j < NR_REGEX ==> MatchRule(j, s) == 0
    ensures FirstRule(s, i) == NR_REGEX
    decreases NR_REGEX - i
  {
    if i < NR_REGEX {
      NoRule(s, i + 1);
    }
  }

  /** "$name" is read if and only if the name is pc or one of the register names but "$0", and gives that register. */
  lemma {:induction false} RegisterRead(env: Env, name: string)
    requires EnvOk(env) && CountAlnum(name) == |name|
    ensures var r := ExprOf(env, "$" + name);
      && (r.1 <==> name == "pc" || name in REGSL[1..])
      && (name == "pc" ==> r == (env.pc, true))
      && (forall k :: 1 <= k < 32 && name == REGSL[k] ==> r == (env.gpr[k], true))
  {
    RegisterToken(name);
    RegisterNames(env, name);
    RegisterNumber(env, name);
    hide Lex, IndexOfName, RegValue;
    if 0 < |name| < 31 {
      OneRegister(env, name);
    }
  }

  lemma {:induction false} OneRegister(env: Env, name: string)
    requires EnvOk(env)
    ensures var tok, v := Token(TK_REG, "$" + name), RegValue(env, name);
      && Balanced([tok]) && Marked([tok], true) == [tok]
      && EvalRange(env, [tok], 0, 0, true) == if v.Some? then (v.value, true) else (0, false)
  {
    hide RegValue;
    var tok := Token(TK_REG, "$" + name);
    assert tok.str[1..] == name;
    assert Depth([tok], 0) == 0 && Depth([tok], 1) == 0;
    MarkedStep(tok, [], true);
    assert [tok] + [] == [tok];
  }

  lemma {:induction false} RegisterNames(env: Env, name: string)
    requires EnvOk(env) && CountAlnum(name) == |name|
    ensures RegValue(env, name).Some? <==> name == "pc" || name in REGSL[1..]
    ensures name == "pc" || name in REGSL[1..] ==> 0 < |name| < 31
  {
    NoDollar(name);
    NameLengths();
    hide CountAlnum, IndexOfName;
    var i := IndexOfName(name, 0);
    if i.Some? {
      assert REGSL[1..][i.value - 1] == name;
    }
  }

  /** The names are all different. */
  lemma {:induction false} RegisterNumber(env: Env, name: string)
    requires EnvOk(env)
    ensures name == "pc" ==> RegValue(env, name) == Some(env.pc)
    ensures forall k :: 0 <= k < 32 && name == REGSL[k] ==> RegValue(env, name) == Some(env.gpr[k])
  {
    forall k | 0 <= k < 32 && name == REGSL[k] ensures RegValue(env, name) == Some(env.gpr[k]) {
      NameAt(k, 0);
    }
  }

  lemma {:induction false} NameAt(k: nat, i: nat)
    requires i <= k < 32
    ensures IndexOfName(REGSL[k], i) == Some(k) && REGSL[k] != "pc"
    decreases k - i
  {
    NamesDiffer(i, k);
    if i < k {
      NameAt(k, i + 1);
    }
  }

  lemma {:induction false} NamesDiffer(i: nat, k: nat)
    requires i <= k < 32
    ensures REGSL[k] != "pc" && (i < k ==> REGSL[i] != REGSL[k])
  {
  }

  lemma {:induction false} NoDollar(name: string)
    requires CountAlnum(name) == |name|
    ensures name != REGSL[0]
  {
    assert !IsAlnum('$') && CountAlnum("$0") == 0;
  }

  lemma {:induction false} NameLengths()
    ensures forall j :: 0 <= j < 31 ==> REGSL[1..][j] == REGSL[j + 1] && 0 < |REGSL[j + 1]| < 31
  {
  }

  /** "$0" is not read. */
  lemma {:induction false} ZeroNotRead(env: Env)
    requires EnvOk(env)
    ensures !ExprOf(env, "$0").1
  {
    hide ExprOf;
    NotAName();
    RegisterRead(env, "0");
    assert "$" + "0" == "$0";
  }

  lemma {:induction false} NotAName()
    ensures CountAlnum("0") == 1 && "0" != "pc" && "0" !in REGSL[1..]
  {
    assert CountAlnum("") == 0 && "0"[1..] == "";
    assert forall j :: 0 <= j < 31 ==> |REGSL[1..][j]| >= 2;
  }

  // ----- the program ----------------------------------------------------------------------------------------

  class Evaluator {
    const tokens: array<Token>
    var nrToken: nat
    var errorFlag: bool
    const env: Env

    constructor (e: Env)
      requires EnvOk(e)
      ensures Ready() && env == e
    {
      tokens := new Token[MAX_TOKENS];
      nrToken, errorFlag, env := 0, true, e;
    }

    ghost predicate Ready()
      reads this
    {
      tokens.Length == MAX_TOKENS && nrToken <= MAX_TOKENS && EnvOk(env)
    }

    function Tokens(): seq<Token>
      requires nrToken <= tokens.Length
      reads this, tokens
    {
      tokens[..nrToken]
    }

    method MakeToken(e: string) returns (ok: bool)
      requires Ready()
      modifies this`nrToken, tokens
      ensures Ready()
      ensures ok <==> Lex(e, []).Some?
      ensures ok ==> Tokens() == Lex(e, []).value
    {
      hide MatchRule;
      var position := 0;
      nrToken := 0;
      assert e[0..] == e && Tokens() == [];
      while position < |e|
        invariant position <= |e| && Ready()
        invariant Lex(e[position..], Tokens()) == Lex(e, [])
      {
        var rest := e[position..];
        var i := 0;
        while i < NR_REGEX && MatchRule(i, rest) == 0
          invariant i <= NR_REGEX && FirstRule(rest, 0) == FirstRule(rest, i)
        {
          i := i + 1;
        }
        if i == NR_REGEX || nrToken >= MAX_TOKENS {
          return false;
        }
        var len := MatchRule(i, rest);
        ghost var acc := Tokens();
        if RuleType(i) != TK_NOTYPE {
          var text := "";
          if IsOperand(RuleType(i)) {
            if len >= 32 {
              return false;
            }
            text := rest[..len];
          }
          tokens[nrToken] := Token(RuleType(i), text);
          nrToken := nrToken + 1;
          assert Tokens() == acc + [Token(RuleType(i), text)];
        }
        assert rest[len..] == e[position + len..];
        position := position + len;
      }
      assert e[position..] == "";
      return true;
    }

    method IsLegalParentheses() returns (legal: bool)
      requires Ready()
      ensures legal <==> Balanced(Tokens())
    {
      var stackTop := -1;
      var i := 0;
      while i < nrToken
        invariant i <= nrToken && stackTop == Depth(Tokens(), i) - 1
        invariant forall j :: 0 <= j <= i ==> Depth(Tokens(), j) >= 0
      {
        if tokens[i].ty == LPAREN {
          stackTop := stackTop + 1;
        } else if tokens[i].ty == RPAREN {
          if stackTop < 0 {
            assert Depth(Tokens(), i + 1) < 0;
            return false;
          }
          stackTop := stackTop - 1;
        }
        i := i + 1;
      }
      return stackTop < 0;
    }

    method CheckParentheses(start: nat, end: nat) returns (flag: bool)
      requires Ready() && start <= end < nrToken
      ensures flag == Wrapped(Tokens(), start, end)
    {
      flag := false;
      var stackTop := 0;
      if tokens[start].ty == LPAREN && tokens[end].ty == RPAREN {
        var i := start + 1;
        while i <= end
          invariant i <= end + 1
          invariant OneGroup(Tokens(), start + 1, end, 0) == OneGroup(Tokens(), i, end, stackTop)
        {
          if tokens[i].ty == LPAREN {
            if stackTop == -1 {
              return false;
            }
            stackTop := stackTop + 1;
          } else if tokens[i].ty == RPAREN {
            stackTop := stackTop - 1;
          }
          i := i + 1;
        }
        flag := true;
      }
    }

    /** The loop has no bound of its own: that it stays inside the tokens is because the whole array
        is balanced. */
    method GoForwardFrom(start: nat) returns (cursor: nat)
      requires Ready() && start < nrToken && Balanced(Tokens())
      ensures cursor == GoForward(Tokens(), start)
    {
      cursor := start;
      ghost var ts := Tokens();
      if tokens[cursor].ty == LPAREN {
        var stackTop := 0;
        assert Depth(ts, start + 1) == Depth(ts, start) + 1;
        while stackTop != -1
          invariant start <= cursor < nrToken && -1 <= stackTop
          invariant stackTop == Depth(ts, cursor + 1) - Depth(ts, start) - 1
          invariant Scan(ts, start + 1, 0) == if stackTop == -1 then cursor else Scan(ts, cursor + 1, stackTop)
          decreases nrToken - cursor, if stackTop == -1 then 0 else 1
        {
          assert cursor + 1 != nrToken by {
            assert Depth(ts, nrToken) == 0 && Depth(ts, start) >= 0;
          }
          cursor := cursor + 1;
          if tokens[cursor].ty == LPAREN {
            stackTop := stackTop + 1;
          } else if tokens[cursor].ty == RPAREN {
            stackTop := stackTop - 1;
          }
        }
      }
      cursor := cursor + 1;
    }

    method FindMainop(start: nat, end: nat) returns (r: int)
      requires Ready() && Balanced(Tokens()) && end < nrToken
      ensures r == FindOp(Tokens(), start, end, 0, NONOP)
    {
      ghost var ts := Tokens();
      var expectedOp := NONOP;
      var mopPos := 0;
      var current := start;
      while current <= end
        invariant mopPos < nrToken && expectedOp < 256
        invariant FindOp(ts, start, end, 0, NONOP) == FindOp(ts, current, end, mopPos, expectedOp)
        decreases end + 1 - current
      {
        if IsOp(tokens[current].ty) {
          if expectedOp == NONOP {
            return -1;
          }
          if TablePriority(tokens[current].ty) >= TablePriority(tokens[mopPos].ty) {
            mopPos := current;
          }
        } else {
          if expectedOp == OP {
            return -1;
          }
          ghost var first := current;
          while current < end && tokens[current].ty == TK_DEREF
            invariant first <= current <= end
            invariant SkipDeref(ts, first, end) == SkipDeref(ts, current, end)
          {
            current := current + 1;
          }
          if IsOp(tokens[current].ty) || tokens[current].ty == TK_DEREF {
            return -1;
          }
          var ignored := GoForwardFrom(current);
        }
        expectedOp := Complement8(expectedOp);
        current := GoForwardFrom(current);
      }
      if expectedOp == NONOP {
        return -1;
      }
      return mopPos;
    }

    /** eval, with the error flag as a field: every string whose parentheses match is evaluated
        without leaving the token array. */
    method EvalTokens(start: nat, end: int) returns (val: nat)
      requires Ready() && Balanced(Tokens()) && end < nrToken
      modifies this`errorFlag
      ensures Ready() && (val, errorFlag) == EvalRange(env, Tokens(), start, end, old(errorFlag))
      decreases end + 1 - start
    {
      hide FindOp, Wrapped, Balanced, Apply, RegValue, LiteralValue;
      if !errorFlag {
        return 0;
      }
      if start > end {
        errorFlag := false;
        return 0;
      }
      if start == end {
        var tok := tokens[start];
        if tok.ty == TK_DIGIT || tok.ty == TK_HEX {
          return LiteralValue(tok);
        }
        if tok.ty == TK_REG {
          var v := RegValue(env, if |tok.str| > 0 then tok.str[1..] else "");
          if v.Some? {
            return v.value;
          }
        }
        errorFlag := false;
        return 0;
      }
      var wrapped := CheckParentheses(start, end);
      if wrapped {
        val := EvalTokens(start + 1, end - 1);
        return;
      }
      var mopPos := FindMainop(start, end);
      if mopPos == -1 {
        errorFlag := false;
        return 0;
      }
      if mopPos == 0 {
        var addr := EvalTokens(start + 1, end);
        if AddressOk(addr) {
          return env.read(addr);
        }
        errorFlag := false;
        return 0;
      }
      var left := EvalTokens(start, mopPos - 1);
      var right := EvalTokens(mopPos + 1, end);
      var v := Apply(tokens[mopPos].ty, left, right);
      if v.Some? {
        return v.value;
      }
      errorFlag := false;
      return 0;
    }

    /** The marking loop of expr. */
    method MarkDerefs()
      requires Ready()
      modifies tokens
      ensures Tokens() == Marked(old(Tokens()), true)
    {
      ghost var ts := Tokens();
      ghost var ms := Marked(ts, true);
      var i := 0;
      while i < nrToken
        invariant i <= nrToken
        invariant forall j :: 0 <= j < i ==> tokens[j] == ms[j]
        invariant forall j :: i <= j < nrToken ==> tokens[j] == ts[j]
      {
        MarkedAt(ts, true, i);
        if tokens[i].ty == STAR && (i == 0 || IsOp(tokens[i - 1].ty) || tokens[i - 1].ty == LPAREN || tokens[i - 1].ty == TK_DEREF) {
          tokens[i] := tokens[i].(ty := TK_DEREF);
        }
        i := i + 1;
      }
    }

    method Expr(e: string) returns (result: nat, success: bool)
      requires Ready()
      modifies this, tokens
      ensures Ready()
      ensures (result, success) == ExprOf(env, e)
    {
      var ok := MakeToken(e);
      if !ok {
        return 0, false;
      }
      result := 0;
      var legal := IsLegalParentheses();
      if legal {
        errorFlag := true;
        MarkedBalanced(Tokens());
        MarkDerefs();
        result := EvalTokens(0, nrToken - 1);
      }
      success := legal && errorFlag;
    }
  }
}

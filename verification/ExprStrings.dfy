/** expr on every string: it succeeds exactly on those whose tokens print a tree that has a value (nemu/src/monitor/debug/expr.c). */
module ExprStrings {
  import opened Wrappers
  import opened ExprTree
  import opened Eval
  import opened Lexer
  import opened Debugger

  /** Tokens as the tokenizer makes them, stars told apart. */
  predicate Lexed(ts: seq<Token>) {
    forall i :: 0 <= i < |ts| ==> LexedToken(ts[i])
  }

  predicate LexedToken(tok: Token) {
    IsOperand(tok.ty)
    || (tok == Mark(tok.ty) && (IsOp(tok.ty) || tok.ty == LPAREN || tok.ty == RPAREN || tok.ty == TK_DEREF))
  }

  /** A dereference in front of a printed tree goes to its first operand. */
  function DerefFirst(t: Tree): (r: Tree)
    requires Printable(t)
    ensures Printable(r) && Prec(r) == Prec(t)
  {
    match t
    case Bin(op, l, r) => Bin(op, DerefFirst(l), r)
    case _ => Deref(t)
  }

  lemma {:induction false} DerefFirstPrints(t: Tree)
    requires Printable(t)
    ensures Flat(DerefFirst(t)) == [Mark(TK_DEREF)] + Flat(t)
    decreases t
  {
    match t
    case Bin(op, l, r) =>
      DerefFirstPrints(l);
      assert [Mark(TK_DEREF)] + Flat(l) + [Mark(op)] + Flat(r) == [Mark(TK_DEREF)] + (Flat(l) + [Mark(op)] + Flat(r));
    case _ =>
  }

  // ----- tokens side by side -----------------------------------------------------------------------------------------

  /** The complement of expected_op is 255, which is neither of its two names: tokens side by side are taken in turns for
      an operand and for nothing.  A scan that finds no operator from one of the two states fails from the other. */
  lemma {:induction false} Parity(ts: seq<Token>, cur: nat, end: nat, expected: nat)
    requires end < |ts| && TablePriority(ts[0].ty) == 0 && (expected == 0 || expected == 255)
    requires FindOp(ts, cur, end, 0, expected) == 0 && cur > 0
    ensures FindOp(ts, cur, end, 0, 255 - expected) == -1
    decreases end + 1 - cur
  {
    hide GoForward, TablePriority, SkipDeref;
    if cur <= end && !IsOp(ts[cur].ty) {
      var k := SkipDeref(ts, cur, end);
      Parity(ts, GoForward(ts, k), end, 255 - expected);
    }
  }

  /** The scan of check_parentheses behind the place where the first parenthesis is closed. */
  lemma {:induction false} Closed(ts: seq<Token>, i: nat, end: nat, top: int)
    requires i <= end < |ts| && OneGroup(ts, i, end, top) && Scan(ts, i, top) < end && top >= 0
    ensures var g := Scan(ts, i, top); OneGroup(ts, g + 1, end, -1) && Depth(ts, g + 1) == Depth(ts, i) - top - 1
    decreases end - i
  {
    var t := top + Turn(ts[i].ty);
    if t != -1 {
      Closed(ts, i + 1, end, t);
    }
  }

  /** From there on the stack never gets any higher. */
  lemma {:induction false} Sinks(ts: seq<Token>, i: nat, end: nat, top: int)
    requires i <= end < |ts| && OneGroup(ts, i, end, top) && top <= -1 && ts[end].ty == RPAREN
    ensures top + Depth(ts, end + 1) - Depth(ts, i) <= -2
    decreases end - i
  {
    if i < end {
      Sinks(ts, i + 1, end, top + Turn(ts[i].ty));
    }
  }

  /** A range that is taken for a group although another operand follows has closed more than it opened. */
  lemma {:induction false} WrappedTwice(ts: seq<Token>, start: nat, end: nat)
    requires start < end < |ts| && Wrapped(ts, start, end) && FindOp(ts, start, end, 0, NONOP) == -1
    ensures Depth(ts, end + 1) - Depth(ts, start) <= -1
  {
    assert SkipDeref(ts, start, end) == start;
    var g := Scan(ts, start + 1, 0);
    assert GoForward(ts, start) == g + 1;
    if g >= end {
      assert FindOp(ts, g + 1, end, 0, Complement8(NONOP)) == 0;
    } else {
      Closed(ts, start + 1, end, 0);
      Sinks(ts, g + 1, end, -1);
    }
    hide FindOp;
  }

  /** What the scan answers with 0 begins with a dereference, with a parenthesis, or with an operand that others follow. */
  lemma {:induction false} NoOperator(ts: seq<Token>, start: nat, end: nat)
    requires start < end < |ts| && TablePriority(ts[0].ty) == 0 && FindOp(ts, start, end, 0, NONOP) == 0
    requires ts[start].ty != TK_DEREF && ts[start].ty != LPAREN
    ensures start + 1 < end && FindOp(ts, start + 1, end, 0, NONOP) == -1
  {
    assert SkipDeref(ts, start, end) == start && GoForward(ts, start) == start + 1;
    assert FindOp(ts, start + 1, end, 0, 255) == 0;
    Parity(ts, start + 1, end, 255);
  }

  // ----- success means a tree ----------------------------------------------------------------------------------------

  /** A range that closes no more parentheses than it opens, and prints t if it closes as many. */
  predicate Stands(ts: seq<Token>, start: nat, end: nat, t: Tree) {
    && start <= end < |ts| && Depth(ts, end + 1) >= Depth(ts, start)
    && (Depth(ts, end + 1) == Depth(ts, start) ==> Printable(t) && Flat(t) == ts[start..end + 1])
  }

  /** The tree of a range on which eval succeeds. */
  lemma {:induction false} EvalTree(env: Env, ts: seq<Token>, start: nat, end: int) returns (t: Tree)
    requires EnvOk(env) && end < |ts| && Lexed(ts) && ts != [] && TablePriority(ts[0].ty) == 0
    requires EvalRange(env, ts, start, end, true).1
    ensures start <= end && Stands(ts, start, end, t)
    decreases end + 1 - start
  {
    RangeParts(env, ts, start, end);
    hide *;
    if start == end {
      t := LeafRange(ts, start);
    } else if Wrapped(ts, start, end) {
      var e := EvalTree(env, ts, start + 1, end - 1);
      t := ParenRange(ts, start, end, e);
    } else {
      var mop := FindOp(ts, start, end, 0, NONOP);
      if mop == 0 {
        t := EvalDeref(env, ts, start, end);
      } else {
        var l := EvalTree(env, ts, start, mop - 1);
        var r := EvalTree(env, ts, mop + 1, end);
        t := JoinRange(ts, start, mop, end, l, r);
      }
    }
  }

  /** What eval went on with. */
  lemma {:induction false} RangeParts(env: Env, ts: seq<Token>, start: nat, end: int)
    requires EnvOk(env) && end < |ts| && EvalRange(env, ts, start, end, true).1
    ensures start <= end
    ensures start == end ==> IsOperand(ts[start].ty)
    ensures start < end && Wrapped(ts, start, end) ==>
              ts[start].ty == LPAREN && ts[end].ty == RPAREN && EvalRange(env, ts, start + 1, end - 1, true).1
    ensures start < end && !Wrapped(ts, start, end) && FindOp(ts, start, end, 0, NONOP) != 0 ==>
              var mop := FindOp(ts, start, end, 0, NONOP);
              && start <= mop <= end && IsOp(ts[mop].ty)
              && EvalRange(env, ts, start, mop - 1, true).1 && EvalRange(env, ts, mop + 1, end, true).1
  {
    hide FindOp, OneGroup;
  }

  lemma {:induction false} LeafRange(ts: seq<Token>, start: nat) returns (t: Tree)
    requires start < |ts| && IsOperand(ts[start].ty)
    ensures Stands(ts, start, start, t)
  {
    t := Leaf(ts[start]);
    assert ts[start..start + 1] == [ts[start]];
  }

  lemma {:induction false} ParenRange(ts: seq<Token>, start: nat, end: nat, e: Tree) returns (t: Tree)
    requires start < end < |ts| && Lexed(ts) && ts[start].ty == LPAREN && ts[end].ty == RPAREN
    requires start + 1 <= end - 1 && Stands(ts, start + 1, end - 1, e)
    ensures Stands(ts, start, end, t)
  {
    Inside(ts, start, end);
    t := Paren(e);
  }

  lemma {:induction false} JoinRange(ts: seq<Token>, start: nat, mop: nat, end: nat, l: Tree, r: Tree) returns (t: Tree)
    requires start < mop < end < |ts| && Lexed(ts) && IsOp(ts[mop].ty)
    requires Stands(ts, start, mop - 1, l) && Stands(ts, mop + 1, end, r)
    ensures Stands(ts, start, end, t)
  {
    assert LexedToken(ts[mop]);
    assert ts[start..end + 1] == ts[start..mop] + [ts[mop]] + ts[mop + 1..end + 1];
    t := l;
    if Depth(ts, end + 1) == Depth(ts, start) {
      t := Join(ts[mop].ty, l, r);
      JoinPrints(ts[mop].ty, l, r);
    }
  }

  lemma {:induction false} Inside(ts: seq<Token>, start: nat, end: nat)
    requires start < end < |ts| && Lexed(ts) && ts[start].ty == LPAREN && ts[end].ty == RPAREN
    ensures Depth(ts, end) - Depth(ts, start + 1) == Depth(ts, end + 1) - Depth(ts, start)
    ensures ts[start..end + 1] == [Mark(LPAREN)] + ts[start + 1..end] + [Mark(RPAREN)]
  {
    assert LexedToken(ts[start]) && LexedToken(ts[end]);
  }

  /** The case of a range without an operator. */
  lemma {:induction false} EvalDeref(env: Env, ts: seq<Token>, start: nat, end: nat) returns (t: Tree)
    requires EnvOk(env) && start < end < |ts| && Lexed(ts) && TablePriority(ts[0].ty) == 0
    requires EvalRange(env, ts, start, end, true).1 && !Wrapped(ts, start, end) && FindOp(ts, start, end, 0, NONOP) == 0
    ensures Stands(ts, start, end, t)
    decreases end + 1 - start, 0
  {
    hide TablePriority, FindOp, Wrapped;
    if ts[start].ty != TK_DEREF && ts[start].ty != LPAREN {
      NoOperator(ts, start, end);
      FailsTwice(env, ts, start + 1, end);
      assert false;
    } else {
      var e := EvalTree(env, ts, start + 1, end);
      t := if Printable(e) then DerefFirst(e) else e;
      if Printable(e) {
        DerefFirstPrints(e);
      }
      assert LexedToken(ts[start]);
      assert ts[start..end + 1] == [ts[start]] + ts[start + 1..end + 1];
    }
  }

  /** A range without a main operator has no value, not even if it is taken for a group. */
  lemma {:induction false} FailsTwice(env: Env, ts: seq<Token>, start: nat, end: nat)
    requires EnvOk(env) && start < end < |ts| && Lexed(ts) && TablePriority(ts[0].ty) == 0
    requires FindOp(ts, start, end, 0, NONOP) == -1
    ensures !EvalRange(env, ts, start, end, true).1
    decreases end + 1 - start, 0
  {
    if Wrapped(ts, start, end) && EvalRange(env, ts, start, end, true).1 {
      WrappedTwice(ts, start, end);
      RangeParts(env, ts, start, end);
      Inside(ts, start, end);
      hide EvalRange, Wrapped, FindOp, TablePriority;
      var e := EvalTree(env, ts, start + 1, end - 1);
    }
  }

  // ----- every string ------------------------------------------------------------------------------------------------

  /** The tokenizer tells no stars apart. */
  lemma {:induction false} LexLexed(s: string, acc: seq<Token>)
    requires Lexed(acc) && forall i :: 0 <= i < |acc| ==> acc[i].ty != TK_DEREF
    ensures var r := Lex(s, acc); r.Some? ==> Lexed(r.value) && forall i :: 0 <= i < |r.value| ==> r.value[i].ty != TK_DEREF
    decreases |s|
  {
    hide MatchRule;
    if s != "" {
      var i := FirstRule(s, 0);
      if i < NR_REGEX && |acc| < MAX_TOKENS {
        var n, ty := MatchRule(i, s), RuleType(i);
        var tok := if IsOperand(ty) then Token(ty, s[..n]) else Mark(ty);
        if ty == TK_NOTYPE {
          LexLexed(s[n..], acc);
        } else {
          RuleToken(i);
          assert LexedToken(tok) && tok.ty != TK_DEREF;
          LexLexed(s[n..], acc + [tok]);
        }
      }
    }
  }

  lemma {:induction false} RuleToken(i: nat)
    requires i < NR_REGEX
    ensures var ty := RuleType(i);
      ty != TK_DEREF && (ty == TK_NOTYPE || IsOperand(ty) || IsOp(ty) || ty == LPAREN || ty == RPAREN)
  {
  }

  function Unmark(ts: seq<Token>): seq<Token> {
    seq(|ts|, i requires 0 <= i < |ts| => if ts[i].ty == TK_DEREF then Mark(STAR) else ts[i])
  }

  lemma {:induction false} UnmarkFlat(t: Tree)
    requires Printable(t)
    ensures Unmark(Flat(t)) == Raw(t)
    decreases t
  {
    match t
    case Leaf(_) =>
    case Paren(e) => UnmarkFlat(e);
    case Deref(e) => UnmarkFlat(e);
    case Bin(op, l, r) =>
      UnmarkFlat(l);
      UnmarkFlat(r);
  }

  lemma {:induction false} UnmarkMarked(ts: seq<Token>)
    requires Lexed(ts) && forall i :: 0 <= i < |ts| ==> ts[i].ty != TK_DEREF
    ensures Unmark(Marked(ts, true)) == ts && Lexed(Marked(ts, true))
  {
    forall i | 0 <= i < |ts|
      ensures LexedToken(Marked(ts, true)[i]) && Unmark(Marked(ts, true))[i] == ts[i]
    {
      MarkedAt(ts, true, i);
      assert LexedToken(ts[i]);
    }
  }

  /** The first token of what eval accepts is no operator. */
  lemma {:induction false} FirstIsNoOperator(env: Env, ts: seq<Token>)
    requires EnvOk(env) && Lexed(ts) && EvalRange(env, ts, 0, |ts| - 1, true).1
    ensures ts != [] && TablePriority(ts[0].ty) == 0
  {
    RangeParts(env, ts, 0, |ts| - 1);
    assert LexedToken(ts[0]);
    OperatorFirst(ts, |ts| - 1);
    hide FindOp, TablePriority, OneGroup;
  }

  lemma {:induction false} OperatorFirst(ts: seq<Token>, end: nat)
    requires end < |ts| && LexedToken(ts[0])
    ensures if IsOp(ts[0].ty) then FindOp(ts, 0, end, 0, NONOP) == -1 else TablePriority(ts[0].ty) == 0
  {
  }

  /** What eval makes of balanced tokens, of which it makes something. */
  lemma {:induction false} AcceptedIsTree(env: Env, ts: seq<Token>) returns (t: Tree)
    requires EnvOk(env) && Lexed(ts) && (forall i :: 0 <= i < |ts| ==> ts[i].ty != TK_DEREF) && Balanced(ts)
    requires EvalRange(env, Marked(ts, true), 0, |ts| - 1, true).1
    ensures Printable(t) && Raw(t) == ts && Flat(t) == Marked(ts, true)
  {
    var m := Marked(ts, true);
    UnmarkMarked(ts);
    MarkedBalanced(ts);
    FirstIsNoOperator(env, m);
    t := EvalTree(env, m, 0, |m| - 1);
    assert m[0..|m|] == m;
    UnmarkFlat(t);
  }

  /** expr succeeds on a string if and only if its tokens print a tree that has a value, and then returns that value;
      whatever tree it is that they print. */
  lemma {:induction false} ExprExactly(env: Env, e: string)
    requires EnvOk(env)
    ensures var r := ExprOf(env, e);
      r.1 <==> exists t: Tree :: Printable(t) && Lex(e, []) == Some(Raw(t)) && Value(env, t).Some?
    ensures var r := ExprOf(env, e);
      forall t: Tree :: Printable(t) && Lex(e, []) == Some(Raw(t)) ==>
        (r.1 <==> Value(env, t).Some?) && (r.1 ==> r.0 == Value(env, t).value)
  {
    var r := ExprOf(env, e);
    forall t: Tree | Printable(t) && Lex(e, []) == Some(Raw(t))
      ensures (r.1 <==> Value(env, t).Some?) && (r.1 ==> r.0 == Value(env, t).value)
    {
      TreeAccepted(env, t);
    }
    LexLexed(e, []);
    hide Lex, Value, EvalRange, Raw, Flat, Marked, Balanced;
    if r.1 {
      var t := AcceptedIsTree(env, Lex(e, []).value);
    }
  }

  lemma {:induction false} TreeAccepted(env: Env, t: Tree)
    requires EnvOk(env) && Printable(t)
    ensures Balanced(Raw(t))
    ensures var r := EvalRange(env, Marked(Raw(t), true), 0, |Raw(t)| - 1, true);
      (r.1 <==> Value(env, t).Some?) && (r.1 ==> r.0 == Value(env, t).value)
  {
    RawBalanced(t);
    MarkedIsFlat(t, []);
    assert Raw(t) + [] == Raw(t) && Flat(t) + Marked([], false) == Flat(t);
    EvalWhole(env, t);
    hide Value, EvalRange, Raw, Flat, Balanced;
    assert |Flat(t)| == |Raw(t)|;
  }
}

/** The recursive evaluator of nemu/src/monitor/debug/expr.c: what its loops compute, as functions
    over the token sequence, and why that is the meaning of the tree the tokens print. */
module Eval {
  import opened ExprTree

  const NONOP: nat := 0
  const OP: nat := 1

  /** bop_priority, indexed by the type modulo 20. */
  const BOP_PRIORITY: seq<nat> := [0, 0, 3, 4, 0, 4, 0, 3, 0, 0, 0, 7, 7, 11, 0, 0, 0, 0, 0, 0]

  function TablePriority(ty: nat): nat {
    BOP_PRIORITY[ty % 20]
  }

  /** `~x` on a uint8_t: what `bool` is in NEMU. */
  function Complement8(x: nat): nat
    requires x < 256
  {
    255 - x
  }

  // ----- parentheses ------------------------------------------------------------------------------------

  function Turn(ty: nat): int {
    if ty == LPAREN then 1 else if ty == RPAREN then -1 else 0
  }

  /** Opening minus closing parentheses among the first i tokens. */
  function Depth(ts: seq<Token>, i: nat): int
    requires i <= |ts|
  {
    if i == 0 then 0 else Depth(ts, i - 1) + Turn(ts[i - 1].ty)
  }

  /** Every prefix has at least as many opening as closing parentheses, and the whole as many. */
  predicate Balanced(ts: seq<Token>) {
    (forall i :: 0 <= i <= |ts| ==> Depth(ts, i) >= 0) && Depth(ts, |ts|) == 0
  }

  /** The first index from i on at which a stack of `top` + 1 open parentheses gets empty. */
  function Scan(ts: seq<Token>, i: nat, top: int): (r: nat)
    requires i <= |ts|
    ensures i <= r <= |ts|
    decreases |ts| - i
  {
    if i == |ts| then i
    else
      var t := top + Turn(ts[i].ty);
      if t == -1 then i else Scan(ts, i + 1, t)
  }

  /** Where go_foward leads from token c. */
  function GoForward(ts: seq<Token>, c: nat): (r: nat)
    requires c < |ts|
    ensures c < r <= |ts| + 1
  {
    if ts[c].ty == LPAREN then Scan(ts, c + 1, 0) + 1 else c + 1
  }

  /** The scan of check_parentheses: no opening parenthesis once the first one is closed. */
  function OneGroup(ts: seq<Token>, i: nat, end: nat, top: int): bool
    requires end < |ts|
    decreases end + 1 - i
  {
    if i > end then true
    else if ts[i].ty == LPAREN then top != -1 && OneGroup(ts, i + 1, end, top + 1)
    else OneGroup(ts, i + 1, end, top + Turn(ts[i].ty))
  }

  function Wrapped(ts: seq<Token>, start: nat, end: nat): bool
    requires start <= end < |ts|
  {
    ts[start].ty == LPAREN && ts[end].ty == RPAREN && OneGroup(ts, start + 1, end, 0)
  }

  // ----- the main operator --------------------------------------------------------------------------------

  function SkipDeref(ts: seq<Token>, cur: nat, end: nat): (r: nat)
    requires cur <= end < |ts|
    ensures cur <= r <= end
    decreases end - cur
  {
    if cur < end && ts[cur].ty == TK_DEREF then SkipDeref(ts, cur + 1, end) else cur
  }

  function FindOp(ts: seq<Token>, cur: nat, end: nat, mop: nat, expected: nat): (r: int)
    requires end < |ts| && mop < |ts| && expected < 256
    ensures r == -1 || r == mop || (cur <= r <= end && IsOp(ts[r].ty))
    decreases end + 1 - cur
  {
    if cur > end then (if expected == NONOP then -1 else mop)
    else if IsOp(ts[cur].ty) then
      if expected == NONOP then -1
      else
        var mop' := if TablePriority(ts[cur].ty) >= TablePriority(ts[mop].ty) then cur else mop;
        FindOp(ts, GoForward(ts, cur), end, mop', Complement8(expected))
    else if expected == OP then -1
    else
      var k := SkipDeref(ts, cur, end);
      if IsOp(ts[k].ty) || ts[k].ty == TK_DEREF then -1
      else FindOp(ts, GoForward(ts, k), end, mop, Complement8(expected))
  }

  // ----- eval -----------------------------------------------------------------------------------------------

  /** The value of a lone token, and whether it has one. */
  function EvalToken(env: Env, tok: Token): (r: (nat, bool))
    requires EnvOk(env)
    ensures r.0 < WORD
  {
    if tok.ty == TK_DIGIT || tok.ty == TK_HEX then (LiteralValue(tok), true)
    else if tok.ty == TK_REG then
      var v := RegValue(env, if |tok.str| > 0 then tok.str[1..] else "");
      if v.Some? then (v.value, true) else (0, false)
    else (0, false)
  }

  /** The result of eval and the error flag it leaves, from the flag it finds. */
  function EvalRange(env: Env, ts: seq<Token>, start: nat, end: int, flag: bool): (r: (nat, bool))
    requires EnvOk(env) && end < |ts|
    ensures r.0 < WORD && (!flag ==> !r.1)
    decreases end + 1 - start
  {
    if !flag || start > end then (0, false)
    else if start == end then EvalToken(env, ts[start])
    else if Wrapped(ts, start, end) then EvalRange(env, ts, start + 1, end - 1, flag)
    else
      var mop := FindOp(ts, start, end, 0, NONOP);
      if mop == -1 then (0, false)
      else if mop == 0 then
        var a := EvalRange(env, ts, start + 1, end, flag);
        if AddressOk(a.0) then (env.read(a.0), a.1) else (0, false)
      else
        var a := EvalRange(env, ts, start, mop - 1, flag);
        var b := EvalRange(env, ts, mop + 1, end, a.1);
        var v := Apply(ts[mop].ty, a.0, b.0);
        if v.Some? then (v.value, b.1) else (0, false)
  }

  // ----- printed trees -----------------------------------------------------------------------------------------

  /** The tokens of t stand at position o. */
  ghost predicate At(ts: seq<Token>, o: nat, t: Tree) {
    o + |Flat(t)| <= |ts| && ts[o..o + |Flat(t)|] == Flat(t)
  }

  /** Where the parts of a tree at o stand. */
  ghost predicate Parts(ts: seq<Token>, o: nat, t: Tree) {
    && o + |Flat(t)| <= |ts|
    && match t
       case Leaf(tok) => |Flat(t)| == 1 && ts[o] == tok
       case Paren(e) =>
         && |Flat(t)| == |Flat(e)| + 2
         && ts[o].ty == LPAREN && At(ts, o + 1, e) && ts[o + 1 + |Flat(e)|].ty == RPAREN
       case Deref(e) => |Flat(t)| == |Flat(e)| + 1 && ts[o].ty == TK_DEREF && At(ts, o + 1, e)
       case Bin(op, l, r) =>
         && |Flat(t)| == |Flat(l)| + 1 + |Flat(r)|
         && At(ts, o, l) && ts[o + |Flat(l)|] == Mark(op) && At(ts, o + |Flat(l)| + 1, r)
  }

  lemma {:induction false} AtParts(ts: seq<Token>, o: nat, t: Tree)
    requires At(ts, o, t)
    ensures Parts(ts, o, t)
  {
    match t
    case Leaf(tok) =>
      assert ts[o] == ts[o..o + 1][0];
    case Paren(e) =>
      SplitEnds(ts, o, Mark(LPAREN), Flat(e), Mark(RPAREN));
    case Deref(e) =>
      Split(ts, o, [Mark(TK_DEREF)], Flat(e));
    case Bin(op, l, r) =>
      SplitThree(ts, o, Flat(l), Mark(op), Flat(r));
  }

  lemma {:induction false} SplitEnds(ts: seq<Token>, o: nat, x: Token, f: seq<Token>, y: Token)
    requires o + |f| + 2 <= |ts| && ts[o..o + |f| + 2] == [x] + f + [y]
    ensures ts[o] == x && ts[o + 1..o + 1 + |f|] == f && ts[o + 1 + |f|] == y
  {
    Split(ts, o, [x] + f, [y]);
    Split(ts, o, [x], f);
  }

  lemma {:induction false} SplitThree(ts: seq<Token>, o: nat, f: seq<Token>, x: Token, g: seq<Token>)
    requires o + |f| + 1 + |g| <= |ts| && ts[o..o + |f| + 1 + |g|] == f + [x] + g
    ensures ts[o..o + |f|] == f && ts[o + |f|] == x && ts[o + |f| + 1..o + |f| + 1 + |g|] == g
  {
    Split(ts, o, f + [x], g);
    Split(ts, o, f, [x]);
  }

  /** A concatenation that stands at o. */
  lemma {:induction false} Split(ts: seq<Token>, o: nat, a: seq<Token>, b: seq<Token>)
    requires o + |a + b| <= |ts| && ts[o..o + |a + b|] == a + b
    ensures ts[o..o + |a|] == a && ts[o + |a|..o + |a| + |b|] == b
    ensures |a| == 1 ==> ts[o] == a[0]
    ensures |b| == 1 ==> ts[o + |a|] == b[0]
  {
    var s := ts[o..o + |a + b|];
    assert ts[o..o + |a|] == s[..|a|] && ts[o + |a|..o + |a| + |b|] == s[|a|..];
    assert |a| == 1 ==> ts[o] == s[0];
    assert |b| == 1 ==> ts[o + |a|] == s[|a|];
  }

  /** A printed tree is balanced: a scan with something open runs over it. */
  lemma {:induction false} ScanOver(ts: seq<Token>, o: nat, t: Tree, top: int)
    requires At(ts, o, t) && Printable(t) && top >= 0
    ensures Scan(ts, o, top) == Scan(ts, o + |Flat(t)|, top)
    decreases t
  {
    hide At, Flat;
    AtParts(ts, o, t);
    match t
    case Leaf(_) =>
    case Paren(e) =>
      ScanOver(ts, o + 1, e, top + 1);
    case Deref(e) =>
      ScanOver(ts, o + 1, e, top);
    case Bin(op, l, r) =>
      ScanOver(ts, o, l, top);
      ScanOver(ts, o + |Flat(l)| + 1, r, top);
  }

  /** go_foward steps over a whole operand. */
  lemma {:induction false} GoForwardOver(ts: seq<Token>, o: nat, t: Tree)
    requires At(ts, o, t) && Printable(t) && (t.Leaf? || t.Paren?)
    ensures GoForward(ts, o) == o + |Flat(t)|
  {
    hide At, Flat;
    AtParts(ts, o, t);
    if t.Paren? {
      ScanOver(ts, o + 1, t.inner, 0);
    }
  }

  /** Whether a printed tree contains parentheses at all. */
  predicate HasParens(t: Tree) {
    match t
    case Leaf(_) => false
    case Paren(_) => true
    case Deref(e) => HasParens(e)
    case Bin(_, l, r) => HasParens(l) || HasParens(r)
  }

  /** The scan of check_parentheses runs over a printed tree while something is open. */
  lemma {:induction false} GroupOver(ts: seq<Token>, o: nat, t: Tree, end: nat, top: int)
    requires At(ts, o, t) && Printable(t) && top >= 0 && o + |Flat(t)| <= end + 1 <= |ts|
    ensures OneGroup(ts, o, end, top) == OneGroup(ts, o + |Flat(t)|, end, top)
    decreases t
  {
    hide At, Flat;
    AtParts(ts, o, t);
    match t
    case Leaf(_) =>
    case Paren(e) =>
      GroupOver(ts, o + 1, e, end, top + 1);
    case Deref(e) =>
      GroupOver(ts, o + 1, e, end, top);
    case Bin(op, l, r) =>
      GroupOver(ts, o, l, end, top);
      GroupOver(ts, o + |Flat(l)| + 1, r, end, top);
  }

  /** Once the first group is closed, a tree with parentheses stops the scan and another does not. */
  lemma {:induction false} GroupAfter(ts: seq<Token>, o: nat, t: Tree, end: nat)
    requires At(ts, o, t) && Printable(t) && o + |Flat(t)| <= end + 1 <= |ts|
    ensures OneGroup(ts, o, end, -1) == (!HasParens(t) && OneGroup(ts, o + |Flat(t)|, end, -1))
    decreases t
  {
    hide At, Flat;
    AtParts(ts, o, t);
    match t
    case Leaf(_) =>
    case Paren(e) =>
    case Deref(e) =>
      GroupAfter(ts, o + 1, e, end);
    case Bin(op, l, r) =>
      GroupAfter(ts, o, l, end);
      GroupAfter(ts, o + |Flat(l)| + 1, r, end);
  }

  /** A tree that begins with a parenthesis closes it within its first operand. */
  lemma {:induction false} GroupFirst(ts: seq<Token>, o: nat, t: Tree, end: nat)
    requires At(ts, o, t) && Printable(t) && o + |Flat(t)| <= end + 1 <= |ts|
    requires ts[o].ty == LPAREN
    ensures OneGroup(ts, o + 1, end, 0) ==> OneGroup(ts, o + |Flat(t)|, end, -1)
    ensures t.Paren? ==> (OneGroup(ts, o + 1, end, 0) <==> OneGroup(ts, o + |Flat(t)|, end, -1))
    decreases t
  {
    hide At, Flat;
    AtParts(ts, o, t);
    match t
    case Leaf(_) =>
    case Paren(e) =>
      GroupOver(ts, o + 1, e, end, 0);
    case Deref(e) =>
    case Bin(op, l, r) =>
      GroupFirst(ts, o, l, end);
      GroupAfter(ts, o + |Flat(l)| + 1, r, end);
  }

  /** A tree that ends with a parenthesis has parentheses. */
  lemma {:induction false} LastParen(ts: seq<Token>, o: nat, t: Tree)
    requires At(ts, o, t) && Printable(t) && ts[o + |Flat(t)| - 1].ty == RPAREN
    ensures HasParens(t)
    decreases t
  {
    hide At, Flat;
    AtParts(ts, o, t);
    match t
    case Leaf(_) =>
    case Paren(_) =>
    case Deref(e) => LastParen(ts, o + 1, e);
    case Bin(op, l, r) => LastParen(ts, o + |Flat(l)| + 1, r);
  }

  /** check_parentheses recognises exactly the trees in their own parentheses. */
  lemma {:induction false} WrappedIsParen(ts: seq<Token>, o: nat, t: Tree)
    requires At(ts, o, t) && Printable(t)
    ensures Wrapped(ts, o, o + |Flat(t)| - 1) <==> t.Paren?
  {
    hide At, Flat;
    hide Scan;
    AtParts(ts, o, t);
    var end := o + |Flat(t)| - 1;
    match t
    case Leaf(_) =>
    case Paren(e) => GroupFirst(ts, o, t, end);
    case Deref(e) =>
    case Bin(op, l, r) =>
      if Wrapped(ts, o, end) {
        LastParen(ts, o + |Flat(l)| + 1, r);
        GroupFirst(ts, o, l, end);
        GroupAfter(ts, o + |Flat(l)| + 1, r, end);
      }
  }

  // ----- the main operator of a printed tree -----------------------------------------------------------------

  lemma {:induction false} OpPriority(op: nat)
    ensures IsOp(op) ==> TablePriority(op) == Prio(op) > 0
    ensures IsOperand(op) || op == LPAREN || op == TK_DEREF ==> TablePriority(op) == 0
  {
  }

  /** An operand is scanned in one turn of the loop. */
  lemma {:induction false} OperandTurn(ts: seq<Token>, o: nat, t: Tree, end: nat, mop: nat)
    requires At(ts, o, t) && Printable(t) && !t.Bin? && o + |Flat(t)| <= end + 1 <= |ts| && mop < |ts|
    ensures !IsOp(ts[o].ty)
    ensures var k := SkipDeref(ts, o, end);
      !IsOp(ts[k].ty) && ts[k].ty != TK_DEREF && GoForward(ts, k) == o + |Flat(t)|
    ensures FindOp(ts, o, end, mop, NONOP) == FindOp(ts, o + |Flat(t)|, end, mop, 255)
    decreases t
  {
    hide At, Flat;
    hide TablePriority, Scan, GoForward;
    AtParts(ts, o, t);
    if t.Deref? {
      OperandTurn(ts, o + 1, t.ptr, end, mop);
    } else {
      GoForwardOver(ts, o, t);
    }
  }

  /** The running choice of main operator after scanning t at position o. */
  function MopAfter(ts: seq<Token>, o: nat, t: Tree, mop: nat): (r: nat)
    requires mop < |ts|
    decreases t
  {
    if !t.Bin? then mop
    else
      var m := MopAfter(ts, o, t.left, mop);
      var pos := o + |Flat(t.left)|;
      var m' := if m < |ts| && Prio(t.op) >= TablePriority(ts[m].ty) then pos else m;
      if m' < |ts| then MopAfter(ts, pos + 1, t.right, m') else m'
  }

  /** The loop over a printed tree makes that choice. */
  lemma {:induction false} TreeTurns(ts: seq<Token>, o: nat, t: Tree, end: nat, mop: nat)
    requires At(ts, o, t) && Printable(t) && o + |Flat(t)| <= end + 1 <= |ts| && mop < |ts|
    ensures MopAfter(ts, o, t, mop) < |ts|
    ensures FindOp(ts, o, end, mop, NONOP) == FindOp(ts, o + |Flat(t)|, end, MopAfter(ts, o, t, mop), 255)
    decreases t
  {
    hide At, Flat;
    hide TablePriority, Scan, SkipDeref;
    AtParts(ts, o, t);
    if t.Bin? {
      TreeTurns(ts, o, t.left, end, mop);
      OpPriority(t.op);
      var pos := o + |Flat(t.left)|;
      var m := MopAfter(ts, o, t.left, mop);
      var m' := if Prio(t.op) >= TablePriority(ts[m].ty) then pos else m;
      assert GoForward(ts, pos) == pos + 1;
      TreeTurns(ts, pos + 1, t.right, end, m');
    } else {
      OperandTurn(ts, o, t, end, mop);
    }
  }

  /** The choice is never looser than what came before and the tree itself. */
  lemma {:induction false} MopPriority(ts: seq<Token>, o: nat, t: Tree, mop: nat)
    requires At(ts, o, t) && Printable(t) && mop < |ts|
    ensures MopAfter(ts, o, t, mop) < |ts|
    ensures TablePriority(ts[MopAfter(ts, o, t, mop)].ty) <= Max(TablePriority(ts[mop].ty), Prec(t))
    ensures Prec(t) < TablePriority(ts[mop].ty) ==> MopAfter(ts, o, t, mop) == mop
    decreases t
  {
    hide At, Flat;
    hide TablePriority;
    AtParts(ts, o, t);
    if t.Bin? {
      MopPriority(ts, o, t.left, mop);
      OpPriority(t.op);
      var pos := o + |Flat(t.left)|;
      var m := MopAfter(ts, o, t.left, mop);
      var m' := if Prio(t.op) >= TablePriority(ts[m].ty) then pos else m;
      MopPriority(ts, pos + 1, t.right, m');
    }
  }

  /** find_mainop finds the root operator, or 0 for an operand. */
  lemma {:induction false} FindOpFindsRoot(ts: seq<Token>, o: nat, t: Tree)
    requires At(ts, o, t) && Printable(t) && TablePriority(ts[0].ty) == 0
    ensures FindOp(ts, o, o + |Flat(t)| - 1, 0, NONOP) == if t.Bin? then o + |Flat(t.left)| else 0
  {
    hide At, Flat;
    hide TablePriority, Scan, SkipDeref, GoForward;
    AtParts(ts, o, t);
    var end := o + |Flat(t)| - 1;
    TreeTurns(ts, o, t, end, 0);
    if t.Bin? {
      MopPriority(ts, o, t.left, 0);
      OpPriority(t.op);
      var pos := o + |Flat(t.left)|;
      MopPriority(ts, pos + 1, t.right, pos);
    }
  }

  // ----- eval is the meaning -----------------------------------------------------------------------------------

  /** On the tokens of a printed tree, eval returns its value, and the error flag says whether it has
      one. */
  lemma {:induction false} EvalIsValue(env: Env, ts: seq<Token>, o: nat, t: Tree)
    requires EnvOk(env) && At(ts, o, t) && Printable(t) && TablePriority(ts[0].ty) == 0
    ensures var r := EvalRange(env, ts, o, o + |Flat(t)| - 1, true);
      && (r.1 <==> Value(env, t).Some?)
      && (r.1 ==> r.0 == Value(env, t).value)
    decreases t
  {
    hide At, Flat;
    hide TablePriority, FindOp, OneGroup, Scan, Wrapped, LiteralValue, RegValue;
    AtParts(ts, o, t);
    WrappedIsParen(ts, o, t);
    var end := o + |Flat(t)| - 1;
    match t
    case Leaf(_) =>
    case Paren(e) =>
      EvalIsValue(env, ts, o + 1, e);
    case Deref(e) =>
      FindOpFindsRoot(ts, o, t);
      EvalIsValue(env, ts, o + 1, e);
      NotOkAddress();
    case Bin(op, l, r) =>
      FindOpFindsRoot(ts, o, t);
      var pos := o + |Flat(l)|;
      EvalIsValue(env, ts, o, l);
      EvalIsValue(env, ts, pos + 1, r);
  }

  lemma {:induction false} NotOkAddress()
    ensures !AddressOk(0)
  {
  }

  /** The first token of a printed tree is never an operator. */
  lemma {:induction false} FirstToken(ts: seq<Token>, o: nat, t: Tree)
    requires At(ts, o, t) && Printable(t)
    ensures TablePriority(ts[o].ty) == 0
    decreases t
  {
    hide At, Flat;
    AtParts(ts, o, t);
    OpPriority(ts[o].ty);
    if t.Bin? {
      FirstToken(ts, o, t.left);
    }
  }

  /** The whole token array of a printed tree. */
  lemma {:induction false} EvalWhole(env: Env, t: Tree)
    requires EnvOk(env) && Printable(t)
    ensures var r := EvalRange(env, Flat(t), 0, |Flat(t)| - 1, true);
      && (r.1 <==> Value(env, t).Some?)
      && (r.1 ==> r.0 == Value(env, t).value)
  {
    assert At(Flat(t), 0, t);
    FirstToken(Flat(t), 0, t);
    EvalIsValue(env, Flat(t), 0, t);
  }
}

/** The tokenizer of nemu/src/monitor/debug/expr.c: rules tried in order as anchored longest
    matches, and what it makes of printed token sequences. */
module Lexer {
  import opened Wrappers
  import opened ExprTree

  const MAX_TOKENS: nat := 32
  const NR_REGEX: nat := 13

  predicate IsAlnum(c: char) {
    IsDigit(c) || 'a' <= c <= 'z' || 'A' <= c <= 'Z'
  }

  /** Length of the longest prefix of characters in a class. */
  function CountSpaces(s: string): (n: nat)
    ensures n <= |s|
  {
    if s != "" && s[0] == ' ' then 1 + CountSpaces(s[1..]) else 0
  }

  function CountDigits(s: string): (n: nat)
    ensures n <= |s|
  {
    if s != "" && IsDigit(s[0]) then 1 + CountDigits(s[1..]) else 0
  }

  function CountXDigits(s: string): (n: nat)
    ensures n <= |s|
  {
    if s != "" && IsXDigit(s[0]) then 1 + CountXDigits(s[1..]) else 0
  }

  function CountAlnum(s: string): (n: nat)
    ensures n <= |s|
  {
    if s != "" && IsAlnum(s[0]) then 1 + CountAlnum(s[1..]) else 0
  }

  /** `[uU]?` */
  function OptSuffix(s: string): nat {
    if s != "" && (s[0] == 'u' || s[0] == 'U') then 1 else 0
  }

  function MatchChar(s: string, c: char): nat {
    if s != "" && s[0] == c then 1 else 0
  }

  function MatchPair(s: string, c: char): nat {
    if |s| >= 2 && s[0] == c && s[1] == c then 2 else 0
  }

  /** The length rule i matches at the start of s; 0 where it does not match. */
  function MatchRule(i: nat, s: string): (n: nat)
    requires i < NR_REGEX
    ensures n <= |s|
  {
    match i
    case 0 => CountSpaces(s)
    case 1 =>
      if |s| >= 2 && s[0] == '0' && (s[1] == 'x' || s[1] == 'X') && CountXDigits(s[2..]) > 0
      then 2 + CountXDigits(s[2..]) + OptSuffix(s[2 + CountXDigits(s[2..])..]) else 0
    case 2 =>
      if CountDigits(s) > 0 then CountDigits(s) + OptSuffix(s[CountDigits(s)..]) else 0
    case 3 => MatchChar(s, '+')
    case 4 => MatchChar(s, '-')
    case 5 => MatchChar(s, '*')
    case 6 => MatchChar(s, '/')
    case 7 => MatchChar(s, '(')
    case 8 => MatchChar(s, ')')
    case 9 =>
      if s != "" && s[0] == '$' && CountAlnum(s[1..]) > 0 then 1 + CountAlnum(s[1..]) else 0
    case 10 => MatchPair(s, '=')
    case 11 => if |s| >= 2 && s[0] == '!' && s[1] == '=' then 2 else 0
    case _ => MatchPair(s, '&')
  }

  function RuleType(i: nat): nat
    requires i < NR_REGEX
  {
    [TK_NOTYPE, TK_HEX, TK_DIGIT, PLUS, MINUS, STAR, SLASH, LPAREN, RPAREN, TK_REG, TK_EQ, TK_UNEQ, TK_AND][i]
  }

  /** The first rule from i on that matches; NR_REGEX if none does. */
  function FirstRule(s: string, i: nat): (r: nat)
    requires i <= NR_REGEX
    ensures i <= r <= NR_REGEX && (r < NR_REGEX ==> MatchRule(r, s) > 0)
    decreases NR_REGEX - i
  {
    if i == NR_REGEX || MatchRule(i, s) > 0 then i else FirstRule(s, i + 1)
  }

  /** The tokens of s after those already found; None for a character no rule matches, for too many
      tokens and for a token too long. */
  function Lex(s: string, acc: seq<Token>): Option<seq<Token>>
    decreases |s|
  {
    if s == "" then Some(acc)
    else
      var i := FirstRule(s, 0);
      if i == NR_REGEX || |acc| >= MAX_TOKENS then None
      else
        var n, ty := MatchRule(i, s), RuleType(i);
        if ty == TK_NOTYPE then Lex(s[n..], acc)
        else if IsOperand(ty) then
          if n >= 32 then None else Lex(s[n..], acc + [Token(ty, s[..n])])
        else Lex(s[n..], acc + [Mark(ty)])
  }

  // ----- printing ----------------------------------------------------------------------------------------

  /** The text of a token. */
  function Text(tok: Token): string {
    if IsOperand(tok.ty) then tok.str
    else if tok.ty == PLUS then "+" else if tok.ty == MINUS then "-"
    else if tok.ty == STAR then "*" else if tok.ty == SLASH then "/"
    else if tok.ty == LPAREN then "(" else if tok.ty == RPAREN then ")"
    else if tok.ty == TK_EQ then "==" else if tok.ty == TK_UNEQ then "!=" else "&&"
  }

  predicate IsSuffix(s: string) {
    s == "" || s == "u" || s == "U"
  }

  /** A token whose text the lexer reads back: a number with an optional suffix, a register name, an
      operator or a parenthesis. */
  predicate TokenOk(tok: Token) {
    if tok.ty == TK_DIGIT then
      |tok.str| < 32 && CountDigits(tok.str) > 0 && IsSuffix(tok.str[CountDigits(tok.str)..])
    else if tok.ty == TK_HEX then
      && 2 < |tok.str| < 32 && tok.str[0] == '0' && (tok.str[1] == 'x' || tok.str[1] == 'X')
      && CountXDigits(tok.str[2..]) > 0 && IsSuffix(tok.str[2 + CountXDigits(tok.str[2..])..])
    else if tok.ty == TK_REG then
      1 < |tok.str| < 32 && tok.str[0] == '$' && CountAlnum(tok.str[1..]) == |tok.str| - 1
    else tok.str == "" && (IsOp(tok.ty) || tok.ty == LPAREN || tok.ty == RPAREN)
  }

  function Spaces(n: nat): (s: string)
    ensures |s| == n && forall i :: 0 <= i < n ==> s[i] == ' '
  {
    seq(n, i => ' ')
  }

  datatype Item = Item(spaces: nat, tok: Token)

  /** Tokens printed with spaces before each and after the last. */
  function Render(items: seq<Item>, trail: nat): string {
    if items == [] then Spaces(trail)
    else Spaces(items[0].spaces) + Text(items[0].tok) + Render(items[1..], trail)
  }

  function TokensOf(items: seq<Item>): (ts: seq<Token>)
    ensures |ts| == |items|
  {
    seq(|items|, i requires 0 <= i < |items| => items[i].tok)
  }

  /** Operands do not run into each other. */
  predicate Separate(items: seq<Item>) {
    forall i :: 0 <= i < |items| - 1 && IsOperand(items[i].tok.ty) && items[i + 1].spaces == 0 ==> !IsOperand(items[i + 1].tok.ty)
  }

  // ----- reading back ------------------------------------------------------------------------------------

  /** The characters that cannot continue an operand. */
  predicate Ends(rest: string) {
    rest == "" || !IsAlnum(rest[0])
  }

  lemma {:induction false} CountSpacesOf(n: nat, rest: string)
    requires rest == "" || rest[0] != ' '
    ensures CountSpaces(Spaces(n) + rest) == n
    decreases n
  {
    if n == 0 {
      assert Spaces(0) + rest == rest;
    } else {
      assert (Spaces(n) + rest)[1..] == Spaces(n - 1) + rest;
      CountSpacesOf(n - 1, rest);
    }
  }

  lemma {:induction false} CountDigitsOf(s: string, rest: string)
    requires rest == "" || !IsDigit(rest[0])
    ensures CountDigits(s + rest) == CountDigits(s)
    decreases |s|
  {
    if s == "" {
      assert s + rest == rest;
    } else {
      assert (s + rest)[1..] == s[1..] + rest;
      CountDigitsOf(s[1..], rest);
    }
  }

  lemma {:induction false} CountXDigitsOf(s: string, rest: string)
    requires rest == "" || !IsXDigit(rest[0])
    ensures CountXDigits(s + rest) == CountXDigits(s)
    decreases |s|
  {
    if s == "" {
      assert s + rest == rest;
    } else {
      assert (s + rest)[1..] == s[1..] + rest;
      CountXDigitsOf(s[1..], rest);
    }
  }

  lemma {:induction false} CountAlnumOf(s: string, rest: string)
    requires Ends(rest)
    ensures CountAlnum(s + rest) == CountAlnum(s)
    decreases |s|
  {
    if s == "" {
      assert s + rest == rest;
    } else {
      assert (s + rest)[1..] == s[1..] + rest;
      CountAlnumOf(s[1..], rest);
    }
  }

  lemma {:induction false} DigitRule(tok: Token, rest: string)
    requires tok.ty == TK_DIGIT && TokenOk(tok) && Ends(rest)
    ensures FirstRule(tok.str + rest, 0) == 2 && MatchRule(2, tok.str + rest) == |tok.str|
  {
    var s := tok.str;
    var d := CountDigits(s);
    CountDigitsOf(s, rest);
    assert IsDigit(s[0]);
    SuffixOf(s, d, rest);
    if d > 1 {
      assert IsDigit(s[1]) by { SecondDigit(s); }
    }
    assert |s| == 1 ==> (s + rest)[1..] == rest;
    assert MatchRule(0, s + rest) == 0 && MatchRule(1, s + rest) == 0;
  }

  lemma {:induction false} SecondDigit(s: string)
    requires CountDigits(s) > 1
    ensures IsDigit(s[1])
  {
    assert s[1..][0] == s[1];
  }

  lemma {:induction false} SuffixOf(s: string, d: nat, rest: string)
    requires d <= |s| && IsSuffix(s[d..]) && Ends(rest)
    ensures d + OptSuffix((s + rest)[d..]) == |s|
  {
    assert (s + rest)[d..] == s[d..] + rest;
  }

  lemma {:induction false} HexRule(tok: Token, rest: string)
    requires tok.ty == TK_HEX && TokenOk(tok) && Ends(rest)
    ensures FirstRule(tok.str + rest, 0) == 1 && MatchRule(1, tok.str + rest) == |tok.str|
  {
    var s := tok.str;
    var d := CountXDigits(s[2..]);
    assert (s + rest)[2..] == s[2..] + rest;
    CountXDigitsOf(s[2..], rest);
    SuffixOf(s, 2 + d, rest);
    assert MatchRule(0, s + rest) == 0;
  }

  lemma {:induction false} RegRule(tok: Token, rest: string)
    requires tok.ty == TK_REG && TokenOk(tok) && Ends(rest)
    ensures FirstRule(tok.str + rest, 0) == 9 && MatchRule(9, tok.str + rest) == |tok.str|
  {
    var s := tok.str;
    assert (s + rest)[1..] == s[1..] + rest;
    CountAlnumOf(s[1..], rest);
    NoEarlier(s + rest, 9);
  }

  lemma {:induction false} NoEarlier(s: string, r: nat)
    requires r < NR_REGEX && MatchRule(r, s) > 0 && forall i :: 0 <= i < r ==> MatchRule(i, s) == 0
    ensures FirstRule(s, 0) == r
  {
    NoEarlierFrom(s, r, 0);
  }

  lemma {:induction false} NoEarlierFrom(s: string, r: nat, i: nat)
    requires i <= r < NR_REGEX && MatchRule(r, s) > 0 && forall j :: 0 <= j < r ==> MatchRule(j, s) == 0
    ensures FirstRule(s, i) == r
    decreases r - i
  {
    if i < r {
      NoEarlierFrom(s, r, i + 1);
    }
  }

  /** The rule for a token type. */
  function RuleOf(ty: nat): nat {
    if ty == TK_HEX then 1 else if ty == TK_DIGIT then 2 else if ty == PLUS then 3 else if ty == MINUS then 4
    else if ty == STAR then 5 else if ty == SLASH then 6 else if ty == LPAREN then 7 else if ty == RPAREN then 8
    else if ty == TK_REG then 9 else if ty == TK_EQ then 10 else if ty == TK_UNEQ then 11 else 12
  }

  lemma {:induction false} SymbolRule(tok: Token, rest: string)
    requires TokenOk(tok) && !IsOperand(tok.ty)
    ensures FirstRule(Text(tok) + rest, 0) == RuleOf(tok.ty) && MatchRule(RuleOf(tok.ty), Text(tok) + rest) == |Text(tok)|
  {
    var s := Text(tok) + rest;
    var r := RuleOf(tok.ty);
    assert s[0] == Text(tok)[0] && (|Text(tok)| == 2 ==> s[1] == Text(tok)[1]);
    assert MatchRule(r, s) == |Text(tok)|;
    forall i | 0 <= i < r ensures MatchRule(i, s) == 0 {
    }
    NoEarlier(s, r);
  }

  /** A token followed by something that cannot continue it is read back. */
  lemma {:induction false} TokenRule(tok: Token, rest: string)
    requires TokenOk(tok) && (IsOperand(tok.ty) ==> Ends(rest))
    ensures FirstRule(Text(tok) + rest, 0) == RuleOf(tok.ty) && RuleType(RuleOf(tok.ty)) == tok.ty
    ensures MatchRule(RuleOf(tok.ty), Text(tok) + rest) == |Text(tok)| > 0
  {
    if tok.ty == TK_DIGIT {
      DigitRule(tok, rest);
    } else if tok.ty == TK_HEX {
      HexRule(tok, rest);
    } else if tok.ty == TK_REG {
      RegRule(tok, rest);
    } else {
      SymbolRule(tok, rest);
    }
  }

  lemma {:induction false} LexToken(tok: Token, rest: string, acc: seq<Token>)
    requires TokenOk(tok) && (IsOperand(tok.ty) ==> Ends(rest))
    ensures Lex(Text(tok) + rest, acc) == if |acc| < MAX_TOKENS then Lex(rest, acc + [tok]) else None
  {
    TokenRule(tok, rest);
    var s := Text(tok) + rest;
    var n := |Text(tok)|;
    assert s[n..] == rest && s[..n] == Text(tok);
    assert !IsOperand(tok.ty) ==> Mark(tok.ty) == tok;
    assert IsOperand(tok.ty) ==> Token(tok.ty, Text(tok)) == tok && n < 32;
    assert tok.ty != TK_NOTYPE;
  }

  lemma {:induction false} LexSpaces(n: nat, rest: string, acc: seq<Token>)
    requires n > 0 && (rest == "" || rest[0] != ' ')
    ensures Lex(Spaces(n) + rest, acc) == if |acc| < MAX_TOKENS then Lex(rest, acc) else None
  {
    var s := Spaces(n) + rest;
    CountSpacesOf(n, rest);
    assert MatchRule(0, s) == n && FirstRule(s, 0) == 0;
    assert s[n..] == rest;
  }

  lemma {:induction false} TextStarts(tok: Token)
    requires TokenOk(tok)
    ensures |Text(tok)| > 0 && Text(tok)[0] != ' '
    ensures !IsOperand(tok.ty) ==> !IsAlnum(Text(tok)[0])
  {
  }

  /** When the limit of 32 tokens is kept: spaces are refused, too, once the array is full. */
  predicate Fits(n: nat, trail: nat) {
    n <= 32 && (trail > 0 ==> n < 32)
  }

  lemma {:induction false} RestEnds(items: seq<Item>, trail: nat)
    requires |items| > 0 && Separate(items) && forall i :: 0 <= i < |items| ==> TokenOk(items[i].tok)
    ensures IsOperand(items[0].tok.ty) ==> Ends(Render(items[1..], trail))
  {
    if |items| > 1 {
      TextStarts(items[1].tok);
      var rest := items[1..];
      assert rest[0] == items[1];
      assert Render(rest, trail) == Spaces(rest[0].spaces) + Text(rest[0].tok) + Render(rest[1..], trail);
    }
  }

  /** The lexer reads one printed token. */
  lemma {:induction false} LexItem(items: seq<Item>, trail: nat, acc: seq<Token>)
    requires |items| > 0 && Separate(items) && |acc| <= MAX_TOKENS && forall i :: 0 <= i < |items| ==> TokenOk(items[i].tok)
    ensures Lex(Render(items, trail), acc) ==
      if |acc| < MAX_TOKENS then Lex(Render(items[1..], trail), acc + [items[0].tok]) else None
  {
    hide Lex, Text, TokenOk;
    var it, rest := items[0], Render(items[1..], trail);
    TextStarts(it.tok);
    RestEnds(items, trail);
    hide Separate, Ends;
    LexToken(it.tok, rest, acc);
    LexAfterSpaces(it.spaces, Text(it.tok) + rest, acc);
    assert Render(items, trail) == Spaces(it.spaces) + (Text(it.tok) + rest);
  }

  /** The lexer reads printed tokens back exactly when they fit. */
  lemma {:induction false} LexRender(items: seq<Item>, trail: nat, acc: seq<Token>)
    requires Separate(items) && |acc| <= MAX_TOKENS && forall i :: 0 <= i < |items| ==> TokenOk(items[i].tok)
    ensures Lex(Render(items, trail), acc) ==
      if Fits(|acc| + |items|, trail) then Some(acc + TokensOf(items)) else None
    decreases |items|
  {
    hide Lex, Text, TokenOk;
    if items == [] {
      assert acc + TokensOf(items) == acc;
      if trail > 0 {
        assert Spaces(trail) + "" == Spaces(trail);
        LexSpaces(trail, "", acc);
      }
      LexEnd(acc);
    } else {
      hide Render;
      LexItem(items, trail, acc);
      if |acc| < MAX_TOKENS {
        assert forall i :: 0 <= i < |items| - 1 ==> items[1..][i] == items[i + 1];
        LexRender(items[1..], trail, acc + [items[0].tok]);
        assert acc + [items[0].tok] + TokensOf(items[1..]) == acc + TokensOf(items);
      }
    }
  }

  lemma {:induction false} LexEnd(acc: seq<Token>)
    ensures Lex("", acc) == Some(acc)
  {
  }

  /** Leading spaces matter only when the token array is full. */
  lemma {:induction false} LexAfterSpaces(n: nat, s: string, acc: seq<Token>)
    requires s != "" && s[0] != ' '
    ensures Lex(Spaces(n) + s, acc) == if n == 0 || |acc| < MAX_TOKENS then Lex(s, acc) else None
  {
    if n == 0 {
      assert Spaces(0) + s == s;
    } else {
      LexSpaces(n, s, acc);
    }
  }

  // ----- trees -----------------------------------------------------------------------------------------------

  /** No two operands side by side. */
  predicate Alternates(s: seq<Token>) {
    forall i :: 0 <= i < |s| - 1 && IsOperand(s[i].ty) ==> !IsOperand(s[i + 1].ty)
  }

  lemma {:induction false} AlternatesAround(a: seq<Token>, x: Token, b: seq<Token>)
    requires Alternates(a) && Alternates(b) && !IsOperand(x.ty)
    ensures Alternates(a + [x] + b)
  {
    var s := a + [x] + b;
    forall i | 0 <= i < |s| - 1 && IsOperand(s[i].ty) ensures !IsOperand(s[i + 1].ty) {
      if i > |a| {
        assert s[i] == b[i - |a| - 1] && s[i + 1] == b[i - |a|];
      }
    }
  }

  /** Printed trees never have two operands side by side. */
  lemma {:induction false} RawAlternates(t: Tree)
    requires Printable(t)
    ensures Alternates(Raw(t))
    decreases t
  {
    match t
    case Leaf(_) =>
    case Paren(e) =>
      RawAlternates(e);
      AlternatesAround([], Mark(LPAREN), Raw(e));
      AlternatesAround([] + [Mark(LPAREN)] + Raw(e), Mark(RPAREN), []);
      assert Raw(t) == ([] + [Mark(LPAREN)] + Raw(e)) + [Mark(RPAREN)] + [];
    case Deref(e) =>
      RawAlternates(e);
      AlternatesAround([], Mark(STAR), Raw(e));
      assert Raw(t) == [] + [Mark(STAR)] + Raw(e);
    case Bin(op, l, r) =>
      RawAlternates(l);
      RawAlternates(r);
      AlternatesAround(Raw(l), Mark(op), Raw(r));
  }

  lemma {:induction false} PrintedIsSeparate(t: Tree, items: seq<Item>)
    requires Printable(t) && TokensOf(items) == Raw(t)
    ensures Separate(items)
  {
    RawAlternates(t);
    assert forall i :: 0 <= i < |items| ==> Raw(t)[i] == items[i].tok;
  }
}

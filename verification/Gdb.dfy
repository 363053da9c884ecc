/** The client side of the GDB remote protocol (nemu/tools/qemu-diff/src/protocol.c): packets as they are on the wire.
    What a packet means is the "Overview" of the Remote Serial Protocol appendix of Debugging with GDB (section E.1). */
module GdbPackets {
  import Bits
  import opened Octets

  const HASH: Byte := 0x23
  const DOLLAR: Byte := 0x24
  const STAR: Byte := 0x2a
  const PLUS: Byte := 0x2b
  const MINUS: Byte := 0x2d
  const BRACE: Byte := 0x7d

  // ----- hexadecimal -------------------------------------------------------------------------------------------

  predicate IsXDigit(c: Byte) {
    0x30 <= c <= 0x39 || 0x41 <= c <= 0x46 || 0x61 <= c <= 0x66
  }

  /** hex_nibble of a digit. */
  function HexNibble(c: Byte): (n: nat)
    requires IsXDigit(c)
    ensures n < 16
  {
    if c <= 0x39 then c - 0x30 else (if c <= 0x46 then c + 0x20 else c) - 0x61 + 10
  }

  function HexEncode(digit: nat): (c: Byte)
    requires digit < 16
    ensures IsXDigit(c) && HexNibble(c) == digit
  {
    if digit > 9 then 0x61 + digit - 10 else 0x30 + digit
  }

  /** UINT16_MAX stands for a byte that is no digit. */
  function GdbDecodeHex(msb: Byte, lsb: Byte): (v: nat)
    ensures v == 0xffff <==> !(IsXDigit(msb) && IsXDigit(lsb))
    ensures v < 0x100 || v == 0xffff
  {
    if !IsXDigit(msb) || !IsXDigit(lsb) then 0xffff else 16 * HexNibble(msb) + HexNibble(lsb)
  }

  /** The two digits of a byte, low case and upper case. */
  function Hex(b: Byte): seq<Byte> {
    [HexEncode(b / 16), HexEncode(b % 16)]
  }

  function UpperDigit(digit: nat): Byte
    requires digit < 16
  {
    if digit > 9 then 0x41 + digit - 10 else 0x30 + digit
  }

  function UpperHex(b: Byte): seq<Byte> {
    [UpperDigit(b / 16), UpperDigit(b % 16)]
  }

  lemma {:induction false} DecodeInvertsEncode(b: Byte)
    ensures GdbDecodeHex(Hex(b)[0], Hex(b)[1]) == b
    ensures GdbDecodeHex(UpperHex(b)[0], UpperHex(b)[1]) == b
  {
  }

  /** The digits are those of %x and %X, and read as what they show. */
  lemma {:induction false} DigitsAre(digit: nat)
    requires digit < 16
    ensures HexEncode(digit) == "0123456789abcdef"[digit] as int && UpperDigit(digit) == "0123456789ABCDEF"[digit] as int
    ensures IsXDigit(HexEncode(digit)) && HexNibble(HexEncode(digit)) == digit
    ensures IsXDigit(UpperDigit(digit)) && HexNibble(UpperDigit(digit)) == digit
  {
  }

  // ----- the receiver ------------------------------------------------------------------------------------------

  datatype Reply = Packet(bytes: seq<Byte>, sumOk: bool, rest: seq<Byte>) | Closed

  /** c ^ 0x20 */
  function Flip(c: Byte): Byte {
    if c / 32 % 2 == 1 then c - 32 else c + 32
  }

  predicate CountChar(c: Byte) {
    29 <= c <= 126 && c != DOLLAR && c != HASH
  }

  function Copies(b: Byte, n: nat): (s: seq<Byte>)
    ensures |s| == n
  {
    seq(n, _ => b)
  }

  function Plus(sum: Byte, c: Byte): Byte {
    (sum + c) % 0x100
  }

  /** fgetc at offset k, cut to a byte: EOF is 0xff. */
  function ByteAt(s: seq<Byte>, k: nat): Byte {
    if k < |s| then s[k] else 0xff
  }

  /** The packet loop, with the bytes received so far, the sum so far, and whether an escape is pending. */
  function Body(s: seq<Byte>, out: seq<Byte>, sum: Byte, escape: bool): (r: Reply)
    ensures r.Packet? ==> |r.rest| < |s|
    decreases |s|
  {
    if s == [] then Closed
    else if s[0] == DOLLAR then Body(s[1..], [], 0, false)
    else if s[0] == HASH then
      Packet(out, sum == GdbDecodeHex(ByteAt(s, 1), ByteAt(s, 2)), s[if |s| < 3 then |s| else 3..])
    else if s[0] == BRACE then Body(s[1..], out, Plus(sum, s[0]), true)
    else if s[0] == STAR && out != [] && |s| > 1 && CountChar(s[1]) then
      Body(s[2..], out + Copies(out[|out| - 1], s[1] - 29), Plus(Plus(sum, s[0]), s[1]), escape)
    else Body(s[1..], out + [if escape then Flip(s[0]) else s[0]], Plus(sum, s[0]), false)
  }

  lemma {:induction false} BodyEmpty(out: seq<Byte>, sum: Byte, escape: bool)
    ensures Body([], out, sum, escape) == Closed
  {
  }

  /** One turn of the loop: $ starts afresh, } and * are seen for what follows, and everything else but # is a byte. */
  lemma {:induction false} BodyTurn(s: seq<Byte>, out: seq<Byte>, sum: Byte, escape: bool)
    requires s != []
    ensures s[0] == 0x24 ==> Body(s, out, sum, escape) == Body(s[1..], [], 0, false)
    ensures s[0] == 0x7d ==> Body(s, out, sum, escape) == Body(s[1..], out, (sum + 0x7d) % 0x100, true)
    ensures s[0] == 0x2a && out != [] && |s| > 1 && 29 <= s[1] <= 126 && s[1] != 0x24 && s[1] != 0x23 ==>
              Body(s, out, sum, escape)
              == Body(s[2..], out + seq(s[1] - 29, _ => out[|out| - 1]), (sum + 0x2a + s[1]) % 0x100, escape)
    ensures s[0] != 0x24 && s[0] != 0x23 && s[0] != 0x7d
            && (s[0] == 0x2a ==> out == [] || |s| == 1 || s[1] < 29 || s[1] > 126 || s[1] == 0x24 || s[1] == 0x23) ==>
              Body(s, out, sum, escape)
              == Body(s[1..], out + [if escape then Flip(s[0]) else s[0]], (sum + s[0]) % 0x100, false)
  {
  }

  /** recv_packet: everything before the first $ is passed over. */
  function Recv(s: seq<Byte>): (r: Reply)
    ensures r.Packet? ==> |r.rest| < |s|
    decreases |s|
  {
    if s == [] then Closed else if s[0] == DOLLAR then Body(s[1..], [], 0, false) else Recv(s[1..])
  }

  // ----- what a sender may put on the wire ---------------------------------------------------------------------

  /** A byte as itself, a byte escaped, or n more copies of the byte before. */
  datatype Item = Literal(b: Byte) | Escaped(b: Byte) | Repeat(n: nat)

  predicate Special(b: Byte) {
    b == DOLLAR || b == HASH || b == BRACE || b == STAR
  }

  /** The four special bytes stand for nothing but themselves; a run needs a byte to repeat and a count whose character
      is at most 126 and no packet mark. */
  predicate LegalItem(it: Item, first: bool) {
    match it
    case Literal(b) => !Special(b)
    case Escaped(b) => !Special(Flip(b))
    case Repeat(n) => !first && n <= 97 && n + 29 != DOLLAR && n + 29 != HASH
  }

  predicate Legal(items: seq<Item>) {
    forall k :: 0 <= k < |items| ==> LegalItem(items[k], k == 0)
  }

  function WireItem(it: Item): seq<Byte>
    requires it.Repeat? ==> it.n <= 97
  {
    match it
    case Literal(b) => [b]
    case Escaped(b) => [BRACE, Flip(b)]
    case Repeat(n) => [STAR, n + 29]
  }

  function Wire(items: seq<Item>): seq<Byte>
    requires forall k :: 0 <= k < |items| && items[k].Repeat? ==> items[k].n <= 97
  {
    if items == [] then [] else Wire(items[..|items| - 1]) + WireItem(items[|items| - 1])
  }

  /** What one more item adds to a payload. */
  function Apply(out: seq<Byte>, it: Item): seq<Byte> {
    if !it.Repeat? then out + [it.b] else if out == [] then [] else out + Copies(out[|out| - 1], it.n)
  }

  /** The payload the items stand for. */
  function Payload(items: seq<Item>): seq<Byte> {
    if items == [] then [] else Apply(Payload(items[..|items| - 1]), items[|items| - 1])
  }

  function Sum(s: seq<Byte>): Byte {
    if s == [] then 0 else Plus(Sum(s[..|s| - 1]), s[|s| - 1])
  }

  function PlusItem(sum: Byte, it: Item): Byte
    requires it.Repeat? ==> it.n <= 97
  {
    match it
    case Literal(b) => Plus(sum, b)
    case Escaped(b) => Plus(Plus(sum, BRACE), Flip(b))
    case Repeat(n) => Plus(Plus(sum, STAR), n + 29)
  }

  lemma {:induction false} FlipIsXor(c: Byte)
    ensures Flip(c) == Bits.Xor(c, 0x20)
  {
    var c1 := c / 2;
    var c2 := c1 / 2;
    var c3 := c2 / 2;
    var c4 := c3 / 2;
    var h := c4 / 2;
    assert h == c / 32;
    XorUp(c, 16);
    XorUp(c1, 8);
    XorUp(c2, 4);
    XorUp(c3, 2);
    XorUp(c4, 1);
    Bits.XorStep(h, 1);
    assert Bits.Xor(h / 2, 0) == h / 2;
    hide Bits.Xor;
  }

  lemma {:induction false} XorUp(x: nat, m: nat)
    ensures Bits.Xor(x, 2 * m) - x == 2 * (Bits.Xor(x / 2, m) - x / 2)
  {
    Bits.XorStep(x, 2 * m);
    assert 2 * m / 2 == m && 2 * m % 2 == 0;
    hide Bits.Xor;
  }

  lemma {:induction false} FlipTwice(b: Byte)
    ensures Flip(Flip(b)) == b
  {
  }

  lemma {:induction false} SumTwo(s: seq<Byte>, b: Byte, c: Byte)
    ensures Sum(s + [b]) == Plus(Sum(s), b) && Sum(s + [b, c]) == Plus(Plus(Sum(s), b), c)
  {
    assert (s + [b])[..|s|] == s && (s + [b, c])[..|s| + 1] == s + [b];
  }

  lemma {:induction false} PayloadStarts(items: seq<Item>)
    requires items != [] && Legal(items)
    ensures Payload(items) != []
  {
    var n := |items| - 1;
    if n > 0 {
      PayloadStarts(items[..n]);
    }
  }

  /** What the loop does with the wire form of one more item. */
  lemma {:induction false} BodyItem(it: Item, tail: seq<Byte>, out: seq<Byte>, sum: Byte)
    requires LegalItem(it, out == [])
    ensures Body(WireItem(it) + tail, out, sum, false) == Body(tail, Apply(out, it), PlusItem(sum, it), false)
  {
    var w := WireItem(it) + tail;
    match it
    case Literal(b) => assert w[1..] == tail;
    case Escaped(b) =>
      FlipTwice(b);
      assert w[1..] == [Flip(b)] + tail && w[1..][1..] == tail;
    case Repeat(n) => assert w[2..] == tail;
  }

  /** The receiver follows the wire form of any legal items. */
  lemma {:induction false} BodyItems(items: seq<Item>, tail: seq<Byte>)
    requires Legal(items)
    ensures Body(Wire(items) + tail, [], 0, false) == Body(tail, Payload(items), Sum(Wire(items)), false)
  {
    if items == [] {
      assert Wire(items) + tail == tail;
    } else {
      var n := |items| - 1;
      var before, it := items[..n], items[n];
      if before != [] {
        PayloadStarts(before);
      }
      assert Wire(items) + tail == Wire(before) + (WireItem(it) + tail);
      BodyItems(before, WireItem(it) + tail);
      BodyItem(it, tail, Payload(before), Sum(Wire(before)));
      match it
      case Literal(b) => SumTwo(Wire(before), b, b);
      case Escaped(b) => SumTwo(Wire(before), BRACE, Flip(b));
      case Repeat(c) => SumTwo(Wire(before), STAR, c + 29);
    }
  }

  /** Bytes that may come before a packet: nothing in them ends one. */
  predicate NoEnd(pre: seq<Byte>) {
    forall j, k :: 0 <= j < k < |pre| && pre[j] == DOLLAR ==> pre[k] != HASH
  }

  lemma {:induction false} BodyRestarts(g: seq<Byte>, x: seq<Byte>, out: seq<Byte>, sum: Byte, escape: bool)
    requires HASH !in g
    ensures Body(g + [DOLLAR] + x, out, sum, escape) == Body(x, [], 0, false)
    decreases |g|
  {
    var s := g + [DOLLAR] + x;
    if g == [] {
      assert s[1..] == x;
    } else {
      assert s[1..] == g[1..] + [DOLLAR] + x;
      assert |g| > 1 ==> s[2..] == g[2..] + [DOLLAR] + x;
      if g[0] == DOLLAR {
        BodyRestarts(g[1..], x, [], 0, false);
      } else if g[0] == BRACE {
        BodyRestarts(g[1..], x, out, Plus(sum, g[0]), true);
      } else if g[0] == STAR && out != [] && |g| > 1 && CountChar(g[1]) {
        BodyRestarts(g[2..], x, out + Copies(out[|out| - 1], g[1] - 29), Plus(Plus(sum, g[0]), g[1]), escape);
      } else {
        BodyRestarts(g[1..], x, out + [if escape then Flip(g[0]) else g[0]], Plus(sum, g[0]), false);
      }
    }
  }

  lemma {:induction false} RecvStarts(pre: seq<Byte>, x: seq<Byte>)
    requires NoEnd(pre)
    ensures Recv(pre + [DOLLAR] + x) == Body(x, [], 0, false)
  {
    var s := pre + [DOLLAR] + x;
    if pre == [] {
      assert s[1..] == x;
    } else {
      assert s[1..] == pre[1..] + [DOLLAR] + x;
      if pre[0] == DOLLAR {
        BodyRestarts(pre[1..], x, [], 0, false);
      } else {
        RecvStarts(pre[1..], x);
      }
    }
  }

  lemma {:induction false} BodyEnd(msb: Byte, lsb: Byte, rest: seq<Byte>, out: seq<Byte>, sum: Byte)
    ensures Body([HASH, msb, lsb] + rest, out, sum, false) == Packet(out, sum == GdbDecodeHex(msb, lsb), rest)
  {
    assert ([HASH, msb, lsb] + rest)[3..] == rest;
  }

  /** recv_packet inverts every legal encoding of a payload, whatever comes before that does not end a packet: the
      payload comes back, the check holds exactly when the two digits are the sum, and nothing more is read. */
  lemma {:induction false} RecvInverts(pre: seq<Byte>, items: seq<Item>, msb: Byte, lsb: Byte, rest: seq<Byte>)
    requires NoEnd(pre) && Legal(items)
    ensures Recv(pre + [DOLLAR] + Wire(items) + [HASH, msb, lsb] + rest)
         == Packet(Payload(items), Sum(Wire(items)) == GdbDecodeHex(msb, lsb), rest)
  {
    var tail := [HASH, msb, lsb] + rest;
    assert pre + [DOLLAR] + Wire(items) + [HASH, msb, lsb] + rest == pre + [DOLLAR] + (Wire(items) + tail);
    RecvStarts(pre, Wire(items) + tail);
    BodyItems(items, tail);
    BodyEnd(msb, lsb, rest, Payload(items), Sum(Wire(items)));
  }

  /** Every payload has a legal encoding. */
  function Encode(payload: seq<Byte>): (items: seq<Item>)
    ensures Legal(items) && Payload(items) == payload
  {
    if payload == [] then []
    else
      var n := |payload| - 1;
      var b := payload[n];
      var items := Encode(payload[..n]);
      var it := if Special(b) then Escaped(b) else Literal(b);
      assert (items + [it])[..|items|] == items;
      items + [it]
  }

  // ----- the sender --------------------------------------------------------------------------------------------

  /** send_packet: the command as it is, and the sum in upper case. */
  function Frame(command: seq<Byte>): seq<Byte> {
    [DOLLAR] + command + [HASH] + UpperHex(Sum(command))
  }

  function Total(s: seq<Byte>): nat {
    if s == [] then 0 else s[0] + Total(s[1..])
  }

  lemma {:induction false} TotalLast(s: seq<Byte>)
    requires s != []
    ensures Total(s) == Total(s[..|s| - 1]) + s[|s| - 1]
  {
    if |s| > 1 {
      TotalLast(s[1..]);
      assert s[1..][..|s| - 2] == s[..|s| - 1][1..];
    }
  }

  lemma {:induction false} SumIsTotal(s: seq<Byte>)
    ensures Sum(s) == Total(s) % 0x100
  {
    if s != [] {
      SumIsTotal(s[..|s| - 1]);
      TotalLast(s);
    }
  }

  /** "$%s#%02X": the frame in plain characters. */
  lemma {:induction false} FrameIs(command: seq<Byte>)
    ensures var t := Total(command) % 0x100;
      Frame(command) == [0x24] + command + [0x23, "0123456789ABCDEF"[t / 16] as int, "0123456789ABCDEF"[t % 16] as int]
  {
    SumIsTotal(command);
  }

  /** A command that send_packet, which escapes nothing, does not change: no special byte, but a * that has nothing to
      repeat or no count behind it. */
  predicate Plain(s: seq<Byte>) {
    forall k :: 0 <= k < |s| && Special(s[k]) ==> s[k] == STAR && (k == 0 || k + 1 == |s| || !CountChar(s[k + 1]))
  }

  lemma {:induction false} BodyPlain(s: seq<Byte>, n: nat, tail: seq<Byte>)
    requires Plain(s) && n <= |s| && tail != [] && tail[0] == HASH
    ensures Body(s + tail, [], 0, false) == Body(s[n..] + tail, s[..n], Sum(s[..n]), false)
  {
    if n == 0 {
      assert s[0..] == s;
    } else {
      BodyPlain(s, n - 1, tail);
      var t := s[n - 1..] + tail;
      assert t[1..] == s[n..] + tail;
      assert t[0] == s[n - 1] && (n < |s| ==> t[1] == s[n]) && (n == |s| ==> t[1] == HASH);
      assert s[..n] == s[..n - 1] + [s[n - 1]];
      SumTwo(s[..n - 1], s[n - 1], 0);
    }
  }

  /** What send_packet sends of a plain command is received as that command. */
  lemma {:induction false} RecvInvertsFrame(pre: seq<Byte>, command: seq<Byte>, rest: seq<Byte>)
    requires NoEnd(pre) && Plain(command)
    ensures Recv(pre + Frame(command) + rest) == Packet(command, true, rest)
  {
    hide Body, Recv, Sum, UpperDigit, GdbDecodeHex;
    var hex := UpperHex(Sum(command));
    var tail := [HASH, hex[0], hex[1]] + rest;
    assert pre + Frame(command) + rest == pre + [DOLLAR] + (command + tail);
    RecvStarts(pre, command + tail);
    BodyPlain(command, |command|, tail);
    assert command[|command|..] + tail == tail && command[..|command|] == command;
    DecodeInvertsEncode(Sum(command));
    BodyEnd(hex[0], hex[1], rest, command, Sum(command));
  }

  /** A # that is not escaped cuts the command there, so it never comes back whole. */
  lemma {:induction false} HashCuts(pre: seq<Byte>, command: seq<Byte>, k: nat, rest: seq<Byte>)
    requires NoEnd(pre) && k < |command| && command[k] == HASH && Plain(command[..k])
    ensures Recv(pre + Frame(command) + rest).Packet? && Recv(pre + Frame(command) + rest).bytes == command[..k]
  {
    var tail := command[k..] + [HASH] + UpperHex(Sum(command)) + rest;
    assert pre + Frame(command) + rest == pre + [DOLLAR] + (command[..k] + tail);
    RecvStarts(pre, command[..k] + tail);
    BodyPlain(command[..k], k, tail);
    assert command[..k][k..] + tail == tail && command[..k][..k] == command[..k];
  }

  /** sum -= c undoes sum += c. */
  lemma {:induction false} MinusUndoes(sum: Byte, c: Byte)
    ensures (Plus(sum, c) - c) % 0x100 == sum
  {
  }

  lemma {:induction false} PlusCancels(a: Byte, b: Byte, c: Byte)
    requires a != b
    ensures Plus(a, c) != Plus(b, c) && Plus(c, a) != Plus(c, b)
  {
  }

  /** One changed byte is always noticed: the sums differ. */
  lemma {:induction false} SumNotices(s: seq<Byte>, k: nat, b: Byte)
    requires k < |s| && b != s[k]
    ensures Sum(s[k := b]) != Sum(s)
  {
    hide Plus;
    var n := |s| - 1;
    if k == n {
      assert s[k := b][..n] == s[..n];
      PlusCancels(s[k], b, Sum(s[..n]));
    } else {
      assert s[k := b][..n] == s[..n][k := b];
      SumNotices(s[..n], k, b);
      PlusCancels(Sum(s[..n][k := b]), Sum(s[..n]), s[n]);
    }
  }

  // ----- acknowledgement ---------------------------------------------------------------------------------------

  /** gdb_recv with acknowledgement: packets whose check fails are asked for again. */
  function RecvAcked(s: seq<Byte>): (r: Reply)
    decreases |s|
  {
    var p := Recv(s);
    if p.Packet? && !p.sumOk then RecvAcked(p.rest) else p
  }

  /** The packets asked for again. */
  function Naks(s: seq<Byte>): nat
    decreases |s|
  {
    var p := Recv(s);
    if p.Packet? && !p.sumOk then 1 + Naks(p.rest) else 0
  }

  /** A transmission of the items with two digits behind them. */
  datatype Try = Try(pre: seq<Byte>, items: seq<Item>, msb: Byte, lsb: Byte)

  predicate Bad(t: Try) {
    NoEnd(t.pre) && Legal(t.items) && GdbDecodeHex(t.msb, t.lsb) != Sum(Wire(t.items))
  }

  function Sent(tries: seq<Try>): seq<Byte>
    requires forall t | t in tries :: Bad(t)
  {
    if tries == [] then []
    else var t := tries[0];
         assert t in tries && Bad(t);
         t.pre + [DOLLAR] + Wire(t.items) + [HASH, t.msb, t.lsb] + Sent(tries[1..])
  }

  /** After any number of spoilt transmissions the first good one is delivered, and one - went out for each of them. */
  lemma {:induction false} DeliversAtLast(tries: seq<Try>, s: seq<Byte>)
    requires forall t | t in tries :: Bad(t)
    requires Recv(s).Packet? && Recv(s).sumOk
    ensures RecvAcked(Sent(tries) + s) == Recv(s) && Naks(Sent(tries) + s) == |tries|
  {
    if tries == [] {
      assert Sent(tries) + s == s;
    } else {
      var t, more := tries[0], Sent(tries[1..]) + s;
      assert t in tries;
      assert Sent(tries) + s == t.pre + [DOLLAR] + Wire(t.items) + [HASH, t.msb, t.lsb] + more;
      RecvInverts(t.pre, t.items, t.msb, t.lsb, more);
      DeliversAtLast(tries[1..], s);
    }
  }
}

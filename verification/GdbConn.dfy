/** The connection of protocol.c: what is still to be read, what was written, and whether packets are acknowledged. */
module GdbConn {
  import opened Octets
  import opened GdbPackets

  const EOF := -1

  /** n copies of a frame. */
  function Frames(command: seq<Byte>, n: nat): seq<Byte> {
    if n == 0 then [] else Frames(command, n - 1) + Frame(command)
  }

  lemma {:induction false} FramesNext(out: seq<Byte>, command: seq<Byte>, n: nat)
    ensures out + Frames(command, n) + Frame(command) == out + Frames(command, n + 1)
    ensures out + Frames(command, 0) == out
  {
  }

  lemma {:induction false} NoneBefore(s: seq<Byte>, k: nat)
    requires k < |s| && PLUS !in s[..k]
    ensures s[k..][0] == s[k] && s[k..][1..] == s[k + 1..]
    ensures s[k] != PLUS ==> PLUS !in s[..k + 1]
  {
    assert s[..k + 1] == s[..k] + [s[k]];
  }

  /** n requests to send again, then one acknowledgement. */
  function Answers(n: nat): seq<Byte> {
    Copies(MINUS, n) + [PLUS]
  }

  /** How many bytes come before the first +. */
  function BeforePlus(s: seq<Byte>): (k: nat)
    ensures k <= |s| && 0x2b !in s[..k] && (k < |s| ==> s[k] == 0x2b)
  {
    if s == [] || s[0] == PLUS then 0 else 1 + BeforePlus(s[1..])
  }

  lemma {:induction false} NoneIn(s: seq<Byte>, k: nat)
    requires k <= |s| && PLUS !in s[..k]
    ensures forall j :: 0 <= j < k ==> s[j] != PLUS
  {
    assert forall j :: 0 <= j < k ==> s[j] == s[..k][j];
  }

  lemma {:induction false} BeforePlusIs(s: seq<Byte>, k: nat)
    requires k <= |s| && PLUS !in s[..k] && (k < |s| ==> s[k] == PLUS)
    ensures BeforePlus(s) == k
  {
    NoneIn(s, k);
    NoneIn(s, BeforePlus(s));
  }

  // ----- one command and one reply -----------------------------------------------------------------------------

  /** What gdb_send puts out: with acknowledgement, the frame once more for every byte that comes in before a +. */
  function Sends(ack: bool, command: seq<Byte>, s: seq<Byte>): seq<Byte> {
    if ack then Frames(command, BeforePlus(s) + 1) else Frame(command)
  }

  /** With acknowledgement and no + to come, gdb_send goes on for ever. */
  predicate Stuck(ack: bool, s: seq<Byte>) {
    ack && BeforePlus(s) == |s|
  }

  function AfterSend(ack: bool, s: seq<Byte>): seq<Byte> {
    if !ack then s else if BeforePlus(s) == |s| then [] else s[BeforePlus(s) + 1..]
  }

  /** What gdb_recv returns, and what it answers. */
  function Receives(ack: bool, s: seq<Byte>): Reply {
    if ack then RecvAcked(s) else Recv(s)
  }

  function Replies(ack: bool, s: seq<Byte>): seq<Byte> {
    if ack then Answers(Naks(s)) else []
  }

  /** The reply to a command when s is to come in; Closed when there is none. */
  function Talk(ack: bool, s: seq<Byte>): Reply {
    if Stuck(ack, s) then Closed else Receives(ack, AfterSend(ack, s))
  }

  /** All that goes out for a command that is replied to. */
  function Said(ack: bool, command: seq<Byte>, s: seq<Byte>): seq<Byte> {
    Sends(ack, command, s) + Replies(ack, AfterSend(ack, s))
  }

  class Conn {
    var input: seq<Byte>
    var output: seq<Byte>
    var ack: bool

    method Fgetc() returns (c: int)
      modifies this`input
      ensures old(input) == [] ==> c == EOF && input == []
      ensures old(input) != [] ==> c == old(input)[0] && input == old(input)[1..]
    {
      if input == [] {
        c := EOF;
      } else {
        c := input[0];
        input := input[1..];
      }
    }

    method Ungetc(c: int)
      requires c == EOF || 0 <= c < 0x100
      modifies this`input
      ensures input == if c == EOF then old(input) else [c] + old(input)
    {
      if c != EOF {
        input := [c] + input;
      }
    }

    method SendPacket(command: seq<Byte>)
      modifies this`output
      ensures output == old(output) + Frame(command)
    {
      var sum: Byte := 0;
      for i := 0 to |command|
        invariant sum == Sum(command[..i])
      {
        assert command[..i + 1][..i] == command[..i];
        sum := (sum + command[i]) % 0x100;
      }
      assert command[..|command|] == command;
      output := output + [DOLLAR];
      output := output + command;
      output := output + [HASH] + UpperHex(sum);
    }

    /** The command goes out once, or once more for every byte that comes in before a +; without one it would go out
        for ever. */
    method GdbSend(command: seq<Byte>) returns (gaveUp: bool)
      modifies this`input, this`output
      ensures gaveUp == Stuck(ack, old(input)) && input == AfterSend(ack, old(input))
      ensures output == old(output) + Sends(ack, command, old(input))
    {
      hide Frame, Frames;
      var acked := false;
      gaveUp := false;
      ghost var k := 0;
      ghost var in0, out0 := input, output;
      FramesNext(out0, command, 0);
      assert in0[0..] == in0;
      while !acked
        invariant !gaveUp && k <= |in0| && output == out0 + Frames(command, k) && input == in0[k..]
        invariant ack == old(ack) && (!ack ==> k == 0 && !acked)
        invariant if acked then k > 0 && in0[k - 1] == PLUS && PLUS !in in0[..k - 1] else PLUS !in in0[..k]
        decreases |input|, !acked
      {
        FramesNext(out0, command, k);
        SendPacket(command);
        if !ack {
          FramesNext(out0, command, 0);
          return;
        }
        if input == [] {
          assert in0[..k] == in0;
          BeforePlusIs(in0, k);
          FramesNext(out0, command, k);
          gaveUp := true;
          return;
        }
        NoneBefore(in0, k);
        var c := Fgetc();
        acked := c == PLUS;
        k := k + 1;
      }
      BeforePlusIs(in0, k - 1);
    }

    /** realloc */
    static method Realloc(a: array<Byte>, size: nat) returns (b: array<Byte>)
      requires a.Length <= size
      ensures fresh(b) && b.Length == size && b[..a.Length] == a[..]
    {
      b := new Byte[size];
      forall k | 0 <= k < a.Length {
        b[k] := a[k];
      }
    }

    /** n copies of b behind the i bytes received, in a buffer twice as large if they do not fit: one doubling is enough,
        since a run adds at most 97 bytes to a buffer of at least 4096. */
    static method Append(reply: array<Byte>, i: nat, b: Byte, n: nat) returns (grown: array<Byte>)
      requires i <= reply.Length && n <= 97 && reply.Length >= 4096
      modifies reply
      ensures grown == reply || fresh(grown)
      ensures i + n <= grown.Length && grown.Length >= reply.Length
      ensures grown[..i + n] == old(reply[..i]) + Copies(b, n)
    {
      grown := reply;
      if i + n > reply.Length {
        grown := Realloc(reply, reply.Length * 2);
        assert grown[..i] == grown[..reply.Length][..i];
      }
      ghost var got := grown[..i];
      assert got == old(reply[..i]);
      forall k | i <= k < i + n {
        grown[k] := b;
      }
      assert grown[..i] == got && grown[i..i + n] == Copies(b, n);
      assert grown[..i + n] == grown[..i] + grown[i..i + n];
    }

    /** The first loop: on to the start of a packet. */
    method FastForward() returns (closed: bool)
      modifies this`input
      ensures closed ==> Recv(old(input)) == Closed && input == []
      ensures !closed ==> Recv(old(input)) == Body(input, [], 0, false)
    {
      hide Body;
      ghost var s := input;
      var c := Fgetc();
      assert c != EOF ==> s == [c] + input;
      while c != EOF && c != DOLLAR
        invariant c == EOF ==> Recv(s) == Closed && input == []
        invariant c != EOF ==> 0 <= c < 0x100 && Recv(s) == Recv([c] + input)
        decreases |input|, c != EOF
      {
        assert ([c] + input)[1..] == input;
        ghost var t := input;
        c := Fgetc();
        assert c != EOF ==> t == [c] + input;
      }
      closed := c == EOF;
      assert c != EOF ==> ([c] + input)[1..] == input;
    }

    /** After a #, already read: the two digits, and a terminator behind the payload. */
    method End(reply0: array<Byte>, i: nat, sum: Byte, ghost escape: bool) returns (reply: array<Byte>, sumOk: bool)
      requires i <= reply0.Length
      modifies this`input, reply0
      ensures reply == reply0 || fresh(reply)
      ensures i < reply.Length && reply[i] == 0 && reply[..i] == old(reply0[..i])
      ensures Body([HASH] + old(input), reply[..i], sum, escape) == Packet(reply[..i], sumOk, input)
    {
      ghost var s := [HASH] + input;
      var msb := Fgetc();
      var lsb := Fgetc();
      sumOk := sum == GdbDecodeHex((msb % 0x100) as Byte, (lsb % 0x100) as Byte);
      assert msb % 0x100 == ByteAt(s, 1) && lsb % 0x100 == ByteAt(s, 2);
      assert input == s[if |s| < 3 then |s| else 3..];
      reply := reply0;
      if i == reply.Length {
        reply := Realloc(reply, reply.Length + 1);
      }
      reply[i] := 0;
    }

    /** The character behind a *, read if it is a count. */
    method RepeatCount() returns (count: int)
      modifies this`input
      ensures if old(input) != [] && CountChar(old(input)[0]) then count == old(input)[0] - 29 && input == old(input)[1..]
              else count == -1 && input == old(input)
    {
      var c2 := Fgetc();
      if c2 < 29 || c2 > 126 || c2 == DOLLAR || c2 == HASH {
        Ungetc(c2);
        count := -1;
      } else {
        count := c2 - 29;
      }
    }

    /** A character c, already read and added to the sum, that is none of $ # }. */
    method Take(reply0: array<Byte>, i0: nat, ghost sum0: Byte, sum1: Byte, escape0: bool, c: Byte)
      returns (reply: array<Byte>, i: nat, sum: Byte, escape: bool)
      requires i0 <= reply0.Length && reply0.Length >= 4096
      requires c != DOLLAR && c != HASH && c != BRACE && sum1 == Plus(sum0, c)
      modifies this`input, reply0
      ensures i <= reply.Length && reply.Length >= 4096 && (reply == reply0 || fresh(reply)) && |input| <= |old(input)|
      ensures Body([c] + old(input), old(reply0[..i0]), sum0, escape0) == Body(input, reply[..i], sum, escape)
    {
      ghost var s, out := [c] + input, reply0[..i0];
      BodyTurn(s, out, sum0, escape0);
      hide Body, Plus, Flip, CountChar;
      assert s[1..] == input && (input != [] ==> s[1] == input[0] && s[2..] == input[1..]);
      if c == STAR && i0 > 0 {
        var count := RepeatCount();
        if count >= 0 {
          reply := Append(reply0, i0, reply0[i0 - 1], count);
          i, sum, escape := i0 + count, Plus(sum1, count + 29), escape0;
          return;
        }
      }
      reply := Append(reply0, i0, if escape0 then Flip(c) else c, 1);
      assert Copies(if escape0 then Flip(c) else c, 1) == [if escape0 then Flip(c) else c];
      i, sum, escape := i0 + 1, sum1, false;
    }

    /** The buffer is large enough at every step, and what comes back is what Recv says. */
    method RecvPacket() returns (closed: bool, reply: array<Byte>, i: nat, sumOk: bool)
      modifies this`input
      ensures fresh(reply) && i <= reply.Length
      ensures closed ==> Recv(old(input)) == Closed && input == []
      ensures !closed ==> i < reply.Length && reply[i] == 0 && Recv(old(input)) == Packet(reply[..i], sumOk, input)
    {
      hide Recv, Body, Plus;
      i, sumOk := 0, false;
      reply := new Byte[4096];
      var sum: Byte, escape := 0, false;
      ghost var all := input;
      closed := FastForward();
      if closed {
        return;
      }
      while true
        invariant i <= reply.Length && reply.Length >= 4096 && fresh(reply) && !closed
        invariant Recv(all) == Body(input, reply[..i], sum, escape)
        decreases |input|
      {
        ghost var s, out := input, reply[..i];
        var c := Fgetc();
        if c == EOF {
          BodyEmpty(out, sum, escape);
          closed := true;
          return;
        }
        BodyTurn(s, out, sum, escape);
        MinusUndoes(sum, c);
        ghost var sum0 := sum;
        sum := Plus(sum, c);
        assert s == [c] + input;
        if c == DOLLAR {
          i := 0;
          sum := 0;
          escape := false;
        } else if c == HASH {
          sum := (sum - c) % 0x100;
          reply, sumOk := End(reply, i, sum, escape);
          return;
        } else if c == BRACE {
          escape := true;
        } else {
          reply, i, sum, escape := Take(reply, i, sum0, sum, escape, c);
        }
      }
    }

    /** With acknowledgement, the first packet whose check holds, after a - for each that did not; without, the first
        packet there is. */
    method GdbRecv() returns (closed: bool, reply: array<Byte>, size: nat)
      modifies this`input, this`output
      ensures fresh(reply) && size <= reply.Length
      ensures !closed ==> size < reply.Length && reply[size] == 0
      ensures var s := old(input);
              var p := Receives(ack, s);
              && closed == p.Closed?
              && (p.Packet? ==> reply[..size] == p.bytes && input == p.rest)
              && output == old(output) + (if closed && ack then Copies(MINUS, Naks(s)) else Replies(ack, s))
              && output == old(output) + (if !ack then [] else seq(Naks(s), _ => 0x2d) + if closed then [] else [0x2b])
    {
      var acked := false;
      ghost var s, n := input, 0;
      while true
        invariant ack == old(ack) && |input| <= |s|
        invariant output == old(output) + Copies(MINUS, n)
        invariant if ack then RecvAcked(s) == RecvAcked(input) && Naks(s) == n + Naks(input) else input == s && n == 0
        decreases |input|
      {
        ghost var before := input;
        closed, reply, size, acked := RecvPacket();
        if closed || !ack {
          return;
        }
        output := output + [if acked then PLUS else MINUS];
        if acked {
          return;
        }
        n := n + 1;
      }
    }
  }
}

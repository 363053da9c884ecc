/** The commands of nemu/tools/qemu-diff/src/gdb-host.c: memory in pieces of 1500 bytes, and registers. */
module GdbCommands {
  import opened Wrappers
  import opened Octets
  import opened GdbPackets
  import opened GdbConn

  const MTU: nat := 1500

  // ----- strings of hexadecimal digits -------------------------------------------------------------------------

  function HexStr(bytes: seq<Byte>): (s: seq<Byte>)
    ensures |s| == 2 * |bytes|
  {
    if bytes == [] then [] else HexStr(bytes[..|bytes| - 1]) + Hex(bytes[|bytes| - 1])
  }

  /** The bytes that the leading pairs of digits stand for. */
  function Pairs(s: seq<Byte>): seq<Byte> {
    if |s| < 2 || GdbDecodeHex(s[0], s[1]) == 0xffff then [] else [GdbDecodeHex(s[0], s[1])] + Pairs(s[2..])
  }

  lemma {:induction false} HexFrom(bytes: seq<Byte>)
    requires bytes != []
    ensures HexStr(bytes) == Hex(bytes[0]) + HexStr(bytes[1..])
  {
    var n := |bytes| - 1;
    if n > 0 {
      HexFrom(bytes[..n]);
      assert bytes[..n][1..] == bytes[1..][..n - 1];
    }
  }

  lemma {:induction false} PairsInvertHex(bytes: seq<Byte>, tail: seq<Byte>)
    requires |tail| > 0 ==> !IsXDigit(tail[0])
    ensures Pairs(HexStr(bytes) + tail) == bytes
  {
    if bytes == [] {
      assert HexStr(bytes) + tail == tail;
    } else {
      HexFrom(bytes);
      DecodeInvertsEncode(bytes[0]);
      var s := HexStr(bytes) + tail;
      assert s[0] == Hex(bytes[0])[0] && s[1] == Hex(bytes[0])[1];
      assert s[2..] == HexStr(bytes[1..]) + tail;
      PairsInvertHex(bytes[1..], tail);
    }
  }

  /** The value of bytes, the lowest first. */
  function LittleEndian(bytes: seq<Byte>): nat {
    if bytes == [] then 0 else bytes[0] + 0x100 * LittleEndian(bytes[1..])
  }

  // ----- numbers -----------------------------------------------------------------------------------------------

  /** %x */
  function HexNum(n: nat): seq<Byte> {
    if n < 16 then [HexEncode(n)] else HexNum(n / 16) + [HexEncode(n % 16)]
  }

  /** The number the leading digits stand for, and what is behind it. */
  function ReadNum(s: seq<Byte>, acc: nat): (nat, seq<Byte>)
    decreases |s|
  {
    if s == [] || !IsXDigit(s[0]) then (acc, s) else ReadNum(s[1..], 16 * acc + HexNibble(s[0]))
  }

  lemma {:induction false} ReadInvertsHexNum(n: nat, tail: seq<Byte>)
    ensures ReadNum(HexNum(n) + tail, 0) == ReadNum(tail, n)
  {
    var d := HexEncode(n % 16);
    assert ([d] + tail)[1..] == tail;
    if n < 16 {
      assert HexNum(n) + tail == [d] + tail;
    } else {
      assert HexNum(n) + tail == HexNum(n / 16) + ([d] + tail);
      ReadInvertsHexNum(n / 16, [d] + tail);
    }
  }

  // ----- writing memory ----------------------------------------------------------------------------------------

  /** "M0x%x,%x:" and the bytes. */
  function MCommand(dest: nat, bytes: seq<Byte>): seq<Byte> {
    [0x4d, 0x30, 0x78] + HexNum(dest) + [0x2c] + HexNum(|bytes|) + [0x3a] + HexStr(bytes)
  }

  /** A stub that reads such a command: an address, a length, and that many bytes. */
  function ParseM(c: seq<Byte>): Option<(nat, seq<Byte>)> {
    if |c| < 3 || c[..3] != [0x4d, 0x30, 0x78] then None else
    var (dest, rest) := ReadNum(c[3..], 0);
    if rest == [] || rest[0] != 0x2c then None else
    var (len, data) := ReadNum(rest[1..], 0);
    if data == [] || data[0] != 0x3a || |data[1..]| != 2 * len || |Pairs(data[1..])| != len then None
    else Some((dest, Pairs(data[1..])))
  }

  lemma {:induction false} ParseInvertsCommand(dest: nat, bytes: seq<Byte>)
    ensures ParseM(MCommand(dest, bytes)) == Some((dest, bytes))
  {
    var c := MCommand(dest, bytes);
    var data := [0x3a] + HexStr(bytes);
    var rest := [0x2c] + (HexNum(|bytes|) + data);
    assert c[3..] == HexNum(dest) + rest;
    ReadInvertsHexNum(dest, rest);
    assert rest[1..] == HexNum(|bytes|) + data;
    ReadInvertsHexNum(|bytes|, data);
    assert data[1..] == HexStr(bytes) + [];
    PairsInvertHex(bytes, []);
  }

  predicate Harmless(s: seq<Byte>) {
    forall k :: 0 <= k < |s| ==> !Special(s[k])
  }

  lemma {:induction false} HexNumHarmless(n: nat)
    ensures Harmless(HexNum(n))
  {
    if n >= 16 {
      HexNumHarmless(n / 16);
    }
  }

  lemma {:induction false} HexStrHarmless(bytes: seq<Byte>)
    ensures Harmless(HexStr(bytes))
  {
    if bytes != [] {
      HexStrHarmless(bytes[..|bytes| - 1]);
    }
  }

  lemma {:induction false} CommandPlain(dest: nat, bytes: seq<Byte>)
    ensures Plain(MCommand(dest, bytes))
  {
    HexNumHarmless(dest);
    HexNumHarmless(|bytes|);
    HexStrHarmless(bytes);
    hide HexNum, HexStr, Special;
    assert Special(0x4d) || Special(0x30) || Special(0x78) || Special(0x2c) || Special(0x3a) ==> false by {
      assert Harmless([0x4d, 0x30, 0x78, 0x2c, 0x3a]) by {
        SeparatorsHarmless();
      }
    }
    assert Harmless(MCommand(dest, bytes));
  }

  lemma {:induction false} SeparatorsHarmless()
    ensures Harmless([0x4d, 0x30, 0x78, 0x2c, 0x3a])
    ensures !Special(0x4d) && !Special(0x30) && !Special(0x78) && !Special(0x2c) && !Special(0x3a)
  {
  }

  /** Addresses are 32 bits wide. */
  function NextAddress(a: nat, n: nat): (b: nat)
    ensures b < 0x1_0000_0000
  {
    (a + n) % 0x1_0000_0000
  }

  function Write(mem: map<nat, Byte>, a: nat, bytes: seq<Byte>): map<nat, Byte> {
    if bytes == [] then mem
    else var n := |bytes| - 1;
         Write(mem, a, bytes[..n])[NextAddress(a, n) := bytes[n]]
  }

  lemma {:induction false} NextTwice(a: nat, m: nat, n: nat)
    ensures NextAddress(NextAddress(a, m), n) == NextAddress(a, m + n)
  {
  }

  lemma {:induction false} WriteTwo(mem: map<nat, Byte>, a: nat, x: seq<Byte>, y: seq<Byte>)
    ensures Write(mem, a, x + y) == Write(Write(mem, a, x), NextAddress(a, |x|), y)
  {
    if y == [] {
      assert x + y == x;
    } else {
      var n := |y| - 1;
      assert (x + y)[..|x| + n] == x + y[..n];
      WriteTwo(mem, a, x, y[..n]);
      NextTwice(a, |x|, n);
      hide NextAddress;
    }
  }

  /** The commands of gdb_memcpy_to_qemu. */
  function Chunks(dest: nat, src: seq<Byte>): seq<seq<Byte>>
    decreases |src|
  {
    if |src| <= MTU then [MCommand(dest, src)]
    else [MCommand(dest, src[..MTU])] + Chunks(NextAddress(dest, MTU), src[MTU..])
  }

  lemma {:induction false} SliceOfRest(s: seq<Byte>, m: nat, i: nat, j: nat)
    requires i <= j && m + j <= |s|
    ensures s[m..][i..j] == s[m + i..m + j]
  {
  }

  /** Pieces of 1500 bytes, and the rest, each for the place it belongs to. */
  lemma {:induction false} ChunkAt(dest: nat, src: seq<Byte>, k: nat)
    requires dest < 0x1_0000_0000
    ensures |Chunks(dest, src)| == if src == [] then 1 else (|src| + 1499) / 1500
    ensures k < |Chunks(dest, src)| ==>
              1500 * k <= |src|
              && Chunks(dest, src)[k] == MCommand((dest + 1500 * k) % 0x1_0000_0000,
                                                  src[1500 * k..if |src| < 1500 * k + 1500 then |src| else 1500 * k + 1500])
    decreases |src|
  {
    hide MCommand;
    if |src| <= MTU {
      assert src[0..|src|] == src;
    } else {
      var next, more := NextAddress(dest, MTU), src[MTU..];
      ChunkAt(next, more, if k > 0 then k - 1 else 0);
      if 0 < k < |Chunks(dest, src)| {
        NextTwice(dest, MTU, 1500 * (k - 1));
        var last := if |src| < 1500 * k + 1500 then |src| else 1500 * k + 1500;
        SliceOfRest(src, MTU, 1500 * (k - 1), last - MTU);
      }
    }
  }

  /** The byte for an address is the one as far into bytes as the address is behind a; no other address is touched. */
  lemma {:induction false} WriteAt(mem: map<nat, Byte>, a: nat, bytes: seq<Byte>, x: nat)
    requires |bytes| <= 0x1_0000_0000
    ensures var i := (x - a) % 0x1_0000_0000;
      if x < 0x1_0000_0000 && i < |bytes| then x in Write(mem, a, bytes) && Write(mem, a, bytes)[x] == bytes[i]
      else (x in Write(mem, a, bytes) <==> x in mem) && (x in mem ==> Write(mem, a, bytes)[x] == mem[x])
  {
    if bytes != [] {
      var n := |bytes| - 1;
      WriteAt(mem, a, bytes[..n], x);
      Distance(a, n, x);
      hide NextAddress;
    }
  }

  lemma {:induction false} Distance(a: nat, n: nat, x: nat)
    requires n < 0x1_0000_0000
    ensures NextAddress(a, n) == x <==> x < 0x1_0000_0000 && (x - a) % 0x1_0000_0000 == n
  {
  }

  function Execute(mem: map<nat, Byte>, command: seq<Byte>): map<nat, Byte> {
    match ParseM(command)
    case Some(write) => Write(mem, write.0, write.1)
    case None => mem
  }

  /** A stub that receives packets as recv_packet does and carries out those whose check holds. */
  function Serve(mem: map<nat, Byte>, s: seq<Byte>): map<nat, Byte>
    decreases |s|
  {
    var p := Recv(s);
    if p.Closed? then mem else Serve(if p.sumOk then Execute(mem, p.bytes) else mem, p.rest)
  }

  // ----- a run of commands, each with its reply ----------------------------------------------------------------

  /** n commands in a row get their replies from the input s. */
  predicate Replied(ack: bool, n: nat, s: seq<Byte>)
    decreases n
  {
    n == 0 || (Talk(ack, s).Packet? && Replied(ack, n - 1, Talk(ack, s).rest))
  }

  /** All that goes out for them. */
  function Session(ack: bool, commands: seq<seq<Byte>>, s: seq<Byte>): seq<Byte> {
    if commands == [] then []
    else Said(ack, commands[0], s) + if Talk(ack, s).Packet? then Session(ack, commands[1..], Talk(ack, s).rest) else []
  }

  lemma {:induction false} BytesOverwritten(mem: map<nat, Byte>, a: nat, bytes: seq<Byte>)
    ensures Write(mem, a, bytes) == mem + Write(map[], a, bytes)
  {
    if bytes != [] {
      BytesOverwritten(mem, a, bytes[..|bytes| - 1]);
    }
  }

  /** Writing the same bytes again changes nothing. */
  lemma {:induction false} WriteAgain(mem: map<nat, Byte>, a: nat, bytes: seq<Byte>)
    ensures Write(Write(mem, a, bytes), a, bytes) == Write(mem, a, bytes)
  {
    BytesOverwritten(mem, a, bytes);
    BytesOverwritten(Write(mem, a, bytes), a, bytes);
    hide Write;
  }

  lemma {:induction false} ServeOne(mem: map<nat, Byte>, dest: nat, bytes: seq<Byte>, rest: seq<Byte>)
    ensures Serve(mem, Frame(MCommand(dest, bytes)) + rest) == Serve(Write(mem, dest, bytes), rest)
  {
    var c := MCommand(dest, bytes);
    CommandPlain(dest, bytes);
    RecvInvertsFrame([], c, rest);
    ParseInvertsCommand(dest, bytes);
    hide Recv, MCommand, Frame, ParseM;
    assert [] + Frame(c) + rest == Frame(c) + rest;
  }

  /** A command that is sent again and again writes its bytes once. */
  lemma {:induction false} ServeFrames(mem: map<nat, Byte>, dest: nat, bytes: seq<Byte>, n: nat, rest: seq<Byte>)
    ensures Serve(mem, Frames(MCommand(dest, bytes), n + 1) + rest) == Serve(Write(mem, dest, bytes), rest)
  {
    hide Serve, Write, MCommand, Frame;
    var c := MCommand(dest, bytes);
    assert Frames(c, n + 1) + rest == Frames(c, n) + (Frame(c) + rest);
    if n == 0 {
      assert Frames(c, 0) + (Frame(c) + rest) == Frame(c) + rest;
      ServeOne(mem, dest, bytes, rest);
    } else {
      ServeFrames(mem, dest, bytes, n - 1, Frame(c) + rest);
      ServeOne(Write(mem, dest, bytes), dest, bytes, rest);
      WriteAgain(mem, dest, bytes);
    }
  }

  /** Acknowledgements between the packets are passed over. */
  lemma {:induction false} ServePassesOver(mem: map<nat, Byte>, pre: seq<Byte>, rest: seq<Byte>)
    requires DOLLAR !in pre
    ensures Serve(mem, pre + rest) == Serve(mem, rest)
  {
    RecvPassesOver(pre, rest);
    hide Execute, Recv;
  }

  lemma {:induction false} RecvPassesOver(pre: seq<Byte>, rest: seq<Byte>)
    requires DOLLAR !in pre
    ensures Recv(pre + rest) == Recv(rest)
  {
    if pre == [] {
      assert pre + rest == rest;
    } else {
      assert (pre + rest)[1..] == pre[1..] + rest;
      RecvPassesOver(pre[1..], rest);
    }
  }

  /** All that goes out for one M command writes its bytes. */
  lemma {:induction false} ServeSaid(mem: map<nat, Byte>, ack: bool, dest: nat, bytes: seq<Byte>, s: seq<Byte>, rest: seq<Byte>)
    ensures Serve(mem, Said(ack, MCommand(dest, bytes), s) + rest) == Serve(Write(mem, dest, bytes), rest)
  {
    hide Serve, Write, MCommand, Frame;
    var c, replies := MCommand(dest, bytes), Replies(ack, AfterSend(ack, s));
    assert Said(ack, c, s) + rest == Sends(ack, c, s) + (replies + rest);
    if ack {
      ServeFrames(mem, dest, bytes, BeforePlus(s), replies + rest);
    } else {
      ServeOne(mem, dest, bytes, replies + rest);
    }
    ServePassesOver(Write(mem, dest, bytes), replies, rest);
  }

  /** Whatever the length, and however often packets and acknowledgements are repeated, what goes out for
      gdb_memcpy_to_qemu writes src at dest and nothing else. */
  lemma {:induction false} MemcpyWrites(mem: map<nat, Byte>, ack: bool, dest: nat, src: seq<Byte>, s: seq<Byte>, rest: seq<Byte>)
    requires dest < 0x1_0000_0000 && Replied(ack, |Chunks(dest, src)|, s)
    ensures Serve(mem, Session(ack, Chunks(dest, src), s) + rest) == Serve(Write(mem, dest, src), rest)
    decreases |src|
  {
    hide Serve, Write, MCommand, NextAddress, Talk, Said, Session;
    if |src| <= MTU {
      SessionFirst(ack, MCommand(dest, src), [], s, rest);
      NoSession(ack, Talk(ack, s).rest);
      assert [MCommand(dest, src)] + [] == Chunks(dest, src) && [] + rest == rest;
      ServeSaid(mem, ack, dest, src, s, rest);
    } else {
      var chunk, more, next := src[..MTU], src[MTU..], NextAddress(dest, MTU);
      var left := Talk(ack, s).rest;
      SessionFirst(ack, MCommand(dest, chunk), Chunks(next, more), s, rest);
      ServeSaid(mem, ack, dest, chunk, s, Session(ack, Chunks(next, more), left) + rest);
      MemcpyWrites(Write(mem, dest, chunk), ack, next, more, left, rest);
      assert src == chunk + more;
      WriteTwo(mem, dest, chunk, more);
    }
  }

  lemma {:induction false} NoSession(ack: bool, s: seq<Byte>)
    ensures Session(ack, [], s) == []
  {
  }

  lemma {:induction false} SessionFirst(ack: bool, c: seq<Byte>, others: seq<seq<Byte>>, s: seq<Byte>, rest: seq<Byte>)
    requires Talk(ack, s).Packet?
    ensures Session(ack, [c] + others, s) + rest == Said(ack, c, s) + (Session(ack, others, Talk(ack, s).rest) + rest)
    ensures Session(ack, [c] + others, s) == Said(ack, c, s) + Session(ack, others, Talk(ack, s).rest)
  {
    assert ([c] + others)[1..] == others;
    hide Talk, Said;
  }

  // ----- registers ---------------------------------------------------------------------------------------------

  /** A 32-bit register as it lies in memory. */
  function RegBytes(r: nat): seq<Byte>
    requires r < 0x1_0000_0000
  {
    [r % 0x100, r / 0x100 % 0x100, r / 0x1_0000 % 0x100, r / 0x100_0000]
  }

  predicate Words(regs: seq<nat>) {
    forall i :: 0 <= i < |regs| ==> regs[i] < 0x1_0000_0000
  }

  function AllBytes(regs: seq<nat>): (s: seq<Byte>)
    requires Words(regs)
    ensures |s| == 4 * |regs|
  {
    if regs == [] then [] else AllBytes(regs[..|regs| - 1]) + RegBytes(regs[|regs| - 1])
  }

  /** What gdb_getregs makes of the i-th eight digits. */
  function Register(digits: seq<Byte>, i: nat): nat
    requires 8 * i + 8 <= |digits|
  {
    LittleEndian(Pairs(digits[8 * i..8 * i + 8] + [0])) % 0x1_0000_0000
  }

  lemma {:induction false} Quarters(r: nat)
    ensures r == r % 0x100 + 0x100 * (r / 0x100 % 0x100 + 0x100 * (r / 0x1_0000 % 0x100 + 0x100 * (r / 0x100_0000)))
  {
    assert r / 0x1_0000 == r / 0x100 / 0x100 && r / 0x100_0000 == r / 0x1_0000 / 0x100;
  }

  lemma {:induction false} LittleEndianRegister(r: nat)
    requires r < 0x1_0000_0000
    ensures LittleEndian(RegBytes(r)) == r
  {
    var b := RegBytes(r);
    assert b[1..][1..][1..] == [b[3]] && b[1..][1..] == [b[2], b[3]] && b[1..] == [b[1], b[2], b[3]];
    var b0: nat, b1: nat, b2: nat, b3: nat := b[0], b[1], b[2], b[3];
    assert LittleEndian([b[3]]) == b3;
    assert LittleEndian(b[1..][1..]) == b2 + 0x100 * b3;
    assert LittleEndian(b[1..]) == b1 + 0x100 * (b2 + 0x100 * b3);
    assert LittleEndian(b) == b0 + 0x100 * (b1 + 0x100 * (b2 + 0x100 * b3));
    Quarters(r);
  }

  lemma {:induction false} HexStrTwo(a: seq<Byte>, b: seq<Byte>)
    ensures HexStr(a + b) == HexStr(a) + HexStr(b)
  {
    if b == [] {
      assert a + b == a;
    } else {
      assert (a + b)[..|a + b| - 1] == a + b[..|b| - 1];
      HexStrTwo(a, b[..|b| - 1]);
    }
  }

  /** Reading the digits that gdb_setregs writes gives the registers back. */
  lemma {:induction false} GetInvertsSet(regs: seq<nat>, i: nat)
    requires Words(regs) && i < |regs|
    ensures Register(HexStr(AllBytes(regs)), i) == regs[i]
  {
    hide HexStr, Pairs, LittleEndian, RegBytes;
    var n := |regs| - 1;
    var before, last := AllBytes(regs[..n]), RegBytes(regs[n]);
    HexStrTwo(before, last);
    var s := HexStr(AllBytes(regs));
    if i < n {
      GetInvertsSet(regs[..n], i);
      assert s[8 * i..8 * i + 8] == HexStr(before)[8 * i..8 * i + 8];
    } else {
      assert s[8 * i..8 * i + 8] == HexStr(last);
      PairsInvertHex(last, [0]);
      LittleEndianRegister(regs[n]);
    }
  }
}

/** The code of gdb-host.c over a connection. */
module GdbHost {
  import opened Octets
  import opened GdbPackets
  import opened GdbConn
  import opened GdbCommands
  import opened Bits

  const WIDE: nat := 0x1_0000_0000_0000_0000

  lemma {:induction false} ModTimes(a: nat, d: nat, m: nat)
    requires m > 0
    ensures a % m * d % m == a * d % m
  {
    var q := a / m;
    assert a * d == (q * m + a % m) * d == (q * d) * m + a % m * d;
    ModPlusMultiple(a % m * d, q * d, m);
  }

  lemma {:induction false} ModPlusMultiple(x: nat, k: nat, m: nat)
    requires m > 0
    ensures (k * m + x) % m == x % m
  {
    var q, r := x / m, x % m;
    assert k * m + x == (k + q) * m + r;
    DivModUnique(k * m + x, m, k + q, r);
  }

  lemma {:induction false} ModPlus(a: nat, b: nat, m: nat)
    requires m > 0
    ensures (a % m + b % m) % m == (a + b) % m
  {
    var x := a % m + b % m;
    assert a + b == (a / m + b / m) * m + x;
    ModPlusMultiple(x, a / m + b / m, m);
  }

  lemma {:induction false} ModTwice(a: nat, m: nat)
    requires m > 0
    ensures a % m % m == a % m
  {
    DivModUnique(a % m, m, 0, a % m);
  }

  function Power(k: nat): nat {
    if k == 0 then 1 else 0x100 * Power(k - 1)
  }

  /** One more pair at the high end. */
  lemma {:induction false} LittleEndianSnoc(bytes: seq<Byte>, d: Byte)
    ensures LittleEndian(bytes + [d]) == LittleEndian(bytes) + Power(|bytes|) * d
  {
    if bytes == [] {
      assert LittleEndian([d]) == d;
    } else {
      assert (bytes + [d])[1..] == bytes[1..] + [d];
      LittleEndianSnoc(bytes[1..], d);
      assert Power(|bytes|) * d == 0x100 * (Power(|bytes| - 1) * d);
    }
  }

  /** What one turn of gdb_decode_hex_str does modulo 2^64. */
  lemma {:induction false} DecodeTurn(got: seq<Byte>, d: Byte, value: nat, weight: nat)
    requires value == LittleEndian(got) % WIDE && weight == Power(|got|) % WIDE
    ensures (value + weight * d) % WIDE == LittleEndian(got + [d]) % WIDE
    ensures weight * 0x100 % WIDE == Power(|got| + 1) % WIDE
  {
    LittleEndianSnoc(got, d);
    ModTimes(Power(|got|), d, WIDE);
    ModPlus(LittleEndian(got), Power(|got|) * d, WIDE);
    ModPlus(value, weight * d, WIDE);
    ModTwice(LittleEndian(got), WIDE);
    ModTimes(Power(|got|), 0x100, WIDE);
    hide LittleEndian;
  }

  lemma {:induction false} PairsTurn(s: seq<Byte>, k: nat)
    requires k + 1 < |s| && IsXDigit(s[k]) && IsXDigit(s[k + 1])
    ensures Pairs(s[k..]) == [GdbDecodeHex(s[k], s[k + 1])] + Pairs(s[k + 2..])
  {
    assert s[k..][2..] == s[k + 2..];
  }

  /** The loop of gdb_decode_hex_str, which adds and weighs modulo 2^64. */
  method GdbDecodeHexStr(s: seq<Byte>) returns (value: nat)
    requires |s| > 0 && s[|s| - 1] == 0
    ensures value == LittleEndian(Pairs(s)) % WIDE
  {
    hide LittleEndian, Power, Pairs;
    value := 0;
    var weight, k := 1, 0;
    ghost var got: seq<Byte> := [];
    assert s[0..] == s && LittleEndian([]) == 0 && Power(0) == 1 by { Start(); }
    while IsXDigit(s[k]) && IsXDigit(s[k + 1])
      invariant k < |s| && Pairs(s) == got + Pairs(s[k..])
      invariant value == LittleEndian(got) % WIDE && weight == Power(|got|) % WIDE
      decreases |s| - k
    {
      var d := GdbDecodeHex(s[k], s[k + 1]);
      PairsTurn(s, k);
      DecodeTurn(got, d, value, weight);
      value := (value + weight * d) % WIDE;
      weight := weight * 0x100 % WIDE;
      got := got + [d];
      k := k + 2;
    }
    PairsStop(s[k..]);
    assert Pairs(s) == got;
  }

  lemma {:induction false} Start()
    ensures LittleEndian([]) == 0 && Power(0) == 1
  {
  }

  lemma {:induction false} PairsStop(s: seq<Byte>)
    requires |s| > 0 && (!IsXDigit(s[0]) || (|s| > 1 && !IsXDigit(s[1])))
    ensures Pairs(s) == []
  {
  }

  /** The bytes of src as digits, one byte after the other. */
  method EncodeBytes(src: seq<Byte>) returns (buf: seq<Byte>)
    ensures buf == HexStr(src)
  {
    buf := [];
    for i := 0 to |src|
      invariant buf == HexStr(src[..i])
    {
      assert src[..i + 1][..i] == src[..i];
      buf := buf + [HexEncode(src[i] / 16), HexEncode(src[i] % 16)];
    }
    assert src[..|src|] == src;
  }

  /** A reply, with its terminator, that strcmp takes for "OK". */
  predicate IsOk(reply: seq<Byte>) {
    |reply| >= 3 && reply[..3] == [0x4f, 0x4b, 0]
  }

  /** One command out, one reply in.  `closed`: the connection ended before the reply (errx), or gdb_send never
      returned. */
  method Ask(conn: Conn, command: seq<Byte>) returns (closed: bool, reply: array<Byte>, size: nat)
    modifies conn
    ensures conn.ack == old(conn.ack) && fresh(reply) && (!closed ==> size < reply.Length && reply[size] == 0)
    ensures closed == Talk(conn.ack, old(conn.input)).Closed?
    ensures !closed ==>
              var p := Talk(conn.ack, old(conn.input));
              && conn.output == old(conn.output) + Said(conn.ack, command, old(conn.input))
              && conn.input == p.rest && reply[..size] == p.bytes
  {
    ghost var in0, out0 := conn.input, conn.output;
    closed := conn.GdbSend(command);
    if closed {
      reply, size := new Byte[1], 0;
    } else {
      ghost var sent := Sends(conn.ack, command, in0);
      closed, reply, size := conn.GdbRecv();
      hide Sends;
      assert !closed ==> conn.output == out0 + sent + Replies(conn.ack, AfterSend(conn.ack, in0));
    }
  }

  /** The reply to the k-th command of a run. */
  function ReplyAt(ack: bool, s: seq<Byte>, k: nat): seq<Byte> {
    var p := Talk(ack, After(ack, s, k));
    if p.Packet? then p.bytes else []
  }

  /** All n replies are fine if and only if each of them is "OK" up to its end or its first 0. */
  lemma {:induction false} AllOkMeans(ack: bool, s: seq<Byte>, n: nat)
    requires Replied(ack, n, s)
    ensures AllOk(ack, s, n) <==>
      forall k: nat :: k < n ==>
        var b := ReplyAt(ack, s, k); |b| >= 2 && b[..2] == [0x4f, 0x4b] && (|b| > 2 ==> b[2] == 0)
    decreases n
  {
    hide Talk;
    if n > 0 {
      var t := Talk(ack, s);
      AllOkMeans(ack, t.rest, n - 1);
      forall k: nat | k < n - 1 ensures ReplyAt(ack, s, k + 1) == ReplyAt(ack, t.rest, k) {
      }
      assert ReplyAt(ack, s, 0) == t.bytes;
      IsOkMeans(t.bytes);
      forall k: nat | 0 < k < n ensures ReplyAt(ack, s, k) == ReplyAt(ack, t.rest, k - 1) {
      }
    }
  }

  lemma {:induction false} IsOkMeans(b: seq<Byte>)
    ensures IsOk(b + [0]) <==> |b| >= 2 && b[..2] == [0x4f, 0x4b] && (|b| > 2 ==> b[2] == 0)
  {
    var r := b + [0];
    if |b| >= 2 {
      assert r[..3] == [r[0], r[1], r[2]] && b[..2] == [r[0], r[1]];
    }
  }

  /** The next n replies are all OK. */
  predicate AllOk(ack: bool, s: seq<Byte>, n: nat)
    decreases n
  {
    n == 0 || (Talk(ack, s).Packet? && IsOk(Talk(ack, s).bytes + [0]) && AllOk(ack, Talk(ack, s).rest, n - 1))
  }

  /** What is left of the input after n replies. */
  function After(ack: bool, s: seq<Byte>, n: nat): seq<Byte>
    decreases n
  {
    if n == 0 then s else if Talk(ack, s).Packet? then After(ack, Talk(ack, s).rest, n - 1) else []
  }

  method GdbMemcpyToQemuSmall(conn: Conn, dest: nat, src: seq<Byte>) returns (closed: bool, ok: bool)
    modifies conn
    ensures conn.ack == old(conn.ack) && closed == Talk(conn.ack, old(conn.input)).Closed?
    ensures !closed ==>
              var p := Talk(conn.ack, old(conn.input));
              && conn.output == old(conn.output) + Said(conn.ack, MCommand(dest, src), old(conn.input))
              && conn.input == p.rest
              && (ok <==> |p.bytes| >= 2 && p.bytes[..2] == [0x4f, 0x4b] && (|p.bytes| > 2 ==> p.bytes[2] == 0))
  {
    var digits := EncodeBytes(src);
    var buf := [0x4d, 0x30, 0x78] + HexNum(dest) + [0x2c] + HexNum(|src|) + [0x3a] + digits;
    assert buf == MCommand(dest, src);
    hide Talk, Said, MCommand;
    var reply, size;
    closed, reply, size := Ask(conn, buf);
    ok := !closed && IsOk(reply[..size + 1]);
    assert !closed ==> reply[..size + 1] == reply[..size] + [0];
    if !closed {
      IsOkMeans(reply[..size]);
    }
  }

  /** gdb_memcpy_to_qemu: the commands of Chunks one after the other, and the conjunction of the answers. */
  method GdbMemcpyToQemu(conn: Conn, dest0: nat, src0: seq<Byte>) returns (closed: bool, ok: bool)
    modifies conn
    ensures conn.ack == old(conn.ack)
    ensures var n := |Chunks(dest0, src0)|;
      && closed == !Replied(conn.ack, n, old(conn.input))
      && (!closed ==>
            && conn.output == old(conn.output) + Session(conn.ack, Chunks(dest0, src0), old(conn.input))
            && conn.input == After(conn.ack, old(conn.input), n)
            && (ok <==> forall k: nat :: k < n ==>
                  var b := ReplyAt(conn.ack, old(conn.input), k);
                  |b| >= 2 && b[..2] == [0x4f, 0x4b] && (|b| > 2 ==> b[2] == 0)))
  {
    hide Talk, Said, MCommand, NextAddress, IsOk, ReplyAt;
    var dest, src := dest0, src0;
    ok := true;
    ghost var out0, in0, all := conn.output, conn.input, Chunks(dest0, src0);
    while |src| > MTU
      invariant conn.ack == old(conn.ack)
      invariant conn.output + Session(conn.ack, Chunks(dest, src), conn.input) == out0 + Session(conn.ack, all, in0)
      invariant Replied(conn.ack, |Chunks(dest, src)|, conn.input) == Replied(conn.ack, |all|, in0)
      invariant After(conn.ack, conn.input, |Chunks(dest, src)|) == After(conn.ack, in0, |all|)
      invariant (ok && AllOk(conn.ack, conn.input, |Chunks(dest, src)|)) <==> AllOk(conn.ack, in0, |all|)
      decreases |src|
    {
      if Talk(conn.ack, conn.input).Packet? {
        IsOkMeans(Talk(conn.ack, conn.input).bytes);
        SessionFirst(conn.ack, MCommand(dest, src[..MTU]), Chunks(NextAddress(dest, MTU), src[MTU..]), conn.input, []);
      }
      var fine;
      closed, fine := GdbMemcpyToQemuSmall(conn, dest, src[..MTU]);
      if closed {
        return;
      }
      ok := fine && ok;
      dest := NextAddress(dest, MTU);
      src := src[MTU..];
    }
    if Talk(conn.ack, conn.input).Packet? {
      IsOkMeans(Talk(conn.ack, conn.input).bytes);
      SessionFirst(conn.ack, MCommand(dest, src), [], conn.input, []);
    }
    var fine;
    closed, fine := GdbMemcpyToQemuSmall(conn, dest, src);
    ok := fine && ok;
    if !closed {
      AllOkMeans(conn.ack, in0, |all|);
    }
  }

  /** The loop of gdb_getregs, which ends the digits of each register with a 0 while it decodes them and puts the digit
      that was there back. */
  method DecodeRegs(reply: array<Byte>, size: nat, n: nat) returns (regs: seq<nat>)
    requires 8 * n <= size < reply.Length
    modifies reply
    ensures reply[..] == old(reply[..])
    ensures |regs| == n && forall i :: 0 <= i < n ==> regs[i] == Register(reply[..size], i)
  {
    regs := [];
    var p := 0;
    ghost var all := reply[..];
    for i := 0 to n
      invariant p == 8 * i && reply[..] == all && |regs| == i
      invariant forall j :: 0 <= j < i ==> regs[j] == Register(all[..size], j)
    {
      var c := reply[p + 8];
      reply[p + 8] := 0;
      assert reply[p..p + 9] == all[..size][p..p + 8] + [0];
      var value := GdbDecodeHexStr(reply[p..p + 9]);
      reply[p + 8] := c;
      Truncates(LittleEndian(Pairs(all[..size][p..p + 8] + [0])));
      regs := regs + [value % 0x1_0000_0000];
      p := p + 8;
      assert reply[..] == all;
    }
  }

  lemma {:induction false} Truncates(v: nat)
    ensures v % WIDE % 0x1_0000_0000 == v % 0x1_0000_0000
  {
    var k := v / WIDE;
    assert v == k * 0x1_0000_0000 * 0x1_0000_0000 + v % WIDE;
    ModPlusMultiple(v % WIDE, k * 0x1_0000_0000, 0x1_0000_0000);
  }

  /** gdb_getregs, when the reply holds the digits of n registers. */
  method GdbGetregs(conn: Conn, n: nat) returns (closed: bool, short: bool, regs: seq<nat>)
    modifies conn
    ensures conn.ack == old(conn.ack) && closed == Talk(conn.ack, old(conn.input)).Closed?
    ensures !closed ==>
              var p := Talk(conn.ack, old(conn.input));
              && conn.output == old(conn.output) + Said(conn.ack, [0x67], old(conn.input)) && conn.input == p.rest
              && (short <==> |p.bytes| < 8 * n)
              && (!short ==> |regs| == n && forall i :: 0 <= i < n ==> regs[i] == Register(p.bytes, i))
  {
    hide Talk, Said, Register;
    var reply, size;
    closed, reply, size := Ask(conn, [0x67]);
    short, regs := false, [];
    if !closed {
      if size < 8 * n {
        short := true;
      } else {
        ghost var bytes := reply[..size];
        regs := DecodeRegs(reply, size, n);
        assert bytes == reply[..][..size];
      }
    }
  }

  /** gdb_setregs. */
  method GdbSetregs(conn: Conn, regs: seq<nat>) returns (closed: bool, ok: bool)
    requires Words(regs)
    modifies conn
    ensures conn.ack == old(conn.ack) && closed == Talk(conn.ack, old(conn.input)).Closed?
    ensures !closed ==>
              var p := Talk(conn.ack, old(conn.input));
              && conn.output == old(conn.output) + Said(conn.ack, [0x47] + HexStr(AllBytes(regs)), old(conn.input))
              && conn.input == p.rest
              && (ok <==> |p.bytes| >= 2 && p.bytes[..2] == [0x4f, 0x4b] && (|p.bytes| > 2 ==> p.bytes[2] == 0))
  {
    hide Talk, Said;
    var digits := EncodeBytes(AllBytes(regs));
    var reply, size;
    closed, reply, size := Ask(conn, [0x47] + digits);
    ok := !closed && IsOk(reply[..size + 1]);
    assert !closed ==> reply[..size + 1] == reply[..size] + [0];
    if !closed {
      IsOkMeans(reply[..size]);
    }
  }
}

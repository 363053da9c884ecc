/** Exactly which commands send_packet transmits as they are (nemu/tools/qemu-diff/src/protocol.c).

    What the receiver does with bytes that hold no packet mark is a sequence of turns: a brace, a run, or a byte taken as
    it is.  A command that comes back whole is compared, turn by turn from its end, with what it makes the receiver put
    out. */
module GdbPlain {
  import opened Octets
  import opened GdbPackets

  datatype Turn = Brace | Run(n: Byte) | Take(b: Byte)

  function Bytes(t: Turn): seq<Byte> {
    match t case Brace => [BRACE] case Run(n) => [STAR, n] case Take(b) => [b]
  }

  /** What the turns read. */
  function Read(ts: seq<Turn>): seq<Byte> {
    if ts == [] then [] else Read(ts[..|ts| - 1]) + Bytes(ts[|ts| - 1])
  }

  /** Whether an escape is pending after them. */
  function Pending(ts: seq<Turn>): bool {
    if ts == [] then false
    else
      match ts[|ts| - 1]
      case Brace => true
      case Run(_) => Pending(ts[..|ts| - 1])
      case Take(_) => false
  }

  function Added(out: seq<Byte>, pending: bool, t: Turn): seq<Byte> {
    match t
    case Brace => []
    case Run(n) => if out == [] || n < 29 then [] else Copies(out[|out| - 1], n - 29)
    case Take(b) => [if pending then Flip(b) else b]
  }

  /** What they put out. */
  function Put(ts: seq<Turn>): seq<Byte> {
    if ts == [] then []
    else
      var before := ts[..|ts| - 1];
      Put(before) + Added(Put(before), Pending(before), ts[|ts| - 1])
  }

  /** The receiver takes turn t of the bytes c after the turns in before. */
  predicate Taken(c: seq<Byte>, before: seq<Turn>, t: Turn) {
    match t
    case Brace => true
    case Run(n) => Put(before) != [] && CountChar(n)
    case Take(b) =>
      var p := |Read(before)|;
      && b != DOLLAR && b != HASH && b != BRACE
      && (b == STAR ==> Put(before) == [] || p + 1 >= |c| || !CountChar(c[p + 1]))
  }

  /** The turns the receiver takes on a first part of c. */
  predicate Follows(c: seq<Byte>, ts: seq<Turn>) {
    && Read(ts) <= c
    && (ts == [] || (Follows(c, ts[..|ts| - 1]) && Taken(c, ts[..|ts| - 1], ts[|ts| - 1])))
  }

  function Marks(c: seq<Byte>): bool {
    DOLLAR in c || HASH in c
  }

  /** One more turn. */
  lemma {:induction false} Snoc(ts: seq<Turn>, t: Turn)
    ensures Read(ts + [t]) == Read(ts) + Bytes(t)
    ensures Put(ts + [t]) == Put(ts) + Added(Put(ts), Pending(ts), t)
    ensures Pending(ts + [t]) == (t.Brace? || (t.Run? && Pending(ts)))
  {
    assert (ts + [t])[..|ts|] == ts;
  }

  /** The turn the receiver takes at p, with or without output so far. */
  function Next(c: seq<Byte>, p: nat, some: bool): Turn
    requires p < |c|
  {
    if c[p] == BRACE then Brace
    else if c[p] == STAR && some && p + 1 < |c| && CountChar(c[p + 1]) then Run(c[p + 1])
    else Take(c[p])
  }

  function SumOf(sum: Byte, t: Turn): Byte {
    match t case Brace => Plus(sum, BRACE) case Run(n) => Plus(Plus(sum, STAR), n) case Take(b) => Plus(sum, b)
  }

  /** That is what its loop does. */
  lemma {:induction false} OneTurn(c: seq<Byte>, p: nat, out: seq<Byte>, sum: Byte, pending: bool, tail: seq<Byte>)
    requires p < |c| && c[p] != DOLLAR && c[p] != HASH && tail != [] && tail[0] == HASH
    ensures var t := Next(c, p, out != []);
      && c[p..p + |Bytes(t)|] == Bytes(t)
      && Body(c[p..] + tail, out, sum, pending)
         == Body(c[p + |Bytes(t)|..] + tail, out + Added(out, pending, t), SumOf(sum, t), t.Brace? || (t.Run? && pending))
  {
    var s := c[p..] + tail;
    var t := Next(c, p, out != []);
    var k := p + |Bytes(t)|;
    assert !CountChar(HASH);
    assert s[0] == c[p] && if p + 1 < |c| then s[1] == c[p + 1] else s[1] == HASH;
    assert s[|Bytes(t)|..] == c[k..] + tail;
    BodyTurn(s, out, sum, pending);
    hide Body, CountChar, Flip, Plus, Copies;
    assert out + [] == out;
  }

  lemma {:induction false} NextTaken(c: seq<Byte>, before: seq<Turn>)
    requires !Marks(c) && Read(before) <= c && |Read(before)| < |c|
    ensures var p, t := |Read(before)|, Next(c, |Read(before)|, Put(before) != []);
      && c[p] != DOLLAR && c[p] != HASH && Taken(c, before, t)
      && 0 < |Bytes(t)| <= |c| - p && Read(before) + Bytes(t) <= c
  {
    var p := |Read(before)|;
    var t := Next(c, p, Put(before) != []);
    assert c[p] in c;
    assert c[p] != DOLLAR && c[p] != HASH && Taken(c, before, t);
    hide Read, Put, CountChar, Marks, Taken;
    assert 0 < |Bytes(t)| <= |c| - p && c[p..p + |Bytes(t)|] == Bytes(t);
    hide Bytes, Next;
    assert c[..p] + c[p..p + |Bytes(t)|] == c[..p + |Bytes(t)|];
  }

  lemma {:induction false} FollowsOn(c: seq<Byte>, before: seq<Turn>)
    requires !Marks(c) && Follows(c, before) && |Read(before)| < |c|
    ensures var p, t := |Read(before)|, Next(c, |Read(before)|, Put(before) != []);
      && c[p] != DOLLAR && c[p] != HASH
      && Follows(c, before + [t]) && p < |Read(before + [t])| == p + |Bytes(t)| <= |c|
      && Put(before + [t]) == Put(before) + Added(Put(before), Pending(before), t)
      && Pending(before + [t]) == (t.Brace? || (t.Run? && Pending(before)))
  {
    NextTaken(c, before);
    var t := Next(c, |Read(before)|, Put(before) != []);
    Snoc(before, t);
    assert (before + [t])[..|before|] == before;
    hide Put, Pending, Added, Taken, Read, Next, Bytes;
  }

  lemma {:induction false} Ended(c: seq<Byte>, before: seq<Turn>, tail: seq<Byte>)
    requires Follows(c, before)
    ensures |Read(before)| <= |c|
    ensures |Read(before)| == |c| ==> Read(before) == c && c[|Read(before)|..] + tail == tail
  {
  }

  /** The turns of the receiver on c, from those it has already taken on. */
  lemma {:induction false} Parse(c: seq<Byte>, before: seq<Turn>, sum: Byte, tail: seq<Byte>) returns (ts: seq<Turn>, last: Byte)
    requires !Marks(c) && Follows(c, before) && |Read(before)| <= |c| && tail != [] && tail[0] == HASH
    ensures Follows(c, ts) && Read(ts) == c
    ensures Body(c[|Read(before)|..] + tail, Put(before), sum, Pending(before)) == Body(tail, Put(ts), last, Pending(ts))
    decreases |c| - |Read(before)|
  {
    hide *;
    Ended(c, before, tail);
    if |Read(before)| == |c| {
      return before, sum;
    }
    FollowsOn(c, before);
    OneTurn(c, |Read(before)|, Put(before), sum, Pending(before), tail);
    var t := Next(c, |Read(before)|, Put(before) != []);
    ts, last := Parse(c, before + [t], SumOf(sum, t), tail);
  }

  // ----- a command that comes back is never behind what it has put out ------------------------------------------

  function Stars(n: nat): seq<Byte> {
    Copies(STAR, n)
  }

  predicate NoStarLast(z: seq<Byte>) {
    z == [] || z[|z| - 1] != STAR
  }

  lemma {:induction false} NothingPut(c: seq<Byte>, ts: seq<Turn>)
    requires Follows(c, ts) && Put(ts) == [] && !Pending(ts)
    ensures ts == []
  {
  }

  /** The last turn of ts, and what it read and put out. */
  lemma {:induction false} LastTurn(c: seq<Byte>, ts: seq<Turn>)
    requires Follows(c, ts) && ts != []
    ensures var v, x := ts[..|ts| - 1], ts[|ts| - 1];
      && Follows(c, v) && Taken(c, v, x)
      && Read(ts) == Read(v) + Bytes(x) && Read(ts) <= c
      && Put(ts) == Put(v) + Added(Put(v), Pending(v), x)
      && Pending(ts) == (x.Brace? || (x.Run? && Pending(v)))
  {
  }

  lemma {:induction false} StarsBefore(out: seq<Byte>, z: seq<Byte>, r: seq<Byte>, t: nat)
    requires out + Copies(STAR, 13) + Stars(t) == z + (r + [STAR, STAR])
    ensures out + Stars(11 + t) == z + r
  {
    var w := out + Stars(13 + t);
    assert w == z + (r + [STAR, STAR]);
    assert out + Stars(11 + t) == w[..|w| - 2];
    assert z + r == w[..|w| - 2];
  }

  lemma {:induction false} AllStars(z: seq<Byte>, t: nat)
    requires [STAR] + Stars(t) == z + [STAR] && t > 0
    ensures !NoStarLast(z)
  {
    var all := [STAR] + Stars(t);
    assert z == all[..t];
    assert all[t - 1] == STAR;
  }

  lemma {:induction false} LastOfSum(a: seq<Byte>, t: nat, z: seq<Byte>, r: seq<Byte>, x: seq<Byte>)
    requires a + Stars(t) == z + (r + x) && t > 0 && x != []
    ensures x[|x| - 1] == STAR
  {
    var all := a + Stars(t);
    assert all[|all| - 1] == STAR;
    assert (z + (r + x))[|all| - 1] == x[|x| - 1];
  }

  /** Before a run that is spelt with two stars, the output cannot be behind by stars. */
  lemma {:induction false} NotBehind(c: seq<Byte>, u: seq<Turn>, z: seq<Byte>, t: nat)
    requires Follows(c, u) && Read(u) + [STAR, STAR] <= c && NoStarLast(z) && t > 0
    requires Put(u) != [] && Put(u)[|Put(u)| - 1] == STAR
    requires Put(u) + Stars(t) == z + Read(u)
    ensures false
    decreases |u|
  {
    assert u != [];
    LastTurn(c, u);
    var v, x := u[..|u| - 1], u[|u| - 1];
    LastOfSum(Put(u), t, z, Read(v), Bytes(x));
    if x.Run? {
      assert Read(v) + [STAR, STAR] <= c by { assert Read(u) == Read(v) + [STAR, STAR]; }
      assert x.n == STAR && Put(v) != [];
      assert Put(u) == Put(v) + Copies(Put(v)[|Put(v)| - 1], 13);
      assert Put(u)[|Put(u)| - 1] == Put(v)[|Put(v)| - 1];
      StarsBefore(Put(v), z, Read(v), t);
      hide *;
      NotBehind(c, v, z, 11 + t);
    } else {
      StarFirst(c, v);
      assert !Pending(v);
      NothingPut(c, v);
      assert Put(u) == [STAR] && Read(u) == [STAR];
      hide *;
      AllStars(z, t);
    }
  }

  /** A star in front of stars is taken as it is only as the first byte. */
  lemma {:induction false} StarFirst(c: seq<Byte>, v: seq<Turn>)
    requires Taken(c, v, Take(STAR)) && Read(v) + [STAR] + [STAR, STAR] <= c
    ensures Put(v) == []
  {
    assert c[|Read(v)| + 1] == (Read(v) + [STAR] + [STAR, STAR])[|Read(v)| + 1] == STAR;
  }

  lemma {:induction false} ByteBack(out: seq<Byte>, o: Byte, zr: seq<Byte>, b: Byte, w: seq<Byte>) returns (w': seq<Byte>)
    requires out + [o] == zr + [b] + w
    ensures w == [] ==> o == b
    ensures out == zr + w'
  {
    var all := zr + [b] + w;
    assert (out + [o])[|out|] == o == all[|all| - 1];
    assert out == all[..|all| - 1];
    if w == [] {
      assert all[..|all| - 1] == zr;
      w' := [];
    } else {
      w' := [b] + w[..|w| - 1];
      assert all[..|all| - 1] == zr + w';
    }
  }

  /** The bytes of a run put out, against the two that spell it. */
  lemma {:induction false} RunBack(out: seq<Byte>, k: nat, zr: seq<Byte>, n: Byte, w: seq<Byte>) returns (w': seq<Byte>)
    requires out != [] && k == n - 29
    requires out + Copies(out[|out| - 1], k) == zr + [STAR, n] + w
    ensures out == zr + w' ||
      (|w| < 11 && n == STAR && out[|out| - 1] == STAR && out + Stars(11 - |w|) == zr)
  {
    var b := out[|out| - 1];
    var all := out + Copies(b, k);
    var m := |zr|;
    if |w| >= k {
      w' := [STAR, n] + w[..|w| - k];
      assert out == all[..|all| - k];
      assert (zr + [STAR, n] + w)[..|all| - k] == zr + w';
    } else {
      assert all[m + 1] == n && all[m] == STAR;
      assert all[m + 1] == b;
      assert all[m] == b by {
        if m < |out| {
          assert m == |out| - 1;
        }
      }
      w' := Stars(if |w| < 11 then 0 else |w| - 11);
      forall i | 0 <= i < |w| ensures w[i] == STAR {
        assert all[m + 2 + i] == w[i];
      }
      if |w| < 11 {
        assert out + Stars(11 - |w|) == all[..m];
      } else {
        assert out == all[..|out|];
        assert zr + w' == all[..|out|];
      }
    }
  }

  /** The comparison one turn earlier, or an output that stars before a run of stars leave behind. */
  lemma {:induction false} TurnBack(out: seq<Byte>, pending: bool, x: Turn, zr: seq<Byte>, w: seq<Byte>) returns (w': seq<Byte>)
    requires x.Run? ==> out != [] && x.n >= 29
    requires out + Added(out, pending, x) == zr + Bytes(x) + w
    ensures out == zr + w' ||
      (|w| < 11 && x == Run(STAR) && out != [] && out[|out| - 1] == STAR && out + Stars(11 - |w|) == zr)
  {
    hide Flip, Copies, Stars;
    if x.Run? {
      w' := RunBack(out, x.n - 29, zr, x.n, w);
    } else if x.Take? {
      w' := ByteBack(out, if pending then Flip(x.b) else x.b, zr, x.b, w);
    } else {
      w' := [BRACE] + w;
      assert out + [] == out && zr + [BRACE] + w == zr + w';
    }
  }

  lemma {:induction false} OneBack(c: seq<Byte>, v: seq<Turn>, x: Turn, z: seq<Byte>, w: seq<Byte>) returns (w': seq<Byte>)
    requires Follows(c, v) && Taken(c, v, x) && Read(v) + Bytes(x) <= c && NoStarLast(z)
    requires Put(v) + Added(Put(v), Pending(v), x) == z + (Read(v) + Bytes(x)) + w
    ensures Put(v) == z + Read(v) + w'
  {
    assert x.Run? ==> Put(v) != [] && x.n >= 29;
    assert z + (Read(v) + Bytes(x)) + w == z + Read(v) + Bytes(x) + w;
    assert x == Run(STAR) ==> Bytes(x) == [STAR, STAR];
    hide *;
    w' := TurnBack(Put(v), Pending(v), x, z + Read(v), w);
    if Put(v) != z + Read(v) + w' {
      NotBehind(c, v, z, 11 - |w|);
    }
  }

  /** If the turns put out z, then what they read, and then w, the same holds, for another w, after each of them. */
  lemma {:induction false} NeverBehind(c: seq<Byte>, ts: seq<Turn>, z: seq<Byte>, w: seq<Byte>, i: nat)
    requires Follows(c, ts) && NoStarLast(z) && Put(ts) == z + Read(ts) + w && i <= |ts|
    ensures z + Read(ts[..i]) <= Put(ts[..i])
    decreases |ts|
  {
    if i == |ts| {
      assert ts[..i] == ts;
    } else {
      LastTurn(c, ts);
      var v, x := ts[..|ts| - 1], ts[|ts| - 1];
      assert v[..i] == ts[..i];
      hide *;
      var w' := OneBack(c, v, x, z, w);
      NeverBehind(c, v, z, w', i);
    }
  }

  // ----- from the turns to the command --------------------------------------------------------------------------

  /** A run of stars where more stars follow is followed by another. */
  lemma {:induction false} AnotherRun(c: seq<Byte>, before: seq<Turn>, t: Turn)
    requires Taken(c, before, t) && Read(before) + Bytes(t) <= c && Put(before) != []
    requires var p := |Read(before)|; p + 1 < |c| && c[p] == STAR && c[p + 1] == STAR
    ensures t == Run(STAR)
  {
    var p, r := |Read(before)|, Read(before) + Bytes(t);
    assert CountChar(STAR);
    assert r[p] == c[p];
    assert t.Run? ==> r[p + 1] == c[p + 1];
  }

  lemma {:induction false} MoreStars(i: nat)
    requires i >= 2
    ensures Stars(2 * i - 1) + [STAR, STAR] == Stars(2 * i + 1)
    ensures Stars(13 * i - 12) + Copies(Stars(13 * i - 12)[13 * i - 13], 13) == Stars(13 * i + 1)
  {
  }

  /** Turn i, and what it read and put out. */
  lemma {:induction false} TurnAt(c: seq<Byte>, ts: seq<Turn>, i: nat)
    requires Follows(c, ts) && i < |ts|
    ensures var u, t, v := ts[..i], ts[i], ts[..i + 1];
      && Taken(c, u, t) && Read(v) == Read(u) + Bytes(t) && Read(v) <= c
      && Put(v) == Put(u) + Added(Put(u), Pending(u), t)
      && Pending(v) == (t.Brace? || (t.Run? && Pending(u)))
  {
    PrefixFollows(c, ts, i + 1);
    LastTurn(c, ts[..i + 1]);
    assert ts[..i + 1][..i] == ts[..i] && ts[..i + 1][i] == ts[i];
  }

  /** Runs of two stars behind a first star put out more stars than the command has. */
  lemma {:induction false} StarsOutrun(c: seq<Byte>, ts: seq<Turn>, i: nat)
    requires Follows(c, ts) && Read(ts) == c == Put(ts) && 2 <= i <= |ts|
    requires Read(ts[..i]) == Stars(2 * i - 1) && Put(ts[..i]) == Stars(13 * i - 12)
    ensures false
    decreases |ts| - i
  {
    hide *;
    if i == |ts| {
      Lengths(ts, i);
    } else {
      PrefixPut(ts, i);
      TurnAt(c, ts, i);
      StarsGoOn(c, ts[..i], ts[i], i);
      StarsOutrun(c, ts, i + 1);
    }
  }

  lemma {:induction false} Lengths(ts: seq<Turn>, i: nat)
    requires i == |ts| && i >= 2 && Read(ts) == Put(ts)
    requires Read(ts[..i]) == Stars(2 * i - 1)
    ensures Put(ts[..i]) != Stars(13 * i - 12)
  {
    assert ts[..i] == ts;
    assert |Stars(2 * i - 1)| == 2 * i - 1 && |Stars(13 * i - 12)| == 13 * i - 12;
  }

  lemma {:induction false} StarsGoOn(c: seq<Byte>, u: seq<Turn>, t: Turn, i: nat)
    requires i >= 2 && Read(u) == Stars(2 * i - 1) && Put(u) == Stars(13 * i - 12) && Put(u) <= c
    requires Taken(c, u, t) && Read(u) + Bytes(t) <= c
    ensures Read(u) + Bytes(t) == Stars(2 * (i + 1) - 1)
    ensures Put(u) + Added(Put(u), Pending(u), t) == Stars(13 * (i + 1) - 12)
  {
    hide Taken, Read, Put, Pending;
    var p := 2 * i - 1;
    assert c[p] == Put(u)[p] == STAR && c[p + 1] == Put(u)[p + 1] == STAR;
    AnotherRun(c, u, t);
    MoreStars(i);
  }

  lemma {:induction false} PrefixFollows(c: seq<Byte>, ts: seq<Turn>, i: nat)
    requires Follows(c, ts) && i <= |ts|
    ensures Follows(c, ts[..i])
    decreases |ts|
  {
    if i == |ts| {
      assert ts[..i] == ts;
    } else {
      assert ts[..|ts| - 1][..i] == ts[..i];
      PrefixFollows(c, ts[..|ts| - 1], i);
    }
  }

  lemma {:induction false} PrefixPut(ts: seq<Turn>, i: nat)
    requires i <= |ts|
    ensures Put(ts[..i]) <= Put(ts)
    decreases |ts|
  {
    if i == |ts| {
      assert ts[..i] == ts;
    } else {
      assert ts[..|ts| - 1][..i] == ts[..i];
      PrefixPut(ts[..|ts| - 1], i);
    }
  }

  /** The i-th turn has taken the i-th byte as it is. */
  predicate TakenAt(c: seq<Byte>, ts: seq<Turn>, i: nat)
    requires i < |ts|
  {
    i < |c| && ts[i] == Take(c[i]) && Taken(c, ts[..i], ts[i]) && Put(ts[..i]) == c[..i] == Read(ts[..i])
  }

  /** Turns that put out exactly what they read take every byte as it is. */
  lemma {:induction false} AllTaken(c: seq<Byte>, ts: seq<Turn>, i: nat)
    requires Follows(c, ts) && Read(ts) == c == Put(ts) && i <= |ts|
    ensures i <= |c| && Put(ts[..i]) == Read(ts[..i]) == c[..i] && !Pending(ts[..i])
    ensures forall k :: 0 <= k < i ==> TakenAt(c, ts, k)
  {
    hide Follows, Taken, Read, Put, Pending;
    if i == 0 {
      NothingYet(c, ts);
    } else {
      AllTaken(c, ts, i - 1);
      OneTaken(c, ts, i - 1);
    }
  }

  lemma {:induction false} NothingYet(c: seq<Byte>, ts: seq<Turn>)
    ensures Put(ts[..0]) == Read(ts[..0]) == c[..0] && !Pending(ts[..0])
  {
    assert ts[..0] == [];
  }

  lemma {:induction false} OneTaken(c: seq<Byte>, ts: seq<Turn>, i: nat)
    requires Follows(c, ts) && Read(ts) == c == Put(ts) && i < |ts|
    requires i <= |c| && Put(ts[..i]) == Read(ts[..i]) == c[..i] && !Pending(ts[..i])
    requires i > 0 ==> TakenAt(c, ts, i - 1)
    ensures TakenAt(c, ts, i)
    ensures Put(ts[..i + 1]) == Read(ts[..i + 1]) == c[..i + 1] && !Pending(ts[..i + 1])
  {
    hide *;
    TurnAt(c, ts, i);
    TurnKeepsUp(c, ts, i);
    NoRun(c, ts, i);
    ByteTaken(c, i, ts[i], Read(ts[..i + 1]), Put(ts[..i + 1]));
    TakenIs(c, ts, i);
  }

  lemma {:induction false} TurnKeepsUp(c: seq<Byte>, ts: seq<Turn>, i: nat)
    requires Follows(c, ts) && Read(ts) == Put(ts) && i < |ts|
    ensures Read(ts[..i + 1]) <= Put(ts[..i + 1])
  {
    assert [] + Read(ts) + [] == Put(ts);
    assert [] + Read(ts[..i + 1]) == Read(ts[..i + 1]);
    hide *;
    NeverBehind(c, ts, [], [], i + 1);
  }

  lemma {:induction false} TakenIs(c: seq<Byte>, ts: seq<Turn>, i: nat)
    requires i < |ts| && i < |c| && ts[i] == Take(c[i]) && Taken(c, ts[..i], ts[i]) && Put(ts[..i]) == c[..i] == Read(ts[..i])
    ensures TakenAt(c, ts, i)
  {
  }

  lemma {:induction false} ByteTaken(c: seq<Byte>, i: nat, t: Turn, r: seq<Byte>, o: seq<Byte>)
    requires i <= |c| && !t.Run? && r == c[..i] + Bytes(t) && r <= c && o == c[..i] + Added(c[..i], false, t) && r <= o
    ensures i < |c| && t == Take(c[i]) && r == o == c[..i + 1]
  {
    assert |r| == i + |Bytes(t)|;
    assert r[i] == c[i];
    assert c[..i] + [c[i]] == c[..i + 1];
  }

  /** No turn of such a sequence is a run. */
  lemma {:induction false} NoRun(c: seq<Byte>, ts: seq<Turn>, i: nat)
    requires Follows(c, ts) && Read(ts) == c == Put(ts) && i < |ts|
    requires i <= |c| && Put(ts[..i]) == Read(ts[..i]) == c[..i] && !Pending(ts[..i])
    requires i > 0 ==> TakenAt(c, ts, i - 1)
    requires Taken(c, ts[..i], ts[i]) && Read(ts[..i + 1]) == c[..i] + Bytes(ts[i]) <= c
    requires Put(ts[..i + 1]) == c[..i] + Added(c[..i], false, ts[i])
    requires Read(ts[..i + 1]) <= Put(ts[..i + 1])
    ensures !ts[i].Run?
  {
    hide Follows, Read, Put, Pending;
    if ts[i].Run? {
      RunOfStars(c, i, ts[i].n, Read(ts[..i + 1]), Put(ts[..i + 1]));
      assert Taken(c, ts[..i - 1], Take(STAR));
      assert i == 1;
      StarsOutrun(c, ts, 2);
    }
  }

  /** A run that keeps up with its own spelling is one of stars, spelt with two stars. */
  lemma {:induction false} RunOfStars(c: seq<Byte>, i: nat, n: Byte, r: seq<Byte>, o: seq<Byte>)
    requires 0 < i <= |c| && n >= 29 && r == c[..i] + [STAR, n] && r <= c
    requires o == c[..i] + Copies(c[i - 1], n - 29) && r <= o
    ensures n == STAR && c[i - 1] == STAR && i + 1 < |c| && c[i] == STAR && CountChar(STAR)
    ensures i == 1 ==> r == Stars(3) && o == Stars(14)
  {
    assert r[i] == o[i] == STAR && r[i + 1] == o[i + 1] == n;
    assert r[i] == c[i];
  }

  /** A # ends the packet wherever it stands. */
  lemma {:induction false} EndsAtHash(a: seq<Byte>, b: seq<Byte>, out: seq<Byte>, sum: Byte, escape: bool)
    requires HASH !in a
    ensures var r := Body(a + [HASH] + b, out, sum, escape); r.Packet? && |r.rest| == if |b| < 2 then 0 else |b| - 2
    decreases |a|
  {
    var s := a + [HASH] + b;
    if a == [] {
      assert s == [HASH] + b && |s| == 1 + |b|;
    } else {
      assert s[0] == a[0] && s[1..] == a[1..] + [HASH] + b;
      assert |a| > 1 ==> s[1] == a[1] && s[2..] == a[2..] + [HASH] + b;
      assert |a| == 1 ==> s[1] == HASH && !CountChar(s[1]);
      BodyTurn(s, out, sum, escape);
      hide Body, CountChar, Plus, Flip, Copies;
      if a[0] == DOLLAR {
        EndsAtHash(a[1..], b, [], 0, false);
      } else if a[0] == BRACE {
        EndsAtHash(a[1..], b, out, Plus(sum, a[0]), true);
      } else if a[0] == STAR && out != [] && |a| > 1 && CountChar(a[1]) {
        EndsAtHash(a[2..], b, out + Copies(out[|out| - 1], a[1] - 29), Plus(Plus(sum, a[0]), a[1]), escape);
      } else {
        EndsAtHash(a[1..], b, out + [if escape then Flip(a[0]) else a[0]], Plus(sum, a[0]), false);
      }
    }
  }

  lemma {:induction false} SplitFirst(c: seq<Byte>, b: Byte) returns (x: seq<Byte>, y: seq<Byte>)
    requires b in c
    ensures c == x + [b] + y && b !in x
  {
    if c[0] == b {
      x, y := [], c[1..];
    } else {
      x, y := SplitFirst(c[1..], b);
      x := [c[0]] + x;
      assert c == [c[0]] + c[1..];
    }
  }

  lemma {:induction false} SplitLast(c: seq<Byte>, b: Byte) returns (x: seq<Byte>, y: seq<Byte>)
    requires b in c
    ensures c == x + [b] + y && b !in y
  {
    var n := |c| - 1;
    if c[n] == b {
      x, y := c[..n], [];
    } else {
      x, y := SplitLast(c[..n], b);
      y := y + [c[n]];
      assert c == c[..n] + [c[n]];
    }
  }

  /** What is received of bytes without packet marks: what the receiver's turns put out. */
  lemma {:induction false} BodyPuts(y: seq<Byte>, tail: seq<Byte>) returns (ts: seq<Turn>)
    requires !Marks(y) && tail != [] && tail[0] == HASH
    ensures Follows(y, ts) && Read(ts) == y
    ensures var r := Body(y + tail, [], 0, false); r.Packet? && r.bytes == Put(ts)
  {
    var last;
    assert y[0..] == y && Read([]) == [] && Put([]) == [] && !Pending([]);
    ts, last := Parse(y, [], 0, tail);
  }

  /** A # in a command leaves more of the input than the rest. */
  lemma {:induction false} HashLeavesMore(c: seq<Byte>, tail: seq<Byte>)
    requires HASH in c && |tail| >= 3
    ensures var r := Body(c + tail, [], 0, false); r.Packet? && |r.rest| > |tail| - 3
  {
    var x, y := SplitFirst(c, HASH);
    assert c + tail == x + [HASH] + (y + tail);
    EndsAtHash(x, y + tail, [], 0, false);
  }

  /** Of a command with a $ the part before the last one is lost, and nothing behind it can make up for that. */
  lemma {:induction false} DollarLoses(c: seq<Byte>, tail: seq<Byte>)
    requires HASH !in c && DOLLAR in c && tail != [] && tail[0] == HASH
    ensures var r := Body(c + tail, [], 0, false); r.Packet? && r.bytes != c
  {
    var x, y := SplitLast(c, DOLLAR);
    assert HASH !in x && HASH !in y by {
      assert forall b :: b in x || b in y ==> b in c;
    }
    assert c + tail == x + [DOLLAR] + (y + tail);
    BodyRestarts(x, y + tail, [], 0, false);
    var ts := BodyPuts(y, tail);
    var z := x + [DOLLAR];
    assert c == z + y + [];
    assert ts[..0] == [] && |Put(ts[..0])| == 0 < |z|;
    if Put(ts) == c {
      NeverBehind(y, ts, z, [], 0);
    }
  }

  lemma {:induction false} WholeIsPlain(c: seq<Byte>, ts: seq<Turn>)
    requires !Marks(c) && Follows(c, ts) && Read(ts) == c == Put(ts)
    ensures Plain(c)
  {
    AllTaken(c, ts, |ts|);
    assert ts[..|ts|] == ts && c[..|ts|] == c;
    hide Follows, Read, Put, Pending, CountChar;
    forall k | 0 <= k < |c| && Special(c[k])
      ensures c[k] == STAR && (k == 0 || k + 1 == |c| || !CountChar(c[k + 1]))
    {
      assert TakenAt(c, ts, k);
    }
  }

  /** The receiver gets the command that send_packet was given, with a good sum and nothing more read, exactly when the
      command is plain. */
  lemma {:induction false} ReceivedWhole(pre: seq<Byte>, command: seq<Byte>, rest: seq<Byte>)
    requires NoEnd(pre)
    ensures Recv(pre + Frame(command) + rest) == Packet(command, true, rest) <==> Plain(command)
  {
    if Plain(command) {
      RecvInvertsFrame(pre, command, rest);
    } else {
      hide Body, Recv, Plain;
      var tail := [HASH] + UpperHex(Sum(command)) + rest;
      assert pre + Frame(command) + rest == pre + [DOLLAR] + (command + tail);
      RecvStarts(pre, command + tail);
      if HASH in command {
        HashLeavesMore(command, tail);
      } else if DOLLAR in command {
        DollarLoses(command, tail);
      } else {
        var ts := BodyPuts(command, tail);
        if Put(ts) == command {
          WholeIsPlain(command, ts);
        }
      }
    }
  }

  // ----- one command for each of the special bytes ---------------------------------------------------------------

  function Ending(c: seq<Byte>): seq<Byte> {
    [HASH] + UpperHex(Sum(c))
  }

  lemma {:induction false} Arrives(c: seq<Byte>)
    ensures Recv(Frame(c)) == Body(c + Ending(c), [], 0, false)
  {
    assert Frame(c)[0] == DOLLAR && Frame(c)[1..] == c + Ending(c);
  }

  /** "a$b" arrives as "b". */
  lemma {:induction false} DollarFails()
    ensures var r := Recv(Frame([0x61, DOLLAR, 0x62])); r.Packet? && r.bytes == [0x62]
  {
    var e := Ending([0x61, DOLLAR, 0x62]);
    Arrives([0x61, DOLLAR, 0x62]);
    assert [0x61, DOLLAR, 0x62] + e == [0x61] + [DOLLAR] + ([0x62] + e);
    BodyRestarts([0x61], [0x62] + e, [], 0, false);
    BodyTurn([0x62] + e, [], 0, false);
    assert ([0x62] + e)[1..] == e && [] + [0x62] == [0x62];
  }

  /** "a}b" arrives as "aB". */
  lemma {:induction false} BraceFails()
    ensures var r := Recv(Frame([0x61, BRACE, 0x62])); r.Packet? && r.bytes == [0x61, 0x42]
  {
    var e := Ending([0x61, BRACE, 0x62]);
    Arrives([0x61, BRACE, 0x62]);
    var s := [0x61, BRACE, 0x62] + e;
    BodyTurn(s, [], 0, false);
    BodyTurn(s[1..], [0x61], 0x61, false);
    BodyTurn(s[2..], [0x61], Plus(0x61, BRACE), true);
    assert s[1..][1..] == s[2..] && s[2..][1..] == e && [] + [0x61] == [0x61] && [0x61] + [0x42] == [0x61, 0x42];
  }

  /** "a#b" arrives as "a". */
  lemma {:induction false} HashFails()
    ensures var r := Recv(Frame([0x61, HASH, 0x62])); r.Packet? && r.bytes == [0x61]
  {
    Arrives([0x61, HASH, 0x62]);
    var s := [0x61, HASH, 0x62] + Ending([0x61, HASH, 0x62]);
    BodyTurn(s, [], 0, false);
    assert s[1..][0] == HASH && [] + [0x61] == [0x61];
  }

  /** "a* " arrives as "aaaa". */
  lemma {:induction false} StarFails()
    ensures var r := Recv(Frame([0x61, STAR, 0x20])); r.Packet? && r.bytes == [0x61, 0x61, 0x61, 0x61]
  {
    var e := Ending([0x61, STAR, 0x20]);
    Arrives([0x61, STAR, 0x20]);
    var s := [0x61, STAR, 0x20] + e;
    BodyTurn(s, [], 0, false);
    assert CountChar(0x20) && s[1..][0] == STAR && s[1..][1] == 0x20;
    BodyTurn(s[1..], [0x61], 0x61, false);
    assert s[1..][2..] == e && [] + [0x61] == [0x61] && [0x61] + Copies(0x61, 3) == [0x61, 0x61, 0x61, 0x61];
  }
}

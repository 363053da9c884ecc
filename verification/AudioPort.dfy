/** The variables of the two audio files and the code of audio_play and audio_write over them.  Each call is shown to be
    one of the interleavings of Audio, ending in the state t. */
module AudioPort {
  import opened Octets
  import opened Ring
  import opened Audio

  /** The first steps of a callback that nothing interrupts. */
  lemma {:induction false} Begins(r: State, len: nat) returns (events: seq<Event>)
    requires InBuffer(r) && r.device.Idle? && r.count >= 0
    ensures Run(r, events) == r.(device := Copy(Least(len, r.count), len, []))
  {
    events := [Callback(len), DeviceStep];
    RunSnoc(r, [], events[0]);
    RunSnoc(r, [events[0]], events[1]);
    if r.count < len {
      RunSnoc(r, events, DeviceStep);
      events := events + [DeviceStep];
    }
  }

  /** The two steps that move one byte. */
  lemma {:induction false} CopiesOne(t: State)
    requires InBuffer(t) && t.device.Copy? && |t.device.stream| < t.device.nread
    ensures var b := t.sbuf[t.qhead];
            Turn(Turn(t, DeviceStep), DeviceStep)
            == t.(qhead := Next(t.qhead), played := t.played + [b],
                                            device := Copy(t.device.nread, t.device.len, t.device.stream + [b]))
  {
  }

  /** The two steps after the last byte. */
  lemma {:induction false} Finishes(t: State)
    requires InBuffer(t) && t.device.Copy? && |t.device.stream| == t.device.nread
    ensures var d := t.device;
            Turn(Turn(t, DeviceStep), DeviceStep)
            == t.(count := t.count - d.nread, taken := t.taken + d.nread, device := Idle,
                  plays := t.plays + [Play(d.len, d.nread, d.stream + Silence(d.len - d.nread))])
  {
  }

  lemma {:induction false} Accepts(r: State, buf: seq<Byte>)
    requires InBuffer(r) && r.driver.Resting?
    ensures Turn(r, AudioWrite(buf)) == r.(driver := Outer(buf), given := r.given + buf)
  {
  }

  lemma {:induction false} OuterTurn(t: State)
    requires InBuffer(t) && (t.driver.Outer? || (t.driver.Inner? && t.driver.n == 0))
    ensures var rest := t.driver.rest;
            Turn(t, DriverStep) == t.(driver := if t.driver.Inner? then Outer(rest) else if rest == [] then Resting
                                                else Inner(Least(|rest|, SIZE - t.count), rest))
  {
  }

  lemma {:induction false} RunNone(r: State)
    requires Inv(r)
    ensures InBuffer(r) && Run(r, []) == r
  {
  }

  /** The three steps that write one byte. */
  lemma {:induction false} StoresOne(t: State)
    requires InBuffer(t) && t.driver.Inner? && 0 < t.driver.n <= |t.driver.rest|
    ensures var b := t.driver.rest[0];
            Turn(Turn(Turn(t, DriverStep), DriverStep), DriverStep)
            == t.(sbuf := t.sbuf[t.qtail := b], qtail := Next(t.qtail), count := t.count + 1,
                  driver := Inner(t.driver.n - 1, t.driver.rest[1..]), written := t.written + [b], counted := t.counted + 1)
  {
  }

  class Port {
    const sbuf: array<Byte>
    var count: int
    var qhead: nat
    var qtail: nat

    constructor (space: array<Byte>)
      requires space.Length == SIZE
      ensures sbuf == space && Shows(Initial(sbuf[..]))
    {
      sbuf := space;
      count, qhead, qtail := 0, 0, 0;
    }

    predicate Shows(r: State)
      reads this, sbuf
    {
      sbuf.Length == SIZE && r.sbuf == sbuf[..] && r.count == count && r.qhead == qhead && r.qtail == qtail
    }

    /** audio_play when nothing comes between its steps: the oldest bytes in order, then silence. */
    method AudioPlay(stream: array<Byte>, ghost r: State) returns (ghost t: State, ghost events: seq<Event>)
      requires Inv(r) && Shows(r) && r.device.Idle? && stream != sbuf
      modifies this`count, this`qhead, stream
      ensures InBuffer(r) && t == Run(r, events) && Inv(t) && Shows(t) && t.device.Idle?
      ensures t == r.(count := t.count, qhead := t.qhead, played := t.played, taken := t.taken, plays := t.plays)
      ensures var nread := Least(stream.Length, old(count));
              && count == old(count) - nread && qhead == Slot(old(qhead) + nread)
              && t.plays == r.plays + [Play(stream.Length, nread, stream[..])]
              && stream[..] == Window(sbuf[..], old(qhead), nread) + Silence(stream.Length - nread)
    {
      hide Inv, Turn, Run, Window, Silence;
      var len := stream.Length;
      assert r.count >= 0 && InBuffer(r) by { InvParts(r); }
      var nread := if count < len then count else len;
      events := Begins(r, len);
      t := Run(r, events);
      RunKeeps(r, events);
      assert Window(r.sbuf, r.qhead, 0) == [] && Slot(r.qhead) == r.qhead;
      var i := 0;
      while i < nread
        invariant 0 <= i <= nread && t == Run(r, events) && Inv(t)
        invariant count == r.count && sbuf[..] == r.sbuf && stream[..i] == Window(r.sbuf, r.qhead, i) && qhead == Slot(r.qhead + i)
        invariant t == r.(qhead := qhead, played := t.played, device := Copy(nread, len, stream[..i]))
      {
        WindowStep(r.sbuf, r.qhead, i);
        ghost var got := stream[..i];
        CopiesOne(t);
        stream[i] := sbuf[qhead];
        qhead := Next(qhead);
        i := i + 1;
        assert stream[..i] == got + [stream[i - 1]];
        t, events := Two(r, t, events, DeviceStep);
      }
      count := count - nread;
      ghost var heard := stream[..nread];
      assert heard == Window(r.sbuf, r.qhead, nread);
      if len > nread {
        forall k | nread <= k < len {
          stream[k] := 0;
        }
      }
      Finishes(t);
      assert stream[..] == heard + Silence(len - nread) by {
        assert stream[..nread] == heard;
        SilenceIs(stream[nread..], len - nread);
      }
      assert sbuf[..] == r.sbuf;
      t, events := Two(r, t, events, DeviceStep);
    }

    /** audio_sbuf_handler, called by map_write once the byte is in the buffer. */
    method StoreByte(offset: nat, b: Byte)
      requires sbuf.Length == SIZE && offset < SIZE
      modifies this`count, sbuf
      ensures sbuf[..] == old(sbuf[..])[offset := b] && count == old(count) + 1
    {
      sbuf[offset] := b;
      count := count + 1;
    }

    /** The inner loop of audio_write. */
    method WriteBytes(buf: seq<Byte>, n: nat, ghost r: State) returns (ghost t: State, ghost events: seq<Event>)
      requires Inv(r) && Shows(r) && r.driver == Inner(n, buf)
      modifies this`count, this`qtail, sbuf
      ensures InBuffer(r) && t == Run(r, events) && Inv(t) && Shows(t)
      ensures n <= |buf| && t.driver == Inner(0, buf[n..]) && t.written == r.written + buf[..n]
      ensures t == r.(sbuf := t.sbuf, count := r.count + n, qtail := t.qtail, driver := t.driver, written := t.written,
                      counted := t.counted)
    {
      hide Turn, Run, Counts, Pointers, Slots, Histories, ThenSilence;
      RunNone(r);
      t, events := r, [];
      var i := 0;
      while i < n
        invariant 0 <= i <= n <= |buf| && t == Run(r, events) && Inv(t) && Shows(t)
        invariant t.driver == Inner(n - i, buf[i..]) && t.written == r.written + buf[..i]
        invariant t == r.(sbuf := t.sbuf, count := r.count + i, qtail := t.qtail, driver := t.driver, written := t.written,
                          counted := t.counted)
      {
        StoresOne(t);
        StoreByte(qtail, buf[i]);
        qtail := Next(qtail);
        i := i + 1;
        t, events := Three(r, t, events, DriverStep);
      }
    }

    /** One round of the outer loop of audio_write, with a callback before it looks at the count. */
    method Poll(buf: seq<Byte>, len: nat, ghost r: State) returns (n: nat, ghost t: State, ghost events: seq<Event>)
      requires Inv(r) && Shows(r) && r.driver == Outer(buf) && buf != [] && r.device.Idle?
      modifies this`count, this`qhead, this`qtail, sbuf
      ensures InBuffer(r) && t == Run(r, events) && Inv(t) && Shows(t) && t.device.Idle?
      ensures n <= |buf| && t.driver == Outer(buf[n..]) && t.given == r.given && t.written == r.written + buf[..n]
      ensures n == |buf| || count == SIZE
      ensures n == Least(|buf|, SIZE - (old(count) - Least(len, old(count))))
    {
      hide Turn, Run, Counts, Pointers, Slots, Histories, ThenSilence, Slot, Window, Silence;
      var stream := new Byte[len];
      t, events := AudioPlay(stream, r);
      InvParts(t);
      var restSize := SIZE - count;
      n := if |buf| < restSize then |buf| else restSize;
      OuterTurn(t);
      t, events := One(r, t, events, DriverStep);
      hide Inv;
      ghost var s, more := WriteBytes(buf, n, t);
      RunAppend(r, events, more);
      OuterTurn(s);
      t, events := One(r, s, events + more, DriverStep);
    }

    /** audio_write, with one callback of the given length before each time it looks at the count: it returns when
        everything is written, and otherwise is still waiting, with the ring full. */
    method AudioWrite(buf: seq<Byte>, calls: seq<nat>, ghost r: State)
      returns (nwrite: nat, ghost t: State, ghost events: seq<Event>)
      requires Inv(r) && Shows(r) && r.driver.Resting? && r.device.Idle?
      modifies this`count, this`qhead, this`qtail, sbuf
      ensures InBuffer(r) && t == Run(r, events) && Inv(t) && Shows(t) && t.device.Idle?
      ensures nwrite <= |buf| && t.given == r.given + buf && t.written == r.written + buf[..nwrite]
      ensures t.driver == if nwrite == |buf| then Resting else Outer(buf[nwrite..])
      ensures nwrite < |buf| && calls != [] ==> count == SIZE
    {
      hide Turn, Run, Counts, Pointers, Slots, Histories, ThenSilence, Least;
      RunNone(r);
      Accepts(r, buf);
      t, events := One(r, r, [], Event.AudioWrite(buf));
      hide Inv;
      nwrite := 0;
      var k := 0;
      while nwrite < |buf| && k < |calls|
        invariant 0 <= nwrite <= |buf| && k <= |calls| && t == Run(r, events) && Inv(t) && Shows(t) && t.device.Idle?
        invariant t.driver == Outer(buf[nwrite..])
        invariant t.given == r.given + buf && t.written == r.written + buf[..nwrite]
        invariant nwrite < |buf| && k > 0 ==> count == SIZE
        decreases |calls| - k
      {
        var n;
        ghost var s, more;
        n, s, more := Poll(buf[nwrite..], calls[k], t);
        RunAppend(r, events, more);
        t, events := s, events + more;
        nwrite := nwrite + n;
        k := k + 1;
      }
      if nwrite == |buf| {
        InvParts(t);
        OuterTurn(t);
        t, events := One(r, t, events, DriverStep);
      }
    }
  }

  lemma {:induction false} SilenceIs(s: seq<Byte>, n: nat)
    requires |s| == n && forall k :: 0 <= k < n ==> s[k] == 0
    ensures s == Silence(n)
  {
  }

  lemma {:induction false} InvParts(r: State)
    requires Inv(r)
    ensures InBuffer(r) && 0 <= r.count <= SIZE
  {
    hide Slots, Pointers, Histories, ThenSilence;
  }

  lemma {:induction false} WindowStep(sbuf: seq<Byte>, q: nat, i: nat)
    requires |sbuf| == SIZE
    ensures Window(sbuf, q, i + 1) == Window(sbuf, q, i) + [sbuf[Slot(q + i)]]
    ensures Next(Slot(q + i)) == Slot(q + i + 1)
  {
    NextSlot(q + i);
  }

  lemma {:induction false} One(r: State, t: State, events: seq<Event>, e: Event) returns (u: State, more: seq<Event>)
    requires InBuffer(r) && t == Run(r, events) && Inv(t)
    ensures u == Turn(t, e) && u == Run(r, more) && Inv(u)
  {
    TurnKeeps(t, e);
    RunSnoc(r, events, e);
    hide Inv, Turn;
    more := events + [e];
    u := Turn(t, e);
  }

  lemma {:induction false} Three(r: State, t: State, events: seq<Event>, e: Event) returns (u: State, more: seq<Event>)
    requires InBuffer(r) && t == Run(r, events) && Inv(t)
    ensures InBuffer(t) && u == Turn(Turn(Turn(t, e), e), e) && u == Run(r, more) && Inv(u)
  {
    hide Turn, Run;
    assert InBuffer(t) by { InvParts(t); }
    hide Inv;
    u, more := One(r, t, events, e);
    u, more := Two(r, u, more, e);
  }

  /** Two more events. */
  lemma {:induction false} Two(r: State, t: State, events: seq<Event>, e: Event) returns (u: State, more: seq<Event>)
    requires InBuffer(r) && t == Run(r, events) && Inv(t)
    ensures u == Turn(Turn(t, e), e) && u == Run(r, more) && Inv(u)
  {
    TurnKeeps(t, e);
    TurnKeeps(Turn(t, e), e);
    RunSnoc(r, events, e);
    RunSnoc(r, events + [e], e);
    hide Inv, Turn;
    more := events + [e] + [e];
    u := Turn(Turn(t, e), e);
  }
}

/** The audio queue of the native platform (am/src/native/native-audio.c): both calls copy in one piece, or in two
    when they go past the end of the buffer. */
module NativeAudio {
  import opened Octets
  import opened Ring

  /** memcpy(dst + at, src, |src|). */
  method Memcpy(dst: array<Byte>, at: nat, src: seq<Byte>)
    requires at + |src| <= dst.Length
    modifies dst
    ensures dst[..] == old(dst[..at]) + src + old(dst[at + |src|..])
    ensures dst[..at] == old(dst[..at]) && dst[at + |src|..] == old(dst[at + |src|..])
    ensures dst[at..at + |src|] == src
  {
    forall i | 0 <= i < |src| {
      dst[at + i] := src[i];
    }
    assert dst[..at] == old(dst[..at]) && dst[at + |src|..] == old(dst[at + |src|..]);
    assert dst[at..at + |src|] == src;
    assert dst[..] == dst[..at] + dst[at..at + |src|] + dst[at + |src|..];
  }

  /** What the two copies of a write in two pieces leave. */
  lemma {:induction false} TwoPieces(s: seq<Byte>, h: nat, one: seq<Byte>, two: seq<Byte>)
    requires h + |one| == |s| && |two| <= h
    ensures two + (s[..h] + one + s[h + |one|..])[|two|..] == two + s[|two|..h] + one
  {
  }

  /** A write in one piece behind the n bytes that start at q. */
  lemma {:induction false} WroteStraight(s: seq<Byte>, q: nat, n: nat, h: nat, buf: seq<Byte>)
    requires |s| == SIZE && q < SIZE && n + |buf| <= SIZE && h == Slot(q + n) && h + |buf| <= SIZE
    ensures |s[..h] + buf + s[h + |buf|..]| == SIZE
    ensures Window(s[..h] + buf + s[h + |buf|..], q, n + |buf|) == Window(s, q, n) + buf
  {
    var t := s[..h] + buf + s[h + |buf|..];
    forall i | 0 <= i < n + |buf| ensures Window(t, q, n + |buf|)[i] == (Window(s, q, n) + buf)[i] {
      SlotRounds(q + i);
      SlotRounds(q + n);
    }
  }

  /** A write in two pieces. */
  lemma {:induction false} WroteRound(s: seq<Byte>, q: nat, n: nat, h: nat, buf: seq<Byte>)
    requires |s| == SIZE && q < SIZE && n + |buf| <= SIZE && h == Slot(q + n) && h + |buf| >= SIZE
    ensures var first := SIZE - h;
            Window(buf[first..] + s[|buf| - first..h] + buf[..first], q, n + |buf|) == Window(s, q, n) + buf
  {
    var first := SIZE - h;
    var t := buf[first..] + s[|buf| - first..h] + buf[..first];
    forall i | 0 <= i < n + |buf| ensures Window(t, q, n + |buf|)[i] == (Window(s, q, n) + buf)[i] {
      SlotRounds(q + i);
      SlotRounds(q + n);
    }
  }

  class Queue {
    const sbuf: array<Byte>
    var head: nat
    var tail: nat
    var count: nat

    ghost predicate Valid()
      reads this
    {
      sbuf.Length == SIZE && tail < SIZE && count <= SIZE && head == Slot(tail + count)
    }

    /** The bytes written and not yet played. */
    ghost function Contents(): (s: seq<Byte>)
      requires Valid()
      reads this, sbuf
    {
      Window(sbuf[..], tail, count)
    }

    constructor ()
      ensures Valid() && Contents() == [] && fresh(sbuf)
    {
      sbuf := new Byte[SIZE];
      head, tail, count := 0, 0, 0;
    }

    /** nread bytes from tail on, in one piece or in two. */
    method CopyOut(stream: array<Byte>, nread: nat)
      requires sbuf.Length == SIZE && tail < SIZE && nread <= SIZE && nread <= stream.Length && stream != sbuf
      modifies this`tail, stream
      ensures stream[..nread] == Window(sbuf[..], old(tail), nread) && stream[nread..] == old(stream[nread..])
      ensures tail == Slot(old(tail) + nread)
    {
      hide Slot, Window;
      SlotRounds(tail + nread);
      if nread + tail < SIZE {
        WindowStraight(sbuf[..], tail, nread);
        Memcpy(stream, 0, sbuf[tail..tail + nread]);
        tail := tail + nread;
      } else {
        var firstCpyLen := SIZE - tail;
        WindowRound(sbuf[..], tail, nread);
        ghost var last := stream[nread..];
        assert last == stream[firstCpyLen..][nread - firstCpyLen..];
        Memcpy(stream, 0, sbuf[tail..]);
        assert stream[nread..] == stream[firstCpyLen..][nread - firstCpyLen..];
        Memcpy(stream, firstCpyLen, sbuf[..nread - firstCpyLen]);
        assert stream[..nread] == stream[..firstCpyLen] + stream[firstCpyLen..nread];
        assert stream[nread..] == last;
        tail := nread - firstCpyLen;
      }
    }

    /** The callback plays the oldest bytes, as many as there are, and then silence. */
    method AudioPlay(stream: array<Byte>)
      requires Valid() && stream != sbuf
      modifies this`tail, this`count, stream
      ensures Valid()
      ensures var all, len := old(Contents()), stream.Length;
              if |all| <= len then stream[..] == all + Silence(len - |all|) && Contents() == []
              else stream[..] == all[..len] && Contents() == all[len..]
    {
      hide Slot, Window;
      var len := stream.Length;
      var nread := len;
      if count < len {
        nread := count;
      }
      WindowSplit(sbuf[..], tail, nread, count);
      SlotPlus(tail + nread, count - nread);
      CopyOut(stream, nread);
      count := count - nread;
      if len > nread {
        Memcpy(stream, nread, seq(len - nread, i => 0));
      }
    }

    /** buf from head on, in one piece or in two. */
    method CopyIn(buf: seq<Byte>)
      requires Valid() && |buf| <= SIZE - count
      modifies this`head, sbuf
      ensures head == Slot(tail + count + |buf|)
      ensures Window(sbuf[..], tail, count + |buf|) == old(Contents()) + buf
    {
      hide Slot, Window;
      SlotRounds(tail + count);
      SlotRounds(tail + count + |buf|);
      ghost var s := sbuf[..];
      if |buf| + head < SIZE {
        WroteStraight(s, tail, count, head, buf);
        Memcpy(sbuf, head, buf);
        head := head + |buf|;
      } else {
        var firstCpyLen := SIZE - head;
        WroteRound(s, tail, count, head, buf);
        Memcpy(sbuf, head, buf[..firstCpyLen]);
        ghost var s1 := sbuf[..];
        Memcpy(sbuf, 0, buf[firstCpyLen..]);
        assert sbuf[..] == buf[firstCpyLen..] + s1[|buf| - firstCpyLen..];
        TwoPieces(s, head, buf[..firstCpyLen], buf[firstCpyLen..]);
        head := |buf| - firstCpyLen;
      }
    }

    /** As much of buf as there is room for goes to the back of the queue. */
    method AudioWrite(buf: seq<Byte>) returns (nwrite: nat)
      requires Valid()
      modifies this`head, this`count, sbuf
      ensures Valid()
      ensures nwrite == if SIZE - |old(Contents())| < |buf| then SIZE - |old(Contents())| else |buf|
      ensures Contents() == old(Contents()) + buf[..nwrite]
    {
      hide Slot, Window;
      var free := SIZE - count;
      nwrite := |buf|;
      if free < |buf| {
        nwrite := free;
      }
      CopyIn(buf[..nwrite]);
      count := count + nwrite;
    }
  }
}

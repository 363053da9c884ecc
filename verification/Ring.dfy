/** The bytes a circular buffer of 65536 slots holds, read from a slot onwards and past the end. */
module Ring {
  import opened Octets

  const SIZE: nat := 0x10000

  /** The slot of the j-th byte ever stored. */
  function Slot(j: nat): (s: nat)
    ensures s < SIZE
  {
    j % 0x10000
  }

  /** n bytes from slot q on. */
  function Window(sbuf: seq<Byte>, q: nat, n: nat): (w: seq<Byte>)
    requires |sbuf| == SIZE
    ensures |w| == n
  {
    seq(n, i requires 0 <= i < n => sbuf[Slot(q + i)])
  }

  function Next(q: nat): (s: nat)
    ensures s < SIZE
  {
    (q + 1) % 0x10000
  }

  lemma {:induction false} NextSlot(j: nat)
    ensures Next(Slot(j)) == Slot(j + 1)
  {
  }

  /** Positions of the first and of the second round. */
  lemma {:induction false} SlotRounds(j: nat)
    ensures j < SIZE ==> Slot(j) == j
    ensures SIZE <= j < 2 * SIZE ==> Slot(j) == j - SIZE
  {
  }

  lemma {:induction false} SlotPlus(j: nat, k: nat)
    ensures Slot(Slot(j) + k) == Slot(j + k)
  {
  }

  /** Positions less than a buffer apart have different slots. */
  lemma {:induction false} SlotsDiffer(j: nat, w: nat)
    requires j < w < j + SIZE
    ensures Slot(j) != Slot(w)
  {
  }

  /** The bytes of a window do not depend on how often its start has gone round. */
  lemma {:induction false} WindowAt(sbuf: seq<Byte>, j: nat, n: nat)
    requires |sbuf| == SIZE
    ensures Window(sbuf, Slot(j), n) == Window(sbuf, j, n)
  {
    forall i | 0 <= i < n ensures Window(sbuf, Slot(j), n)[i] == Window(sbuf, j, n)[i] {
      SlotPlus(j, i);
    }
  }

  /** A window is its first k bytes and the window that starts k slots later. */
  lemma {:induction false} WindowSplit(sbuf: seq<Byte>, q: nat, k: nat, n: nat)
    requires |sbuf| == SIZE && k <= n
    ensures Window(sbuf, q, n) == Window(sbuf, q, k) + Window(sbuf, Slot(q + k), n - k)
  {
    WindowAt(sbuf, q + k, n - k);
    var rest := Window(sbuf, q + k, n - k);
    forall i | k <= i < n ensures Window(sbuf, q, n)[i] == rest[i - k] {
      assert q + i == q + k + (i - k);
    }
  }

  /** A window that does not reach the end, and one that goes round once. */
  lemma {:induction false} WindowStraight(sbuf: seq<Byte>, q: nat, n: nat)
    requires |sbuf| == SIZE && q + n <= SIZE
    ensures Window(sbuf, q, n) == sbuf[q..q + n]
  {
    forall i | 0 <= i < n ensures Window(sbuf, q, n)[i] == sbuf[q..q + n][i] {
      SlotRounds(q + i);
    }
  }

  lemma {:induction false} WindowRound(sbuf: seq<Byte>, q: nat, n: nat)
    requires |sbuf| == SIZE && q < SIZE <= q + n <= q + SIZE
    ensures Window(sbuf, q, n) == sbuf[q..] + sbuf[..n - (SIZE - q)]
  {
    var round := sbuf[q..] + sbuf[..n - (SIZE - q)];
    forall i | 0 <= i < n ensures Window(sbuf, q, n)[i] == round[i] {
      SlotRounds(q + i);
    }
  }

  function Silence(n: int): (s: seq<Byte>)
    ensures |s| == (if n <= 0 then 0 else n) && forall i :: 0 <= i < |s| ==> s[i] == 0
  {
    if n <= 0 then [] else seq(n, i => 0)
  }
}

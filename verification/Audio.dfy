/** The audio ring buffer shared by the guest driver (am/src/nemu/ioe/audio.c) and the emulated device
    (nemu/src/device/audio.c), as the interleaving of their atomic steps.

    A step reads or writes one shared variable once.  The callback reads the volatile count twice: in the comparison
    with len, and again for the value. */
module Audio {
  import opened Octets
  import opened Ring

  /** Where audio_write is: not called; at the head of the outer loop; at the head of the inner loop with n bytes to
      go; or after the store, or the count, of the first byte of rest. */
  datatype Driver =
    | Resting
    | Outer(rest: seq<Byte>)
    | Inner(n: nat, rest: seq<Byte>)
    | Stored(n: nat, rest: seq<Byte>)
    | Counted(n: nat, rest: seq<Byte>)

  /** Where audio_play is; stream is what it has put into the caller's buffer so far. */
  datatype Device =
    | Idle
    | Called(len: nat)
    | Short(len: nat)
    | Copy(nread: nat, len: nat, stream: seq<Byte>)
    | Copied(nread: nat, len: nat, stream: seq<Byte>)
    | Fill(nread: nat, len: nat, stream: seq<Byte>)

  /** A callback that has returned: the length asked for, the bytes taken from the ring, and the caller's buffer. */
  datatype Play = Play(len: nat, nread: nat, stream: seq<Byte>)

  /** The shared and private variables, and the history: the bytes given to audio_write, stored, counted, played and
      taken off the count, and the callbacks that returned. */
  datatype State = State(sbuf: seq<Byte>, count: int, qhead: nat, qtail: nat, driver: Driver, device: Device,
                         given: seq<Byte>, written: seq<Byte>, counted: nat, played: seq<Byte>, taken: nat,
                         plays: seq<Play>)

  datatype Event = AudioWrite(buf: seq<Byte>) | DriverStep | Callback(len: nat) | DeviceStep

  function Initial(sbuf: seq<Byte>): State {
    State(sbuf, 0, 0, 0, Resting, Idle, [], [], 0, [], 0, [])
  }

  predicate InBuffer(r: State) {
    |r.sbuf| == SIZE && r.qhead < SIZE && r.qtail < SIZE
  }

  function Least(a: nat, b: int): nat {
    if a < b then a else if b < 0 then 0 else b
  }

  function Tail(s: seq<Byte>): seq<Byte> {
    if s == [] then [] else s[1..]
  }

  /** One step of audio_write. */
  function DriverTurn(r: State): State
    requires InBuffer(r)
  {
    match r.driver
    case Resting => r
    case Outer(rest) =>
      r.(driver := if rest == [] then Resting else Inner(Least(|rest|, SIZE - r.count), rest))
    case Inner(n, rest) =>
      if n == 0 || rest == [] then r.(driver := Outer(rest))
      else r.(sbuf := r.sbuf[r.qtail := rest[0]], driver := Stored(n, rest), written := r.written + [rest[0]])
    case Stored(n, rest) => r.(count := r.count + 1, driver := Counted(n, rest), counted := r.counted + 1)
    case Counted(n, rest) => r.(qtail := Next(r.qtail), driver := Inner(if n > 0 then n - 1 else 0, Tail(rest)))
  }

  /** One step of audio_play. */
  function DeviceTurn(r: State): State
    requires InBuffer(r)
  {
    match r.device
    case Idle => r
    case Called(len) => r.(device := if r.count < len then Short(len) else Copy(len, len, []))
    case Short(len) => r.(device := Copy(if r.count < 0 then 0 else r.count, len, []))
    case Copy(nread, len, stream) =>
      if |stream| < nread then
        r.(device := Copied(nread, len, stream + [r.sbuf[r.qhead]]), played := r.played + [r.sbuf[r.qhead]])
      else r.(count := r.count - nread, device := Fill(nread, len, stream), taken := r.taken + nread)
    case Copied(nread, len, stream) => r.(qhead := Next(r.qhead), device := Copy(nread, len, stream))
    case Fill(nread, len, stream) =>
      r.(device := Idle, plays := r.plays + [Play(len, nread, stream + Silence(len - nread))])
  }

  /** A call is taken when the side it concerns is not in one. */
  function Turn(r: State, e: Event): (t: State)
    requires InBuffer(r)
    ensures InBuffer(t)
  {
    match e
    case AudioWrite(buf) => if r.driver.Resting? then r.(driver := Outer(buf), given := r.given + buf) else r
    case DriverStep => DriverTurn(r)
    case Callback(len) => if r.device.Idle? then r.(device := Called(len)) else r
    case DeviceStep => DeviceTurn(r)
  }

  function Run(r: State, events: seq<Event>): (t: State)
    requires InBuffer(r)
    ensures InBuffer(t)
  {
    if events == [] then r else Turn(Run(r, events[..|events| - 1]), events[|events| - 1])
  }

  // ----- the invariant -----------------------------------------------------------------------------------------

  /** Bytes given to the running audio_write and not yet stored. */
  function Ahead(d: Driver): seq<Byte> {
    match d
    case Resting => []
    case Stored(_, rest) => Tail(rest)
    case Counted(_, rest) => Tail(rest)
    case _ => d.rest
  }

  /** Room the driver still relies on. */
  function Claimed(d: Driver): nat {
    match d
    case Inner(n, _) => n
    case Stored(n, _) => n
    case Counted(n, _) => if n > 0 then n - 1 else 0
    case _ => 0
  }

  /** 1 between the store of a byte and its count, and between its count and the advance of qtail. */
  function Uncounted(d: Driver): nat {
    if d.Stored? then 1 else 0
  }

  function Unpassed(d: Driver): nat {
    if d.Counted? then 1 else 0
  }

  /** What the running callback has copied, and what it will take off the count. */
  function Fetched(d: Device): seq<Byte> {
    if d.Copy? || d.Copied? then d.stream else []
  }

  /** What the running callback has put into the caller's buffer. */
  function Hearing(d: Device): seq<Byte> {
    if d.Copy? || d.Copied? || d.Fill? then d.stream else []
  }

  function Wanted(d: Device): nat {
    if d.Copy? || d.Copied? then d.nread else 0
  }

  /** 1 between the copy of a byte and the advance of qhead. */
  function Unadvanced(d: Device): nat {
    if d.Copied? then 1 else 0
  }

  /** The bytes that came out of the ring in the callbacks that returned, silence left out. */
  function Sound(plays: seq<Play>): seq<Byte> {
    if plays == [] then []
    else var p := plays[|plays| - 1];
         Sound(plays[..|plays| - 1]) + p.stream[..if p.nread <= |p.stream| then p.nread else |p.stream|]
  }

  predicate DriverOk(d: Driver) {
    match d
    case Inner(n, rest) => n <= |rest|
    case Stored(n, rest) => 0 < n <= |rest|
    case Counted(n, rest) => 0 < n <= |rest|
    case _ => true
  }

  predicate DeviceOk(d: Device) {
    match d
    case Copy(nread, _, stream) => |stream| <= nread
    case Copied(nread, _, stream) => 0 < |stream| <= nread
    case Fill(nread, _, stream) => |stream| == nread
    case _ => true
  }

  /** The counters against the history. */
  predicate Counts(r: State) {
    && r.count == r.counted - r.taken
    && |r.written| == r.counted + Uncounted(r.driver)
    && |r.played| == r.taken + |Fetched(r.device)|
    && r.taken + Wanted(r.device) <= r.counted
    && r.counted + Claimed(r.driver) <= r.taken + SIZE
    && Unpassed(r.driver) <= r.counted
    && Unadvanced(r.device) <= |r.played|
  }

  predicate Pointers(r: State)
    requires Counts(r)
  {
    && r.qtail == Slot(r.counted - Unpassed(r.driver))
    && r.qhead == Slot(|r.played| - Unadvanced(r.device))
  }

  /** Every stored byte that is still to be played is in its slot. */
  predicate Slots(sbuf: seq<Byte>, played: nat, written: seq<Byte>)
    requires |sbuf| == SIZE
  {
    forall j :: played <= j < |written| ==> sbuf[Slot(j)] == written[j]
  }

  predicate Histories(r: State) {
    && r.played <= r.written
    && r.given == r.written + Ahead(r.driver)
    && r.played == Sound(r.plays) + Hearing(r.device)
  }

  /** A callback that returned heard the bytes it took and then nothing but silence. */
  predicate ThenSilence(plays: seq<Play>) {
    forall p | p in plays :: p.nread <= |p.stream| && p.stream[p.nread..] == Silence(p.len - p.nread)
  }

  predicate Inv(r: State) {
    && InBuffer(r) && DriverOk(r.driver) && DeviceOk(r.device)
    && Counts(r) && Pointers(r) && Slots(r.sbuf, |r.played|, r.written) && Histories(r) && ThenSilence(r.plays)
  }

  /** Storing the next byte overwrites no byte that is still to be played. */
  lemma {:induction false} StoreKeeps(sbuf: seq<Byte>, played: nat, written: seq<Byte>, b: Byte)
    requires |sbuf| == SIZE && Slots(sbuf, played, written) && |written| < played + SIZE
    ensures Slots(sbuf[Slot(|written|) := b], played, written + [b])
  {
    forall j | played <= j < |written| ensures Slot(j) != Slot(|written|) {
      SlotsDiffer(j, |written|);
    }
  }

  lemma {:induction false} StoredKeeps(r: State)
    requires Inv(r) && r.driver.Inner? && r.driver.n > 0
    ensures Inv(DriverTurn(r))
  {
    hide Slot, Sound, Silence, Next, ThenSilence;
    var t, rest := DriverTurn(r), r.driver.rest;
    assert Slots(t.sbuf, |t.played|, t.written) by {
      StoreKeeps(r.sbuf, |r.played|, r.written, rest[0]);
    }
    hide Slots;
    assert Histories(t) by {
      assert rest == [rest[0]] + rest[1..];
    }
    hide Histories;
  }

  lemma {:induction false} CountedParts(r: State)
    requires InBuffer(r) && r.driver.Counted? && DriverOk(r.driver) && Counts(r) && Pointers(r)
    ensures Counts(DriverTurn(r)) && Pointers(DriverTurn(r))
  {
    NextSlot(r.counted - 1);
    hide Slot, Next;
  }

  lemma {:induction false} CountedKeeps(r: State)
    requires Inv(r) && r.driver.Counted?
    ensures Inv(DriverTurn(r))
  {
    hide Slots, Sound, ThenSilence, Counts, Pointers;
    CountedParts(r);
  }

  lemma {:induction false} DriverKeeps(r: State)
    requires Inv(r)
    ensures Inv(DriverTurn(r))
  {
    hide Slots, Slot, Sound, Silence, Next;
    match r.driver
    case Inner(n, rest) =>
      if n > 0 {
        StoredKeeps(r);
      }
    case Counted(n, rest) => CountedKeeps(r);
    case _ =>
  }

  /** The byte copied is the next one of the history. */
  lemma {:induction false} CopyKeeps(r: State)
    requires Inv(r) && r.device.Copy? && |r.device.stream| < r.device.nread
    ensures Inv(DeviceTurn(r))
  {
    hide Slot, Sound, Silence, Next, ThenSilence;
    var t, p := DeviceTurn(r), |r.played|;
    assert p < |r.written| && r.sbuf[r.qhead] == r.written[p];
    assert Slots(t.sbuf, |t.played|, t.written);
    hide Slots;
    assert Histories(t) by {
      assert r.written[..p + 1] == r.written[..p] + [r.written[p]];
      assert t.played == r.written[..p + 1];
      assert t.played == Sound(r.plays) + t.device.stream;
    }
    hide Histories;
  }

  lemma {:induction false} CopiedParts(r: State)
    requires InBuffer(r) && r.device.Copied? && DeviceOk(r.device) && Counts(r) && Pointers(r)
    ensures Counts(DeviceTurn(r)) && Pointers(DeviceTurn(r))
  {
    NextSlot(|r.played| - 1);
    hide Slot, Next;
  }

  lemma {:induction false} CopiedKeeps(r: State)
    requires Inv(r) && r.device.Copied?
    ensures Inv(DeviceTurn(r))
  {
    hide Slots, Sound, ThenSilence, Counts, Pointers;
    CopiedParts(r);
  }

  lemma {:induction false} SoundSnoc(plays: seq<Play>, p: Play)
    requires p.nread <= |p.stream|
    ensures Sound(plays + [p]) == Sound(plays) + p.stream[..p.nread]
  {
    assert (plays + [p])[..|plays|] == plays;
  }

  /** A callback returns what it took from the ring and then silence. */
  lemma {:induction false} FillKeeps(r: State)
    requires Inv(r) && r.device.Fill?
    ensures Histories(DeviceTurn(r)) && ThenSilence(DeviceTurn(r).plays)
  {
    hide Slots, Slot, Silence, Next, Pointers, Counts, Sound;
    var d, t := r.device, DeviceTurn(r);
    var p := Play(d.len, d.nread, d.stream + Silence(d.len - d.nread));
    assert p.stream[..d.nread] == d.stream && p.stream[d.nread..] == Silence(d.len - d.nread);
    assert ThenSilence(t.plays);
    hide ThenSilence;
    SoundSnoc(r.plays, p);
  }

  lemma {:induction false} DeviceKeeps(r: State)
    requires Inv(r)
    ensures Inv(DeviceTurn(r))
  {
    hide Slots, Slot, Sound, Silence, Next, ThenSilence;
    match r.device
    case Copy(nread, len, stream) =>
      if |stream| < nread {
        CopyKeeps(r);
      }
    case Copied(nread, len, stream) => CopiedKeeps(r);
    case Fill(nread, len, stream) =>
      FillKeeps(r);
      hide Histories;
    case _ =>
  }

  lemma {:induction false} TurnKeeps(r: State, e: Event)
    requires Inv(r)
    ensures Inv(Turn(r, e))
  {
    hide Slots, Slot, Sound, ThenSilence;
    match e
    case AudioWrite(buf) => assert r.driver.Resting? ==> r.written + [] == r.written;
    case DriverStep => hide Inv; DriverKeeps(r);
    case Callback(len) =>
    case DeviceStep => hide Inv; DeviceKeeps(r);
  }

  lemma {:induction false} RunKeeps(r: State, events: seq<Event>)
    requires Inv(r)
    ensures Inv(Run(r, events))
  {
    if events != [] {
      RunKeeps(r, events[..|events| - 1]);
      TurnKeeps(Run(r, events[..|events| - 1]), events[|events| - 1]);
    }
  }

  lemma {:induction false} RunSnoc(r: State, events: seq<Event>, e: Event)
    requires InBuffer(r)
    ensures Run(r, events + [e]) == Turn(Run(r, events), e)
  {
    assert (events + [e])[..|events|] == events;
  }

  lemma {:induction false} RunAppend(r: State, a: seq<Event>, b: seq<Event>)
    requires InBuffer(r)
    ensures Run(r, a + b) == Run(Run(r, a), b)
  {
    if b == [] {
      assert a + b == a;
    } else {
      var n := |b| - 1;
      assert a + b == (a + b[..n]) + [b[n]];
      RunAppend(r, a, b[..n]);
      RunSnoc(r, a + b[..n], b[n]);
    }
  }

  // ----- what holds after any interleaving ---------------------------------------------------------------------

  lemma {:induction false} InitialInv(sbuf: seq<Byte>)
    requires |sbuf| == SIZE
    ensures Inv(Initial(sbuf))
  {
  }

  lemma {:induction false} Ends(t: State)
    requires InBuffer(t) && DeviceOk(t.device) && Counts(t) && Pointers(t)
    ensures Level(t)
  {
    var u, v := Unpassed(t.driver), Unadvanced(t.device);
    var left := t.count - |Fetched(t.device)|;
    SlotPlus(t.counted - u, u);
    SlotPlus(|t.played| - v, v + left);
    assert |t.played| - v + (v + left) == t.counted;
    SlotPlus(t.counted, 0);
    hide Slot;
  }

  /** The count is a fill level, and the two ends are count apart but for the bytes the two calls are in the middle
      of. */
  predicate Level(t: State) {
    && 0 <= t.count <= SIZE && |Fetched(t.device)| <= t.count
    && Slot(t.qtail + Unpassed(t.driver)) == Slot(t.qhead + Unadvanced(t.device) + (t.count - |Fetched(t.device)|))
    && (!t.driver.Counted? && !t.device.Copy? && !t.device.Copied? ==> t.qtail == Slot(t.qhead + t.count))
  }

  lemma {:induction false} RunCounts(sbuf: seq<Byte>, events: seq<Event>)
    requires |sbuf| == SIZE
    ensures Level(Run(Initial(sbuf), events))
  {
    InitialInv(sbuf);
    RunKeeps(Initial(sbuf), events);
    hide Slots, Histories, ThenSilence, Run, Level, Counts, Pointers;
    Ends(Run(Initial(sbuf), events));
  }

  /** The bytes stored and not played are in the ring, oldest first. */
  lemma {:induction false} InRing(sbuf: seq<Byte>, played: seq<Byte>, written: seq<Byte>, n: nat)
    requires |sbuf| == SIZE && Slots(sbuf, |played|, written) && played <= written && |written| == |played| + n
    ensures written == played + Window(sbuf, Slot(|played|), n)
  {
    var w := Window(sbuf, |played|, n);
    forall i | 0 <= i < n ensures w[i] == written[|played| + i] {
    }
    WindowAt(sbuf, |played|, n);
  }

  /** What has been heard is a prefix of what audio_write was given, each callback hearing the bytes it took and then
      nothing but silence; and nothing is lost: between calls the rest is in the ring, oldest first. */
  predicate Heard(t: State)
    requires |t.sbuf| == SIZE
  {
    && Sound(t.plays) <= t.written <= t.given && ThenSilence(t.plays)
    && (t.driver.Resting? && t.device.Idle? ==>
          0 <= t.count && t.given == Sound(t.plays) + Window(t.sbuf, t.qhead, t.count))
  }

  lemma {:induction false} InvHeard(t: State)
    requires Inv(t)
    ensures Heard(t)
  {
    hide Slots, Slot, ThenSilence, Sound, Window;
    if t.driver.Resting? && t.device.Idle? {
      InRing(t.sbuf, t.played, t.written, t.count);
    }
  }

  lemma {:induction false} RunPlays(sbuf: seq<Byte>, events: seq<Event>)
    requires |sbuf| == SIZE
    ensures Heard(Run(Initial(sbuf), events))
  {
    InitialInv(sbuf);
    RunKeeps(Initial(sbuf), events);
    hide Inv, Run, Heard;
    InvHeard(Run(Initial(sbuf), events));
  }

  // ----- the double read of count ------------------------------------------------------------------------------

  /** What the driver does between the two reads. */
  predicate OfDriver(events: seq<Event>) {
    forall e | e in events :: e.AudioWrite? || e.DriverStep?
  }

  /** How often it adds to the count. */
  function Increments(r: State, events: seq<Event>): nat
    requires InBuffer(r)
  {
    if events == [] then 0
    else
      var before := Run(r, events[..|events| - 1]);
      Increments(r, events[..|events| - 1]) + if events[|events| - 1].DriverStep? && before.driver.Stored? then 1 else 0
  }

  /** Driver events leave the callback where it is, and change the count by their increments. */
  lemma {:induction false} DriverRun(r: State, events: seq<Event>)
    requires InBuffer(r) && OfDriver(events)
    ensures var t := Run(r, events);
      t.device == r.device && t.taken == r.taken && t.count == r.count + Increments(r, events)
  {
    if events != [] {
      var n := |events| - 1;
      assert events[n] in events;
      DriverRun(r, events[..n]);
    }
  }

  /** The callback that found the count below len and looks at it again after any run of the driver takes the count of
      then: at most len if and only if the driver added at most what was missing. */
  lemma {:induction false} TakesAtMostLen(r: State, events: seq<Event>)
    requires Inv(r) && r.device.Called? && r.count < r.device.len && OfDriver(events)
    ensures var len := r.device.len;
      var t := Run(DeviceTurn(r), events);
      var u := DeviceTurn(t);
      && u.device == Copy(r.count + Increments(DeviceTurn(r), events), len, [])
      && (u.device.nread <= len <==> Increments(DeviceTurn(r), events) <= len - r.count)
  {
    DeviceKeeps(r);
    var s := DeviceTurn(r);
    assert s.device == Short(r.device.len) && s.count == r.count >= 0;
    hide Inv, Turn, Run, Increments;
    DriverRun(s, events);
  }

  /** Bytes that audio_write was given and has not yet counted. */
  function Uncounting(d: Driver): nat {
    |Ahead(d)| + Uncounted(d)
  }

  /** The most the count can come to while the device stands still. */
  function Ceiling(r: State): int {
    if r.count + Uncounting(r.driver) <= SIZE then r.count + Uncounting(r.driver) else SIZE
  }

  lemma {:induction false} DriverCeiling(r: State)
    requires Inv(r)
    ensures Inv(DriverTurn(r)) && DriverTurn(r).device == r.device
    ensures r.count <= DriverTurn(r).count <= r.count + 1 && Ceiling(DriverTurn(r)) == Ceiling(r)
  {
    DriverKeeps(r);
    hide Slots, Sound, ThenSilence, Slot, Next;
  }

  lemma {:induction false} DriverSteps(r: State, n: nat)
    requires InBuffer(r)
    ensures Run(r, seq(n, i => DriverStep)) == DriverTurns(r, n) && InBuffer(DriverTurns(r, n))
  {
    if n > 0 {
      var steps := seq(n, i => DriverStep);
      assert steps[..n - 1] == seq(n - 1, i => DriverStep);
      DriverSteps(r, n - 1);
    }
  }

  function DriverTurns(r: State, n: nat): (t: State)
    requires InBuffer(r)
    ensures InBuffer(t)
  {
    if n == 0 then r else Turn(DriverTurns(r, n - 1), DriverStep)
  }

  lemma {:induction false} UnderCeiling(r: State)
    requires Inv(r)
    ensures InBuffer(r) && r.count <= Ceiling(r) <= SIZE
  {
  }

  /** How far the driver is from counting its next byte. */
  function Distance(d: Driver): nat {
    match d
    case Stored(_, _) => 0
    case Inner(n, _) => if n > 0 then 1 else 3
    case Outer(_) => 2
    case Counted(_, _) => 4
    case Resting => 5
  }

  lemma {:induction false} GetsCloser(r: State)
    requires Inv(r) && r.count < Ceiling(r)
    ensures var t := DriverTurn(r); t.count == r.count + 1 || (t.count == r.count && Distance(t.driver) < Distance(r.driver))
  {
    hide Slots, Sound, ThenSilence, Slot, Next, Pointers, Histories;
  }

  /** Left alone, the driver gets there. */
  lemma {:induction false} Climbs(r: State) returns (n: nat)
    requires Inv(r)
    ensures InBuffer(r) && DriverTurns(r, n).count == Ceiling(r)
    decreases Ceiling(r) - r.count, Distance(r.driver)
  {
    UnderCeiling(r);
    hide Inv, Ceiling, DriverTurn, Distance;
    n := 0;
    if r.count < Ceiling(r) {
      GetsCloser(r);
      DriverCeiling(r);
      var m := Climbs(DriverTurn(r));
      OneTurnFirst(r, m);
      n := m + 1;
    }
  }

  lemma {:induction false} OneTurnFirst(r: State, m: nat)
    requires InBuffer(r)
    ensures InBuffer(DriverTurn(r)) && DriverTurns(r, m + 1) == DriverTurns(DriverTurn(r), m)
  {
    assert Turn(r, DriverStep) == DriverTurn(r);
    hide DriverTurn;
    if m > 0 {
      OneTurnFirst(r, m - 1);
    } else {
      assert DriverTurns(r, 0) == r;
    }
  }

  /** How many bytes the callback takes if these are the events between its two reads. */
  function TakesAfter(r: State, events: seq<Event>): int
    requires InBuffer(r)
  {
    var t := DeviceTurn(Run(Turn(r, DeviceStep), events));
    if t.device.Copy? then t.device.nread else 0
  }

  /** How many bytes they give to audio_write. */
  function GivenIn(r: State, events: seq<Event>): int
    requires InBuffer(r)
  {
    |Run(r, events).given| - |r.given|
  }

  lemma {:induction false} TakesCount(r: State, events: seq<Event>)
    requires InBuffer(r) && InBuffer(DeviceTurn(r))
    requires var t := Run(DeviceTurn(r), events); t.device.Short? && t.count >= 0
    ensures TakesAfter(r, events) == Run(DeviceTurn(r), events).count
  {
    hide Run;
  }

  /** Count and bytes under way come to what was given and not taken. */
  lemma {:induction false} UnderWay(r: State)
    requires Inv(r)
    ensures r.count + Uncounting(r.driver) == |r.given| - r.taken && 0 <= r.count <= SIZE
  {
    hide Slots, Sound, ThenSilence, Slot;
  }

  /** Steps of the driver neither give it anything nor start a callback. */
  lemma {:induction false} TurnsGive(r: State, n: nat)
    requires Inv(r)
    ensures InBuffer(r) && var t := DriverTurns(r, n);
      Inv(t) && t.given == r.given && t.taken == r.taken && t.device == r.device
  {
    if n > 0 {
      hide Inv, DriverTurn;
      TurnsGive(r, n - 1);
      TurnGives(DriverTurns(r, n - 1));
    } else {
      hide Counts, Pointers, Slots, Histories, ThenSilence;
    }
  }

  lemma {:induction false} TurnGives(r: State)
    requires Inv(r)
    ensures InBuffer(r) && var t := DriverTurn(r); Inv(t) && t.given == r.given && t.taken == r.taken && t.device == r.device
  {
    DriverKeeps(r);
    assert InBuffer(r);
    hide Inv, Next, Least;
  }

  /** With every byte counted the driver comes to rest, in at most three steps. */
  lemma {:induction false} Rests(r: State) returns (n: nat)
    requires Inv(r) && Uncounting(r.driver) == 0
    ensures InBuffer(r) && DriverTurns(r, n).driver.Resting? && DriverTurns(r, n).count == r.count
  {
    hide Counts, Pointers, Slots, Histories, ThenSilence, Next;
    assert DriverTurns(r, 0) == r;
    assert DriverTurns(r, 1) == Turn(DriverTurns(r, 0), DriverStep);
    assert DriverTurns(r, 2) == Turn(DriverTurns(r, 1), DriverStep);
    assert DriverTurns(r, 3) == Turn(DriverTurns(r, 2), DriverStep);
    n := if r.driver.Outer? then 1 else if r.driver.Inner? then 2 else if r.driver.Counted? then 3 else 0;
  }

  /** The driver left alone from s on takes the count to its ceiling. */
  lemma {:induction false} ClimbEvents(s: State) returns (events: seq<Event>)
    requires Inv(s)
    ensures InBuffer(s) && OfDriver(events) && GivenIn(s, events) == 0 && Run(s, events).count == Ceiling(s)
    ensures Run(s, events).device == s.device && Inv(Run(s, events))
  {
    var n := Climbs(s);
    TurnsGive(s, n);
    events := seq(n, i => DriverStep);
    DriverSteps(s, n);
    hide Inv, Ceiling, Run, DriverTurns;
  }

  /** If the driver can be given m more bytes, it can take the count to what it comes to with them, or to the size of
      the ring. */
  lemma {:induction false} ReachesTop(s: State, m: nat) returns (events: seq<Event>)
    requires Inv(s)
    ensures InBuffer(s) && OfDriver(events) && GivenIn(s, events) <= m
    ensures var t := Run(s, events); Inv(t) && t.device == s.device
    ensures var top := s.count + Uncounting(s.driver) + m; Run(s, events).count == if top <= SIZE then top else SIZE
  {
    var first := ClimbEvents(s);
    var t := Run(s, first);
    UnderWay(s);
    UnderWay(t);
    DriverRun(s, first);
    if Ceiling(s) == SIZE {
      events := first;
    } else {
      var second := MoreGiven(t, m);
      events := first + second;
      RunAppend(s, first, second);
    }
  }

  /** With every byte counted, m more bytes are given and counted, as far as there is room. */
  lemma {:induction false} MoreGiven(t: State, m: nat) returns (events: seq<Event>)
    requires Inv(t) && Uncounting(t.driver) == 0
    ensures InBuffer(t) && OfDriver(events) && GivenIn(t, events) == m
    ensures var u := Run(t, events); Inv(u) && u.device == t.device
    ensures Run(t, events).count == if t.count + m <= SIZE then t.count + m else SIZE
  {
    hide *;
    var n := Rests(t);
    TurnsGive(t, n);
    var steps, buf := seq(n, i => DriverStep), seq(m, i => 0);
    DriverSteps(t, n);
    var rest := DriverTurns(t, n);
    NewCall(rest, buf);
    var u := Turn(rest, AudioWrite(buf));
    var climb := ClimbEvents(u);
    RunSnoc(t, steps, AudioWrite(buf));
    RunAppend(t, steps + [AudioWrite(buf)], climb);
    events := steps + [AudioWrite(buf)] + climb;
    CallsOnly(n, buf, climb);
    Given(t, steps + [AudioWrite(buf)], climb, events);
  }

  /** A call of audio_write where the driver rests. */
  lemma {:induction false} NewCall(r: State, buf: seq<Byte>)
    requires Inv(r) && r.driver.Resting?
    ensures InBuffer(r) && var u := Turn(r, AudioWrite(buf));
      && Inv(u) && u.given == r.given + buf && u.count == r.count && u.device == r.device
      && Ceiling(u) == if r.count + |buf| <= SIZE then r.count + |buf| else SIZE
  {
    TurnKeeps(r, AudioWrite(buf));
    assert InBuffer(r);
    hide Inv;
  }

  lemma {:induction false} CallsOnly(n: nat, buf: seq<Byte>, climb: seq<Event>)
    requires OfDriver(climb)
    ensures OfDriver(seq(n, i => DriverStep) + [AudioWrite(buf)] + climb)
  {
  }

  lemma {:induction false} Given(t: State, a: seq<Event>, b: seq<Event>, c: seq<Event>)
    requires InBuffer(t) && Run(t, c) == Run(Run(t, a), b)
    ensures GivenIn(t, c) == GivenIn(Run(t, a), b) + |Run(t, a).given| - |t.given|
  {
  }

  /** What can be counted between the two reads. */
  lemma {:induction false} CountsAtMost(s: State, events: seq<Event>, m: nat)
    requires Inv(s) && OfDriver(events) && GivenIn(s, events) <= m
    ensures var t := Run(s, events); Inv(t) && t.device == s.device && 0 <= t.count <= SIZE
    ensures Run(s, events).count <= s.count + Uncounting(s.driver) + m
  {
    RunKeeps(s, events);
    DriverRun(s, events);
    UnderWay(s);
    UnderWay(Run(s, events));
    hide Inv, Run;
  }

  /** The guard: whatever the driver does between the two reads, new calls of audio_write with at most m bytes in all
      included, the callback takes no more than it was asked for if and only if the count, the bytes under way and m do
      not come to more than that, or the ring does not hold more. */
  lemma {:induction false} DriverGuard(r: State, m: nat)
    requires Inv(r) && r.device.Called? && r.count < r.device.len
    ensures InBuffer(r)
    ensures (forall events :: OfDriver(events) && GivenIn(DeviceTurn(r), events) <= m ==> TakesAfter(r, events) <= r.device.len)
       <==> r.count + Uncounting(r.driver) + m <= r.device.len || SIZE <= r.device.len
  {
    var s, len := DeviceTurn(r), r.device.len;
    DeviceKeeps(r);
    assert s.device == Short(len) && s.driver == r.driver && s.count == r.count;
    hide Inv, DeviceTurn, Uncounting;
    if r.count + Uncounting(r.driver) + m <= len || SIZE <= len {
      forall events | OfDriver(events) && GivenIn(s, events) <= m ensures TakesAfter(r, events) <= len {
        CountsAtMost(s, events, m);
        TakesCount(r, events);
      }
    } else {
      var events := ReachesTop(s, m);
      UnderWayNow(Run(s, events));
      TakesCount(r, events);
      assert TakesAfter(r, events) > len;
    }
  }

  lemma {:induction false} UnderWayNow(t: State)
    requires Inv(t)
    ensures 0 <= t.count
  {
    hide Slots, Sound, ThenSilence, Slot;
  }

  /** With no bound on what the driver is given there is no guard but the size of the ring. */
  lemma {:induction false} NoOtherGuard(r: State)
    requires Inv(r) && r.device.Called? && r.count < r.device.len
    ensures InBuffer(r)
    ensures (forall events :: OfDriver(events) ==> TakesAfter(r, events) <= r.device.len) <==> SIZE <= r.device.len
  {
    DriverGuard(r, 0);
    var s, len := DeviceTurn(r), r.device.len;
    DeviceKeeps(r);
    assert s.device == Short(len);
    hide Inv, DeviceTurn;
    if SIZE <= len {
      forall events | OfDriver(events) ensures TakesAfter(r, events) <= len {
        var g := GivenIn(s, events);
        CountsAtMost(s, events, if g < 0 then 0 else g);
        TakesCount(r, events);
      }
    } else {
      DriverGuard(r, len + 1);
      UnderWayNow(r);
    }
  }

  /** A call of audio_write between the two reads: a callback asked for 1 byte, with nothing in the ring and nothing
      under way, takes 2. */
  lemma {:induction false} NewCallTakesMore(sbuf: seq<Byte>) returns (events: seq<Event>)
    requires |sbuf| == SIZE
    ensures var r := Turn(Initial(sbuf), Callback(1));
      && Inv(r) && r.device == Called(1) && r.count == 0 && Uncounting(r.driver) == 0
      && OfDriver(events) && TakesAfter(r, events) == 2
  {
    var r := Turn(Initial(sbuf), Callback(1));
    InitialInv(sbuf);
    TurnKeeps(Initial(sbuf), Callback(1));
    DeviceKeeps(r);
    assert DeviceTurn(r).device == Short(1);
    events := ReachesTop(DeviceTurn(r), 2);
    TakesCount(r, events);
  }

  /** It can be asked for 1 byte and take 2: both bytes are written between its two reads. */
  lemma {:induction false} TakesMore(sbuf: seq<Byte>, b: Byte) returns (events: seq<Event>)
    requires |sbuf| == SIZE
    ensures Run(Initial(sbuf), events).device == Copy(2, 1, [])
  {
    var calls, writes := [AudioWrite([b, b]), Callback(1), DeviceStep], seq(6, i => DriverStep);
    var s := Turn(Turn(Turn(Initial(sbuf), calls[0]), calls[1]), calls[2]);
    assert s.device == Short(1) && s.driver == Outer([b, b]);
    var s1 := DriverTurn(s);
    assert DriverTurns(s, 1) == s1 && s1.driver == Inner(2, [b, b]) && s1.count == 0;
    var s3 := DriverTurn(DriverTurn(s1));
    assert DriverTurns(s, 3) == s3 && s3.driver == Counted(2, [b, b]) && s3.count == 1;
    var s5 := DriverTurn(DriverTurn(s3));
    assert DriverTurns(s, 5) == s5 && s5.driver == Stored(1, [b]) && s5.count == 1;
    var s6 := DriverTurn(s5);
    assert DriverTurns(s, 6) == s6 && s6.count == 2 && s6.device == Short(1);
    assert Turn(s6, DeviceStep).device == Copy(2, 1, []);
    hide Turn, DriverTurns, DriverTurn;
    RunSnoc(Initial(sbuf), [], calls[0]);
    RunSnoc(Initial(sbuf), calls[..1], calls[1]);
    RunSnoc(Initial(sbuf), calls[..2], calls[2]);
    assert calls[..1] == [] + [calls[0]] && calls[..2] == calls[..1] + [calls[1]] && calls == calls[..2] + [calls[2]];
    DriverSteps(s, 6);
    RunAppend(Initial(sbuf), calls, writes);
    RunSnoc(Initial(sbuf), calls + writes, DeviceStep);
    events := calls + writes + [DeviceStep];
  }
}

/** The memory bus: physical memory (nemu/src/memory/paddr.c), the spaces behind devices (nemu/src/device/io/map.c) and
    the maps that lead to them (nemu/src/device/io/mmio.c). */
module Bus {
  import opened Octets
  import opened RvSpec
  import opened Bits
  import opened NemuState

  const IO_SPACE_MAX: nat := 0x20_0000
  const PAGE_SIZE: nat := 0x1000
  const NR_MAP: nat := 16

  /** space is an offset in io_space. */
  datatype IOMap = IOMap(low: nat, high: nat, space: nat, callback: bool)

  // ----- the address space ---------------------------------------------------------------------------------------

  /** Where the byte at an address is kept. */
  datatype Place = Pmem(k: nat) | Io(k: nat) | Nowhere

  predicate MapInside(m: IOMap, addr: nat) {
    m.low <= addr <= m.high
  }

  /** The first map from the i-th on that an address is in. */
  function FindFrom(maps: seq<IOMap>, addr: nat, i: nat): (k: nat)
    requires i <= |maps|
    ensures i <= k <= |maps| && (k < |maps| ==> MapInside(maps[k], addr))
    ensures forall j :: i <= j < k ==> !MapInside(maps[j], addr)
    decreases |maps| - i
  {
    if i == |maps| || MapInside(maps[i], addr) then i else FindFrom(maps, addr, i + 1)
  }

  function PlaceOf(maps: seq<IOMap>, addr: nat): Place {
    if InPmem(addr) then Pmem(addr - PMEM_BASE)
    else
      var k := FindFrom(maps, addr, 0);
      if k < |maps| then Io(maps[k].space + (addr - maps[k].low)) else Nowhere
  }

  /** The 128 MB from 0x8000_0000 on are physical memory, and no other address is. */
  lemma {:induction false} PmemLeads(maps: seq<IOMap>, addr: nat)
    ensures 0x8000_0000 <= addr < 0x8000_0000 + 128 * 1024 * 1024 ==> PlaceOf(maps, addr) == Pmem(addr - 0x8000_0000)
    ensures PlaceOf(maps, addr).Pmem? ==> 0x8000_0000 <= addr < 0x8000_0000 + 128 * 1024 * 1024
  {
  }

  /** Outside of it an address leads to the first map that reaches from its low to its high address, both included, and
      nowhere if there is none. */
  lemma {:induction false} MapLeads(maps: seq<IOMap>, addr: nat)
    requires !(0x8000_0000 <= addr < 0x8000_0000 + 128 * 1024 * 1024)
    ensures forall i ::
      0 <= i < |maps| && maps[i].low <= addr <= maps[i].high && (forall j :: 0 <= j < i ==> !(maps[j].low <= addr <= maps[j].high))
      ==> PlaceOf(maps, addr) == Io(maps[i].space + addr - maps[i].low)
    ensures PlaceOf(maps, addr) == Nowhere <==> forall i :: 0 <= i < |maps| ==> !(maps[i].low <= addr <= maps[i].high)
  {
    var k := FindFrom(maps, addr, 0);
    forall i | 0 <= i < |maps| && maps[i].low <= addr <= maps[i].high
               && (forall j :: 0 <= j < i ==> !(maps[j].low <= addr <= maps[j].high))
      ensures k == i
    {
      assert MapInside(maps[i], addr);
      assert k < |maps| ==> maps[k].low <= addr <= maps[k].high;
    }
  }

  /** Both addresses are in physical memory or in the same map. */
  predicate SameRegion(maps: seq<IOMap>, a: nat, b: nat) {
    if InPmem(a) then InPmem(b)
    else !InPmem(b) && FindFrom(maps, a, 0) == FindFrom(maps, b, 0) < |maps|
  }

  /** An access of len bytes that stays in one region. */
  predicate Inside(maps: seq<IOMap>, addr: nat, len: nat) {
    && (len > 0 ==> SameRegion(maps, addr, addr))
    && (len > 1 ==> SameRegion(maps, addr, addr + 1))
    && (len > 2 ==> SameRegion(maps, addr, addr + 2) && SameRegion(maps, addr, addr + 3))
  }

  function Size(m: IOMap): int {
    m.high - m.low + 1
  }

  ghost predicate SpacesApart(maps: seq<IOMap>) {
    forall i, j :: 0 <= i < j < |maps| ==>
      maps[i].space + Size(maps[i]) <= maps[j].space || maps[j].space + Size(maps[j]) <= maps[i].space
  }

  /** Every map is a range of addresses whose space new_space has given out. */
  ghost predicate MapsOk(maps: seq<IOMap>, pSpace: nat) {
    && |maps| <= NR_MAP
    && forall i :: 0 <= i < |maps| ==> maps[i].low <= maps[i].high < W && maps[i].space + Size(maps[i]) <= pSpace
  }

  /** Different addresses are kept in different places. */
  lemma {:induction false} PlacesDiffer(maps: seq<IOMap>, pSpace: nat, a: nat, b: nat)
    requires MapsOk(maps, pSpace) && SpacesApart(maps) && a != b && PlaceOf(maps, a) != Nowhere
    ensures PlaceOf(maps, a) != PlaceOf(maps, b)
  {
    var i, j := FindFrom(maps, a, 0), FindFrom(maps, b, 0);
  }

  /** In one region neighbours are neighbours. */
  lemma {:induction false} PlacesRun(maps: seq<IOMap>, a: nat, b: nat)
    requires SameRegion(maps, a, b) && a <= b
    ensures InPmem(a) ==> PlaceOf(maps, a) == Pmem(a - PMEM_BASE) && PlaceOf(maps, b) == Pmem(b - PMEM_BASE)
    ensures !InPmem(a) ==> var k := FindFrom(maps, a, 0);
              k < |maps| && b <= maps[k].high && PlaceOf(maps, a) == Io(maps[k].space + (a - maps[k].low))
              && PlaceOf(maps, b) == Io(maps[k].space + (a - maps[k].low) + (b - a))
  {
  }

  // ----- new_space -----------------------------------------------------------------------------------------------

  /** (size + (PAGE_SIZE - 1)) & ~PAGE_MASK */
  function PageUp(size: nat): (r: nat)
    ensures size <= r < size + 0x1000 && r % 0x1000 == 0
  {
    (size + 0xfff) / 0x1000 * 0x1000
  }

  /** The offsets given out for some sizes, and the offset after them. */
  function Spaces(p: nat, sizes: seq<nat>): seq<nat>
    decreases |sizes|
  {
    if sizes == [] then [] else [p] + Spaces(p + PageUp(sizes[0]), sizes[1..])
  }

  function SpacesEnd(p: nat, sizes: seq<nat>): nat
    decreases |sizes|
  {
    if sizes == [] then p else SpacesEnd(p + PageUp(sizes[0]), sizes[1..])
  }

  lemma {:induction false} SpacesFrom(p: nat, sizes: seq<nat>)
    ensures |Spaces(p, sizes)| == |sizes| && SpacesEnd(p, sizes) >= p
    ensures p % PAGE_SIZE == 0 ==> SpacesEnd(p, sizes) % PAGE_SIZE == 0
    ensures forall i :: 0 <= i < |sizes| ==> p <= Spaces(p, sizes)[i] && Spaces(p, sizes)[i] + sizes[i] <= SpacesEnd(p, sizes)
    decreases |sizes|
  {
    if sizes != [] {
      SpacesFrom(p + PageUp(sizes[0]), sizes[1..]);
    }
  }

  /** Spaces never overlap, and as long as no assertion failed a word can be read at the last byte of each. */
  lemma {:induction false} SpacesDisjoint(p: nat, sizes: seq<nat>, i: nat, j: nat)
    requires p % PAGE_SIZE == 0 && i <= j < |sizes| && SpacesEnd(p, sizes) < IO_SPACE_MAX
    ensures |Spaces(p, sizes)| == |sizes|
    ensures i < j ==> Spaces(p, sizes)[i] + sizes[i] <= Spaces(p, sizes)[j]
    ensures Spaces(p, sizes)[j] + sizes[j] + 3 < IO_SPACE_MAX
    decreases |sizes|
  {
    hide PageUp;
    SpacesFrom(p, sizes);
    RoomLeft(SpacesEnd(p, sizes));
    if i == 0 < j {
      SpacesFrom(p + PageUp(sizes[0]), sizes[1..]);
    } else if i > 0 {
      SpacesDisjoint(p + PageUp(sizes[0]), sizes[1..], i - 1, j - 1);
    }
  }

  lemma {:induction false} RoomLeft(p: nat)
    requires p % PAGE_SIZE == 0 && p < IO_SPACE_MAX
    ensures p + PAGE_SIZE <= IO_SPACE_MAX
  {
  }

  /** The space just given out is apart from those of all maps. */
  lemma {:induction false} NewMapApart(maps: seq<IOMap>, pSpace: nat, m: IOMap)
    requires MapsOk(maps, pSpace) && SpacesApart(maps) && pSpace <= m.space
    ensures SpacesApart(maps + [m])
  {
  }

  // ----- bytes of a word -----------------------------------------------------------------------------------------

  function Join(a: nat, b: nat, c: nat, d: nat): nat {
    a + 0x100 * b + 0x1_0000 * c + 0x100_0000 * d
  }

  /** ~0Lu >> ((8 - len) << 3) */
  function ReadMask(len: nat): nat
    requires len <= 8
  {
    Shr(Not(0, 64), (8 - len) * 8)
  }

  lemma {:induction false} ReadMaskIs(len: nat)
    requires len <= 8
    ensures ReadMask(len) == Pow2(8 * len) - 1
  {
    hide Pow2;
    Pow2Add(8 * len, (8 - len) * 8);
    OnesShifted(Pow2(8 * len), Pow2((8 - len) * 8));
  }

  lemma {:induction false} OnesShifted(a: nat, b: nat)
    requires a > 0 && b > 0
    ensures (a * b - 1) / b == a - 1
  {
    assert a * b - 1 == (a - 1) * b + (b - 1);
    MulMono(1, b, a);
    DivModUnique(a * b - 1, b, a - 1, b - 1);
  }

  lemma {:induction false} LowBytes(a: nat, b: nat, c: nat, d: nat)
    requires a < 0x100 && b < 0x100 && c < 0x100 && d < 0x100
    ensures Join(a, b, c, d) % 0x100 == a && Join(a, b, c, d) % 0x1_0000 == Join(a, b, 0, 0)
    ensures Join(a, b, c, d) < W && Join(a, b, c, d) % 0x100 == Join(a, 0, 0, 0)
  {
  }

  /** What map_read returns are the low len bytes. */
  lemma {:induction false} MaskKeepsBytes(w: nat, len: nat)
    requires w < W && (len == 1 || len == 2 || len == 4)
    ensures And(w, ReadMask(len)) == if len == 1 then w % 0x100 else if len == 2 then w % 0x1_0000 else w
  {
    hide And, Pow2, ReadMask;
    ReadMaskIs(len);
    AndMask(w, 8 * len);
    assert Pow2(8) == 0x100 && Pow2(16) == 0x1_0000 && Pow2(32) == W by {
      Pow2Values();
    }
  }

  // ----- the flat view -------------------------------------------------------------------------------------------

  datatype Buffers = Buffers(pmem: seq<Byte>, io: seq<Byte>)

  ghost predicate BufferOk(b: Buffers, maps: seq<IOMap>, pSpace: nat) {
    |b.pmem| == PMEM_SIZE && |b.io| == IO_SPACE_MAX && MapsOk(maps, pSpace) && pSpace + PAGE_SIZE <= IO_SPACE_MAX
  }

  predicate Fits(b: Buffers, p: Place) {
    (p.Pmem? && p.k < |b.pmem|) || (p.Io? && p.k < |b.io|)
  }

  function Get(b: Buffers, p: Place): Byte {
    if !Fits(b, p) then 0 else if p.Pmem? then b.pmem[p.k] else b.io[p.k]
  }

  function Put(b: Buffers, p: Place, x: Byte): Buffers {
    if !Fits(b, p) then b else if p.Pmem? then b.(pmem := b.pmem[p.k := x]) else b.(io := b.io[p.k := x])
  }

  /** The place i bytes on. */
  function Later(p: Place, i: nat): Place {
    match p
    case Pmem(k) => Pmem(k + i)
    case Io(k) => Io(k + i)
    case Nowhere => Nowhere
  }

  predicate Width(len: nat) {
    len == 1 || len == 2 || len == 4
  }

  /** The low len bytes from a place on, the lowest first. */
  function GetBytes(b: Buffers, p: Place, len: nat): nat
    requires Width(len)
  {
    if len == 1 then Get(b, p)
    else if len == 2 then Join(Get(b, p), Get(b, Later(p, 1)), 0, 0)
    else Join(Get(b, p), Get(b, Later(p, 1)), Get(b, Later(p, 2)), Get(b, Later(p, 3)))
  }

  /** The i-th byte of a word. */
  function Octet(v: Word, i: nat): Byte
    requires i < 4
  {
    (if i == 0 then v else if i == 1 then v / 0x100 else if i == 2 then v / 0x1_0000 else v / 0x100_0000) % 0x100
  }

  function PutBytes(b: Buffers, p: Place, v: Word, len: nat): Buffers
    requires Width(len)
  {
    var b1 := Put(b, p, Octet(v, 0));
    if len == 1 then b1
    else
      var b2 := Put(b1, Later(p, 1), Octet(v, 1));
      if len == 2 then b2 else Put(Put(b2, Later(p, 2), Octet(v, 2)), Later(p, 3), Octet(v, 3))
  }

  lemma {:induction false} StoreIs(m: Memory, a: nat, v: Word, len: nat)
    requires Width(len)
    ensures StoreBytes(m, a, v, len) ==
              if len == 1 then m[a := Octet(v, 0)]
              else if len == 2 then m[a := Octet(v, 0)][a + 1 := Octet(v, 1)]
              else m[a := Octet(v, 0)][a + 1 := Octet(v, 1)][a + 2 := Octet(v, 2)][a + 3 := Octet(v, 3)]
  {
  }

  /** One byte for every address that leads somewhere. */
  ghost function Flat(b: Buffers, maps: seq<IOMap>): Memory {
    map a: nat | 0 <= a < W && PlaceOf(maps, a) != Nowhere :: Get(b, PlaceOf(maps, a))
  }

  lemma {:induction false} FlatPut(b: Buffers, maps: seq<IOMap>, pSpace: nat, addr: nat, x: Byte)
    requires BufferOk(b, maps, pSpace) && SpacesApart(maps) && addr < W && PlaceOf(maps, addr) != Nowhere
    ensures Fits(b, PlaceOf(maps, addr))
    ensures Flat(Put(b, PlaceOf(maps, addr), x), maps) == Flat(b, maps)[addr := x]
    ensures BufferOk(Put(b, PlaceOf(maps, addr), x), maps, pSpace)
  {
    assert Fits(b, PlaceOf(maps, addr));
    hide MapsOk, FindFrom;
    forall a: nat | a != addr ensures PlaceOf(maps, a) != PlaceOf(maps, addr) {
      PlacesDiffer(maps, pSpace, addr, a);
    }
    hide PlaceOf, SpacesApart;
  }

  /** The bytes of an access that stays in one region lie one behind the other. */
  lemma {:induction false} Behind(maps: seq<IOMap>, pSpace: nat, addr: nat, len: nat)
    requires Width(len) && Inside(maps, addr, len) && MapsOk(maps, pSpace)
    ensures PlaceOf(maps, addr) != Nowhere && addr + len <= W
    ensures len > 1 ==> PlaceOf(maps, addr + 1) == Later(PlaceOf(maps, addr), 1)
    ensures len > 2 ==> PlaceOf(maps, addr + 2) == Later(PlaceOf(maps, addr), 2)
    ensures len > 2 ==> PlaceOf(maps, addr + 3) == Later(PlaceOf(maps, addr), 3)
  {
    PlacesRun(maps, addr, addr);
    if len > 1 {
      PlacesRun(maps, addr, addr + 1);
    }
    if len > 2 {
      PlacesRun(maps, addr, addr + 2);
      PlacesRun(maps, addr, addr + 3);
    }
    hide PlaceOf, SameRegion, SpacesApart;
  }

  /** Storing from the place of the first byte on is storing in the flat view. */
  lemma {:induction false} FlatPutBytes(b: Buffers, maps: seq<IOMap>, pSpace: nat, addr: nat, v: Word, len: nat)
    requires BufferOk(b, maps, pSpace) && SpacesApart(maps) && addr < W && Width(len) && Inside(maps, addr, len)
    ensures var p := PlaceOf(maps, addr);
            p != Nowhere && Flat(PutBytes(b, p, v, len), maps) == StoreBytes(Flat(b, maps), addr, v, len)
    ensures BufferOk(PutBytes(b, PlaceOf(maps, addr), v, len), maps, pSpace)
  {
    hide Flat, PlaceOf, BufferOk, MapsOk, SpacesApart, SameRegion, Put, Fits, Later, Octet, StoreBytes;
    assert MapsOk(maps, pSpace) by { OkParts(b, maps, pSpace); }
    Behind(maps, pSpace, addr, len);
    StoreIs(Flat(b, maps), addr, v, len);
    hide Inside;
    var p := PlaceOf(maps, addr);
    var b1 := Put(b, p, Octet(v, 0));
    FlatPut(b, maps, pSpace, addr, Octet(v, 0));
    if len > 1 {
      LaterSomewhere(p);
      FlatPut(b1, maps, pSpace, addr + 1, Octet(v, 1));
      if len > 2 {
        var b2 := Put(b1, Later(p, 1), Octet(v, 1));
        FlatPut(b2, maps, pSpace, addr + 2, Octet(v, 2));
        FlatPut(Put(b2, Later(p, 2), Octet(v, 2)), maps, pSpace, addr + 3, Octet(v, 3));
      }
    }
  }

  lemma {:induction false} OkParts(b: Buffers, maps: seq<IOMap>, pSpace: nat)
    requires BufferOk(b, maps, pSpace)
    ensures MapsOk(maps, pSpace)
  {
  }

  lemma {:induction false} LaterSomewhere(p: Place)
    requires p != Nowhere
    ensures Later(p, 1) != Nowhere && Later(p, 2) != Nowhere && Later(p, 3) != Nowhere
  {
  }

  lemma {:induction false} FlatGet(b: Buffers, maps: seq<IOMap>, addr: nat)
    requires addr < W
    ensures ByteAt(Flat(b, maps), addr) == Get(b, PlaceOf(maps, addr))
  {
  }

  /** Loading from the place of the first byte on is loading from the flat view. */
  lemma {:induction false} FlatGetBytes(b: Buffers, maps: seq<IOMap>, pSpace: nat, addr: nat, len: nat)
    requires MapsOk(maps, pSpace) && addr < W && Width(len) && Inside(maps, addr, len)
    ensures GetBytes(b, PlaceOf(maps, addr), len) == LoadBytes(Flat(b, maps), addr, len)
  {
    hide Flat, PlaceOf, MapsOk, Get, ByteAt, Later, SameRegion;
    Behind(maps, pSpace, addr, len);
    hide Inside;
    FlatGet(b, maps, addr);
    if len > 1 {
      FlatGet(b, maps, addr + 1);
    }
    if len > 2 {
      FlatGet(b, maps, addr + 2);
      FlatGet(b, maps, addr + 3);
    }
  }

  // ----- behind the emulator --------------------------------------------------------------------------------------

  /** The buffers and maps are what the emulator's flat memory and its device addresses stand for. */
  ghost predicate Serves(world: World, g: Global, b: Buffers, maps: seq<IOMap>, skipRef: bool) {
    && !g.dead && g.skipRef == skipRef
    && (forall a: nat :: a < W && !InPmem(a) ==> (world.mmio(a) <==> PlaceOf(maps, a) != Nowhere))
    && (forall a: nat :: a < W && PlaceOf(maps, a) != Nowhere ==> ByteAt(g.cpu.mem, a) == ByteAt(Flat(b, maps), a))
  }

  /** A load over the bus is the emulator's load, with the same failure and the same request to skip the reference. */
  lemma {:induction false} ServesLoad(world: World, g: Global, b: Buffers, maps: seq<IOMap>, pSpace: nat, skipRef: bool, addr: nat, len: nat)
    requires Serves(world, g, b, maps, skipRef) && MapsOk(maps, pSpace) && addr < W && Width(len)
    ensures Touch(world, g, addr).dead <==> PlaceOf(maps, addr) == Nowhere
    ensures PlaceOf(maps, addr) != Nowhere ==>
              Serves(world, Touch(world, g, addr), b, maps, skipRef || PlaceOf(maps, addr).Io?)
    ensures Inside(maps, addr, len) ==> LoadBytes(g.cpu.mem, addr, len) == LoadBytes(Flat(b, maps), addr, len)
  {
    if Inside(maps, addr, len) {
      Behind(maps, pSpace, addr, len);
    }
    hide Flat, SpacesApart;
  }

  /** So is a store. */
  lemma {:induction false} ServesStore(world: World, g: Global, b: Buffers, b': Buffers, maps: seq<IOMap>, pSpace: nat, skipRef: bool,
                                       addr: nat, v: Word, len: nat)
    requires Serves(world, g, b, maps, skipRef) && MapsOk(maps, pSpace) && addr < W && Width(len) && Inside(maps, addr, len)
    requires Flat(b', maps) == StoreBytes(Flat(b, maps), addr, v, len)
    ensures !Touch(world, g, addr).dead
    ensures var g1 := Touch(world, g, addr);
      Serves(world, g1.(cpu := g1.cpu.(mem := StoreBytes(g1.cpu.mem, addr, v, len))), b', maps, skipRef || PlaceOf(maps, addr).Io?)
  {
    ServesLoad(world, g, b, maps, pSpace, skipRef, addr, len);
    Behind(maps, pSpace, addr, len);
    StoreIs(g.cpu.mem, addr, v, len);
    StoreIs(Flat(b, maps), addr, v, len);
    hide Flat, PlaceOf, StoreBytes, Inside, Octet;
  }

  // ----- devices --------------------------------------------------------------------------------------------------

  /** What the init function of a device asks for: pages of io_space behind a range of addresses. */
  datatype Device = Device(addr: nat, size: nat, callback: bool)

  predicate DeviceOk(d: Device) {
    0 < d.size && d.addr + d.size <= W
  }

  function SizesOf(devices: seq<Device>): seq<nat> {
    seq(|devices|, i requires 0 <= i < |devices| => devices[i].size)
  }

  function MapFor(d: Device, space: nat): IOMap
    requires DeviceOk(d)
  {
    IOMap(d.addr, d.addr + d.size - 1, space, d.callback)
  }

  /** The spaces that new_space gives out one after the other, each behind the addresses of its device. */
  function MapsFor(devices: seq<Device>, spaces: seq<nat>): seq<IOMap>
    requires |spaces| == |devices| && forall d :: d in devices ==> DeviceOk(d)
  {
    seq(|devices|, i requires 0 <= i < |devices| => MapFor(devices[i], spaces[i]))
  }

  lemma {:induction false} SpacesSnoc(p: nat, sizes: seq<nat>, size: nat)
    ensures Spaces(p, sizes + [size]) == Spaces(p, sizes) + [SpacesEnd(p, sizes)]
    ensures SpacesEnd(p, sizes + [size]) == SpacesEnd(p, sizes) + PageUp(size)
    ensures |Spaces(p, sizes)| == |sizes|
    decreases |sizes|
  {
    var all := sizes + [size];
    if sizes == [] {
      assert all == [size] && all[1..] == [];
    } else {
      assert all[0] == sizes[0] && all[1..] == sizes[1..] + [size];
      SpacesSnoc(p + PageUp(sizes[0]), sizes[1..], size);
    }
  }

  lemma {:induction false} EndGrows(p: nat, sizes: seq<nat>, n: nat)
    requires n <= |sizes|
    ensures SpacesEnd(p, sizes[..n]) <= SpacesEnd(p, sizes)
    decreases |sizes| - n
  {
    if n < |sizes| {
      assert sizes[..n + 1] == sizes[..n] + [sizes[n]];
      SpacesSnoc(p, sizes[..n], sizes[n]);
      EndGrows(p, sizes, n + 1);
    } else {
      assert sizes[..n] == sizes;
    }
  }

  lemma {:induction false} SizeOfUp(size: nat)
    ensures size <= PageUp(size)
  {
  }

  lemma {:induction false} NoDevices(p: nat)
    ensures SizesOf([]) == [] && Spaces(p, []) == [] && SpacesEnd(p, []) == p && MapsFor([], []) == []
  {
  }

  /** One device more. */
  lemma {:induction false} OneDevice(p: nat, devices: seq<Device>, n: nat)
    requires n < |devices| && forall d :: d in devices ==> DeviceOk(d)
    ensures var d, some, more := devices[n], devices[..n], devices[..n + 1];
      && DeviceOk(d) && |Spaces(p, SizesOf(some))| == n && |Spaces(p, SizesOf(more))| == n + 1
      && SpacesEnd(p, SizesOf(more)) == SpacesEnd(p, SizesOf(some)) + PageUp(d.size) <= SpacesEnd(p, SizesOf(devices))
      && MapsFor(more, Spaces(p, SizesOf(more)))
         == MapsFor(some, Spaces(p, SizesOf(some))) + [MapFor(d, SpacesEnd(p, SizesOf(some)))]
  {
    var d, some, more := devices[n], devices[..n], devices[..n + 1];
    assert SizesOf(more) == SizesOf(some) + [d.size];
    SpacesSnoc(p, SizesOf(some), d.size);
    assert SizesOf(devices)[..n + 1] == SizesOf(more);
    EndGrows(p, SizesOf(devices), n + 1);
    hide Spaces, SpacesEnd, PageUp, DeviceOk;
    assert d in devices;
  }

  /** Callbacks write inside io_space. */
  ghost predicate KeepsLength<Own(!new)>(handler: (Own, nat, nat, nat, bool, seq<Byte>) -> (Own, seq<Byte>)) {
    forall own: Own, i: nat, offset: nat, len: nat, isWrite: bool, io: seq<Byte> ::
      |handler(own, i, offset, len, isWrite, io).1| == |io|
  }

  // ----- the code ------------------------------------------------------------------------------------------------

  /** Own is the state that the devices keep for themselves, such as queues and counters. */
  class Memories<Own(!new)> {
    const pmem: array<Byte>
    const ioSpace: array<Byte>
    var pSpace: nat
    var maps: seq<IOMap>
    var skipRef: bool
    var own: Own

    /** What the callback of a map does to the devices and to io_space: from the map, the offset, the length and whether
        it is a write. */
    const handler: (Own, nat, nat, nat, bool, seq<Byte>) -> (Own, seq<Byte>)

    ghost predicate Valid()
      reads this, pmem, ioSpace
    {
      pmem != ioSpace && BufferOk(Contents(), maps, pSpace) && pSpace % PAGE_SIZE == 0 && KeepsLength(handler)
    }

    ghost function Contents(): Buffers
      reads this, pmem, ioSpace
    {
      Buffers(pmem[..], ioSpace[..])
    }

    /** The buffers as they come, and no map. */
    constructor (own: Own, handler: (Own, nat, nat, nat, bool, seq<Byte>) -> (Own, seq<Byte>))
      requires KeepsLength(handler)
      ensures Valid() && maps == [] && pSpace == 0 && fresh(pmem) && fresh(ioSpace)
      ensures this.own == own && this.handler == handler
    {
      this.own, this.handler := own, handler;
      pmem := new Byte[PMEM_SIZE];
      ioSpace := new Byte[IO_SPACE_MAX];
      pSpace, maps, skipRef := 0, [], false;
    }

    /** The memory a program sees. */
    ghost function View(): Memory
      reads this, pmem, ioSpace
    {
      Flat(Contents(), maps)
    }

    /** new_space: the next pages of io_space, if a page is left behind them. */
    method NewSpace(size: nat) returns (ok: bool, p: nat)
      requires Valid()
      modifies this`pSpace
      ensures ok == (old(pSpace) + PageUp(size) < 2 * 1024 * 1024) && (ok ==> Valid())
      ensures p == old(pSpace) && pSpace == old(pSpace) + PageUp(size)
    {
      p := pSpace;
      pSpace := pSpace + PageUp(size);
      ok := pSpace < IO_SPACE_MAX;
    }

    /** add_mmio_map, for a space that new_space gave out. */
    method AddMmioMap(addr: nat, space: nat, len: nat, callback: bool) returns (ok: bool)
      requires Valid() && 0 < len && addr + len <= W && space + len <= pSpace
      modifies this`maps
      ensures Valid() && ok == (|old(maps)| < 16)
      ensures maps == if ok then old(maps) + [IOMap(addr, addr + len - 1, space, callback)] else old(maps)
    {
      ok := |maps| < NR_MAP;
      if ok {
        maps := maps + [IOMap(addr, addr + len - 1, space, callback)];
      }
    }

    /** What the init function of a device does: it maps the space it has just been given. */
    method InitDevice(d: Device) returns (ok: bool)
      requires Valid() && DeviceOk(d)
      modifies this`pSpace, this`maps
      ensures ok <==> |old(maps)| < NR_MAP && old(pSpace) + PageUp(d.size) < IO_SPACE_MAX
      ensures ok ==> Valid() && pSpace == old(pSpace) + PageUp(d.size) && maps == old(maps) + [MapFor(d, old(pSpace))]
      ensures ok && SpacesApart(old(maps)) ==> SpacesApart(maps)
    {
      ghost var maps0 := maps;
      if SpacesApart(maps0) {
        NewMapApart(maps0, pSpace, MapFor(d, pSpace));
      }
      hide SpacesApart, PageUp;
      var space;
      ok, space := NewSpace(d.size);
      if ok {
        SizeOfUp(d.size);
        ok := AddMmioMap(d.addr, space, d.size, d.callback);
      }
    }

    /** All of them, one after the other: the regions are those of Spaces, and spaces that were apart stay apart. */
    method InitDevices(devices: seq<Device>) returns (ok: bool)
      requires Valid() && forall d :: d in devices ==> DeviceOk(d)
      modifies this`pSpace, this`maps
      ensures ok <==> |old(maps)| + |devices| <= NR_MAP && SpacesEnd(old(pSpace), SizesOf(devices)) < IO_SPACE_MAX
      ensures ok ==> Valid() && pSpace == SpacesEnd(old(pSpace), SizesOf(devices))
      ensures ok ==> var spaces := Spaces(old(pSpace), SizesOf(devices));
        |spaces| == |devices| && maps == old(maps) + MapsFor(devices, spaces)
      ensures ok && SpacesApart(old(maps)) ==> SpacesApart(maps)
    {
      ghost var p, maps0 := pSpace, maps;
      NoDevices(p);
      EndGrows(p, SizesOf(devices), 0);
      hide SpacesApart, PageUp, Spaces, SpacesEnd, SizesOf, MapsFor, MapFor, MapsOk, DeviceOk;
      var n := 0;
      ok := true;
      assert maps0 + [] == maps0 && devices[..0] == [];
      while n < |devices|
        invariant n <= |devices| && Valid() && ok && |maps| == |maps0| + n <= NR_MAP && pSpace < IO_SPACE_MAX
        invariant pSpace == SpacesEnd(p, SizesOf(devices[..n])) && |Spaces(p, SizesOf(devices[..n]))| == n
        invariant maps == maps0 + MapsFor(devices[..n], Spaces(p, SizesOf(devices[..n])))
        invariant SpacesApart(maps0) ==> SpacesApart(maps)
      {
        OneDevice(p, devices, n);
        ok := InitDevice(devices[n]);
        if !ok {
          return;
        }
        n := n + 1;
      }
      assert devices[..n] == devices;
    }

    /** fetch_mmio_map: a map that is found also tells difftest to skip the reference. */
    method FetchMmioMap(addr: nat) returns (i: nat)
      requires Valid()
      modifies this`skipRef
      ensures i == FindFrom(maps, addr, 0) && skipRef == (old(skipRef) || i < |maps|)
    {
      i := 0;
      while i < |maps|
        invariant i <= |maps| && FindFrom(maps, addr, 0) == FindFrom(maps, addr, i) && skipRef == old(skipRef)
      {
        if MapInside(maps[i], addr) {
          skipRef := true;
          return;
        }
        i := i + 1;
      }
    }

    method PmemRead(addr: nat, len: nat) returns (v: nat)
      requires Valid() && Width(len) && InPmem(addr) && InPmem(addr + len - 1)
      ensures v == GetBytes(Contents(), Pmem(addr - PMEM_BASE), len)
    {
      var p := addr - PMEM_BASE;
      if len == 1 {
        v := pmem[p];
      } else if len == 2 {
        v := Join(pmem[p], pmem[p + 1], 0, 0);
      } else {
        v := Join(pmem[p], pmem[p + 1], pmem[p + 2], pmem[p + 3]);
      }
    }

    method PmemWrite(addr: nat, data: Word, len: nat)
      requires Valid() && Width(len) && InPmem(addr) && InPmem(addr + len - 1)
      modifies pmem
      ensures Contents() == PutBytes(old(Contents()), Pmem(addr - PMEM_BASE), data, len)
    {
      Memcpy(pmem, addr - PMEM_BASE, data, len);
      PutIsStored(old(Contents()), Pmem(addr - PMEM_BASE), data, len);
    }

    /** invoke_callback: the device is told what is done to it, and may change itself and io_space. */
    method InvokeCallback(i: nat, offset: nat, len: nat, isWrite: bool)
      requires Valid() && i < |maps|
      modifies this`own, ioSpace
      ensures Valid()
      ensures if maps[i].callback then (own, ioSpace[..]) == handler(old(own), i, offset, len, isWrite, old(ioSpace[..]))
              else own == old(own) && ioSpace[..] == old(ioSpace[..])
    {
      if maps[i].callback {
        var y := handler(own, i, offset, len, isWrite, ioSpace[..]);
        own := y.0;
        forall k | 0 <= k < ioSpace.Length {
          ioSpace[k] := y.1[k];
        }
        assert ioSpace[..] == y.1 && pmem[..] == old(pmem[..]);
      }
    }

    /** The i-th map was looked up for addr; nothing is read when there was none.  The callback prepares the bytes.  The
        word read goes up to 3 bytes past the byte at addr, whatever len is. */
    method MapRead(addr: nat, len: nat, i: nat) returns (ok: bool, v: nat)
      requires Valid() && Width(len) && i == FindFrom(maps, addr, 0) && !InPmem(addr)
      modifies this`own, ioSpace
      ensures Valid() && ok == (i < |maps|)
      ensures if ok && maps[i].callback
              then (own, ioSpace[..]) == handler(old(own), i, addr - maps[i].low, len, false, old(ioSpace[..]))
              else own == old(own) && ioSpace[..] == old(ioSpace[..])
      ensures ok ==> v == GetBytes(Contents(), PlaceOf(maps, addr), len)
    {
      ok := i < |maps|;
      if !ok {
        v := 0;
        return;
      }
      var offset := addr - maps[i].low;
      InvokeCallback(i, offset, len, false);
      var k := maps[i].space + offset;
      assert k + 4 <= ioSpace.Length && PlaceOf(maps, addr) == Io(k);
      v := ReadWord(k, len);
    }

    /** *(word_t *)(space + offset) & mask */
    method ReadWord(k: nat, len: nat) returns (v: nat)
      requires k + 4 <= ioSpace.Length && Width(len)
      ensures v == GetBytes(Contents(), Io(k), len)
    {
      hide And, ReadMask, Join;
      var a, b, c, d := ioSpace[k], ioSpace[k + 1], ioSpace[k + 2], ioSpace[k + 3];
      LowBytes(a, b, c, d);
      MaskKeepsBytes(Join(a, b, c, d), len);
      v := And(Join(a, b, c, d), ReadMask(len));
    }

    method MapWrite(addr: nat, data: Word, len: nat, i: nat) returns (ok: bool)
      requires Valid() && Width(len) && i == FindFrom(maps, addr, 0) && !InPmem(addr)
      modifies this`own, ioSpace
      ensures Valid() && ok == (i < |maps|)
      ensures !ok ==> own == old(own) && ioSpace[..] == old(ioSpace[..])
      ensures ok ==>
        && PutBytes(old(Contents()), PlaceOf(maps, addr), data, len).pmem == old(pmem[..])
        && var io := PutBytes(old(Contents()), PlaceOf(maps, addr), data, len).io;
           if maps[i].callback then (own, ioSpace[..]) == handler(old(own), i, addr - maps[i].low, len, true, io)
           else own == old(own) && ioSpace[..] == io
    {
      ok := i < |maps|;
      if !ok {
        return;
      }
      var offset := addr - maps[i].low;
      Memcpy(ioSpace, maps[i].space + offset, data, len);
      PutIsStored(old(Contents()), PlaceOf(maps, addr), data, len);
      InvokeCallback(i, offset, len, true);
    }

    /** An address whose map, if it has one, has no callback. */
    predicate Quiet(addr: nat)
      reads this
    {
      var i := FindFrom(maps, addr, 0);
      InPmem(addr) || i == |maps| || !maps[i].callback
    }

    /** paddr_read is a load from the flat view, which a callback may first have changed, and asks to skip the reference
        exactly for device addresses. */
    method PaddrRead(addr: nat, len: nat) returns (ok: bool, v: nat)
      requires Valid() && addr < W && Width(len) && (InPmem(addr) ==> InPmem(addr + len - 1))
      modifies this`own, this`skipRef, ioSpace
      ensures Valid() && ok == (PlaceOf(maps, addr) != Nowhere)
      ensures ok && Inside(maps, addr, len) ==> v == LoadBytes(View(), addr, len)
      ensures pmem[..] == old(pmem[..])
      ensures Quiet(addr) ==> own == old(own) && ioSpace[..] == old(ioSpace[..])
      ensures !Quiet(addr) ==> var i := FindFrom(maps, addr, 0);
        (own, ioSpace[..]) == handler(old(own), i, addr - maps[i].low, len, false, old(ioSpace[..]))
      ensures skipRef == (old(skipRef) || PlaceOf(maps, addr).Io?)
    {
      hide LoadBytes, GetBytes, Flat, Inside, MapsOk;
      if InPmem(addr) {
        ok := true;
        v := PmemRead(addr, len);
      } else {
        var i := FetchMmioMap(addr);
        ok, v := MapRead(addr, len, i);
      }
      if ok && Inside(maps, addr, len) {
        FlatGetBytes(Contents(), maps, pSpace, addr, len);
      }
    }

    /** paddr_write is a store to the flat view, after which a callback may change it; if two maps share bytes, the store
        shows at both. */
    method PaddrWrite(addr: nat, data: Word, len: nat) returns (ok: bool)
      requires Valid() && addr < W && Width(len) && (InPmem(addr) ==> InPmem(addr + len - 1))
      modifies this`own, this`skipRef, pmem, ioSpace
      ensures Valid() && ok == (PlaceOf(maps, addr) != Nowhere)
      ensures ok && Inside(maps, addr, len) && SpacesApart(maps) && Quiet(addr) ==>
        View() == StoreBytes(old(View()), addr, data, len)
      ensures InPmem(addr) ==>
        && pmem[..] == Stored(old(pmem[..]), addr - PMEM_BASE, data, len)
        && own == old(own) && ioSpace[..] == old(ioSpace[..])
      ensures !InPmem(addr) && ok ==> var i := FindFrom(maps, addr, 0);
        && pmem[..] == old(pmem[..])
        && var io := Stored(old(ioSpace[..]), maps[i].space + addr - maps[i].low, data, len);
           if maps[i].callback then (own, ioSpace[..]) == handler(old(own), i, addr - maps[i].low, len, true, io)
           else own == old(own) && ioSpace[..] == io
      ensures !ok ==> own == old(own) && Contents() == old(Contents())
      ensures skipRef == (old(skipRef) || PlaceOf(maps, addr).Io?)
    {
      hide StoreBytes, PutBytes, Flat, Inside, SpacesApart, Stored;
      ghost var b := Contents();
      if InPmem(addr) {
        ok := true;
        PmemWrite(addr, data, len);
        PutIsStored(b, PlaceOf(maps, addr), data, len);
      } else {
        var i := FetchMmioMap(addr);
        ok := MapWrite(addr, data, len, i);
        if ok {
          PutIsStored(b, PlaceOf(maps, addr), data, len);
        }
      }
      if ok && Inside(maps, addr, len) && SpacesApart(maps) && Quiet(addr) {
        FlatPutBytes(b, maps, pSpace, addr, data, len);
      }
    }
  }

  /** What a buffer holds after len bytes of data, the lowest first, have been copied to k. */
  function Stored(s: seq<Byte>, k: nat, data: Word, len: nat): seq<Byte>
    requires Width(len) && k + len <= |s|
  {
    s[..k] + [data % 0x100, data / 0x100 % 0x100, data / 0x1_0000 % 0x100, data / 0x100_0000 % 0x100][..len] + s[k + len..]
  }

  lemma {:induction false} PutIsStored(b: Buffers, p: Place, v: Word, len: nat)
    requires Width(len)
    ensures p.Pmem? && p.k + len <= |b.pmem| ==> PutBytes(b, p, v, len) == Buffers(Stored(b.pmem, p.k, v, len), b.io)
    ensures p.Io? && p.k + len <= |b.io| ==> PutBytes(b, p, v, len) == Buffers(b.pmem, Stored(b.io, p.k, v, len))
  {
  }

  /** The low len bytes of data, the lowest first, at k. */
  method Memcpy(a: array<Byte>, k: nat, data: Word, len: nat)
    requires Width(len) && k + len <= a.Length
    modifies a
    ensures a[..] == Stored(old(a[..]), k, data, len)
  {
    a[k] := Octet(data, 0);
    if len > 1 {
      a[k + 1] := Octet(data, 1);
    }
    if len > 2 {
      a[k + 2] := Octet(data, 2);
      a[k + 3] := Octet(data, 3);
    }
  }
}

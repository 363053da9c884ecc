/** The table-driven page-table geometry of abstract-machine/am/src/x86/qemu/vme.c, and what the
    hardware makes of the tables (32-bit paging and 4-level paging, sections 4.3 and 4.5 of
    volume 3A of the Intel SDM). */
module Paging {
  import opened Bits

  const PTE_P: nat := 1
  const PTE_W: nat := 2
  const PTE_U: nat := 4

  /** One row of mmu.pgtables. */
  datatype PtInfo = PtInfo(mask: nat, shift: nat, bits: nat)

  /** One row of vm_areas; an end of 0 stands for the top of the address space. */
  datatype VmArea = VmArea(start: nat, end: nat, kernel: bool)

  /** mmu_config and vm_areas, for a machine with words of `width` bits. */
  datatype Config = Config(width: nat, ptlevels: nat, pgtables: seq<PtInfo>, areas: seq<VmArea>) {

    /** Bits of a virtual address that paging looks at. */
    function AddrBits(): nat
      requires ptlevels >= 1 && |pgtables| == ptlevels + 1
    {
      pgtables[1].shift + pgtables[1].bits
    }

    /** Each level takes the bits right below those of the level above, down to the page offset. */
    ghost predicate LevelsOk() {
      && ptlevels >= 1 && |pgtables| == ptlevels + 1
      && pgtables[0] == PtInfo(0, 0, 0)
      && pgtables[ptlevels].shift == 12
      && (forall l :: 1 <= l < ptlevels ==> pgtables[l].shift == pgtables[l + 1].shift + pgtables[l + 1].bits)
      && (forall l :: 1 <= l <= ptlevels ==> pgtables[l].shift >= 12)
      && (forall l :: 1 <= l <= ptlevels ==> pgtables[l].mask == (Pow2(pgtables[l].bits) - 1) * Pow2(pgtables[l].shift))
      && AddrBits() <= width && AddrBits() <= 52
      && width > 12 && width % 8 == 0
      && (forall l :: 1 <= l <= ptlevels ==> Pow2(pgtables[l].bits) == PageEntries())
    }

    /** Words in a page. */
    function PageEntries(): nat {
      if width < 8 then 0 else 4096 / (width / 8)
    }

    /** Where an area ends, with 0 read as the top. */
    function Top(a: VmArea): nat {
      if a.end == 0 then Pow2(width) else a.end
    }

    /** The first area is the user area, the others the kernel's; all are made of whole level-1
        entries, and the user area meets no other. */
    ghost predicate AreasOk()
      requires LevelsOk()
    {
      var big := Pow2(pgtables[1].shift);
      && |areas| >= 1 && !areas[0].kernel && areas[0].end != 0
      && (forall i :: 1 <= i < |areas| ==> areas[i].kernel)
      && (forall a :: a in areas ==> a.start < Top(a) <= Pow2(AddrBits()) && a.start % big == 0 && Top(a) % big == 0)
      && (forall a :: a in areas ==> a.end < Pow2(width) && (a.end == 0 ==> a.start > 0))
      && (forall i :: 1 <= i < |areas| ==> Top(areas[i]) <= areas[0].start || Top(areas[0]) <= areas[i].start)
    }

    ghost predicate Valid() {
      LevelsOk() && AreasOk()
    }
  }

  /** The two configurations compiled from the file. */
  const X86: Config := Config(32, 2,
    [PtInfo(0, 0, 0), PtInfo(0xffc0_0000, 22, 10), PtInfo(0x003f_f000, 12, 10)],
    [VmArea(0x4000_0000, 0x8000_0000, false), VmArea(0, 0x4000_0000, true), VmArea(0xfd00_0000, 0, true)])

  const X86_64: Config := Config(64, 4,
    [PtInfo(0, 0, 0), PtInfo(0xff80_0000_0000, 39, 9), PtInfo(0x007f_c000_0000, 30, 9),
     PtInfo(0x3fe0_0000, 21, 9), PtInfo(0x001f_f000, 12, 9)],
    [VmArea(0x1000_0000_0000, 0x1080_0000_0000, false), VmArea(0, 0x0080_0000_0000, true)])

  lemma {:induction false} PagingPowers()
    ensures Pow2(9) == 512 && Pow2(10) == 1024 && Pow2(12) == 4096 && Pow2(21) == 0x20_0000
    ensures Pow2(22) == 0x40_0000 && Pow2(30) == 0x4000_0000 && Pow2(32) == 0x1_0000_0000
    ensures Pow2(39) == 0x80_0000_0000 && Pow2(48) == 0x1_0000_0000_0000
  {
    Pow2Values();
    Pow2Add(10, 12);
    Pow2Add(10, 20);
    Pow2Add(30, 9);
    Pow2Add(39, 9);
  }

  lemma {:induction false} X86Valid()
    ensures X86.Valid()
  {
    X86Levels();
    PagingPowers();
    hide Pow2;
  }

  lemma {:induction false} X86Levels()
    ensures X86.LevelsOk()
  {
    PagingPowers();
    hide Pow2;
  }

  lemma {:induction false} X86_64Valid()
    ensures X86_64.Valid()
  {
    X86_64Levels();
    PagingPowers();
    Pow2Mono(48, 64);
    hide Pow2, Config.LevelsOk;
  }

  lemma {:induction false} X86_64Levels()
    ensures X86_64.LevelsOk()
  {
    PagingPowers();
    hide Pow2;
  }

  // ----- indices and paths --------------------------------------------------------------------------

  /** The source's indexof. */
  function IndexOf(addr: nat, info: PtInfo): nat {
    Shr(And(addr, info.mask), info.shift)
  }

  /** The source's baseof on words of `width` bits. */
  function BaseOf(addr: nat, width: nat): nat
    requires width > 12
  {
    And(addr, BaseMask(width))
  }

  function BaseMask(width: nat): nat
    requires width > 12
  {
    Pow2Mono(12, width);
    PagingPowers();
    Pow2(width) - 4096
  }

  /** The bits of a linear address that select the entry at level l. */
  function Slot(cfg: Config, l: nat, va: nat): nat
    requires l < |cfg.pgtables|
  {
    Remainder(Quotient(va, Pow2(cfg.pgtables[l].shift)), Pow2(cfg.pgtables[l].bits))
  }

  lemma {:induction false} IndexOfIsSlot(cfg: Config, l: nat, va: nat)
    requires cfg.LevelsOk() && l <= cfg.ptlevels
    ensures l >= 1 ==> IndexOf(va, cfg.pgtables[l]) == Slot(cfg, l, va) < cfg.PageEntries()
    ensures l == 0 ==> IndexOf(va, cfg.pgtables[l]) == 0
  {
    var info := cfg.pgtables[l];
    if l == 0 {
      AndZero(va);
    } else {
      AndField(va, info.bits, info.shift);
      hide And;
      DivMulAdd(Slot(cfg, l, va), Pow2(info.shift), 0);
    }
  }

  /** The slots an address goes through, from the root down. */
  function Path(cfg: Config, va: nat): (p: seq<nat>)
    requires |cfg.pgtables| == cfg.ptlevels + 1
    ensures |p| == cfg.ptlevels
  {
    seq(cfg.ptlevels, i requires 0 <= i < cfg.ptlevels => Slot(cfg, i + 1, va))
  }

  lemma {:induction false} PathIndex(cfg: Config, l: nat, va: nat)
    requires cfg.LevelsOk() && l <= cfg.ptlevels
    ensures l >= 1 ==> IndexOf(va, cfg.pgtables[l]) == Path(cfg, va)[l - 1] < cfg.PageEntries()
  {
    IndexOfIsSlot(cfg, l, va);
  }

  lemma {:induction false} SlotBound(cfg: Config, l: nat, va: nat)
    requires cfg.LevelsOk() && 1 <= l <= cfg.ptlevels
    ensures Slot(cfg, l, va) < cfg.PageEntries()
  {
  }

  /** Page addresses below 2^AddrBits are told apart by their paths. */
  lemma {:induction false} PathInjective(cfg: Config, va: nat, va': nat)
    requires cfg.LevelsOk()
    requires va < Pow2(cfg.AddrBits()) && va' < Pow2(cfg.AddrBits())
    requires va % 4096 == 0 && va' % 4096 == 0 && Path(cfg, va) == Path(cfg, va')
    ensures va == va'
  {
    PrefixDetermines(cfg, va, va', cfg.ptlevels);
    PagingPowers();
    assert va / 4096 * 4096 == va && va' / 4096 * 4096 == va';
  }

  /** Equal slots down to level l mean equal address bits down to that level. */
  lemma {:induction false} PrefixDetermines(cfg: Config, va: nat, va': nat, l: nat)
    requires cfg.LevelsOk() && 1 <= l <= cfg.ptlevels
    requires va < Pow2(cfg.AddrBits()) && va' < Pow2(cfg.AddrBits())
    requires Path(cfg, va) == Path(cfg, va')
    ensures va / Pow2(cfg.pgtables[l].shift) == va' / Pow2(cfg.pgtables[l].shift)
  {
    var info := cfg.pgtables[l];
    var s, b := Pow2(info.shift), Pow2(info.bits);
    assert Path(cfg, va)[l - 1] == Path(cfg, va')[l - 1];
    assert va / s % b == va' / s % b;
    Pow2Add(info.shift, info.bits);
    DivDiv(va, s, b);
    DivDiv(va', s, b);
    if l == 1 {
      SmallQuotient(va, s * b);
      SmallQuotient(va', s * b);
    } else {
      PrefixDetermines(cfg, va, va', l - 1);
    }
    assert va / s / b == va' / s / b;
    RebuildQuotient(va / s, va' / s, b);
  }

  lemma {:induction false} SmallQuotient(x: nat, d: nat)
    requires x < d
    ensures x / d == 0
  {
  }

  lemma {:induction false} RebuildQuotient(x: nat, y: nat, b: nat)
    requires b > 0 && x / b == y / b && x % b == y % b
    ensures x == y
  {
    assert x == x / b * b + x % b && y == y / b * b + y % b;
  }

  // ----- entries --------------------------------------------------------------------------------------

  predicate Present(e: nat) {
    e % 2 == 1
  }

  predicate Writable(e: nat) {
    e / 2 % 2 == 1
  }

  predicate User(e: nat) {
    e / 4 % 2 == 1
  }

  /** The page-size bit of an entry above the last level. */
  predicate Large(e: nat) {
    e / 128 % 2 == 1
  }

  function PageOf(e: nat): nat {
    e / 4096 * 4096
  }

  /** Physical addresses have at most 52 bits; the bits of a 64-bit entry above them are no address bits. */
  const PHYS_TOP: nat := 0x10_0000_0000_0000

  /** The frame or table the hardware takes from an entry. */
  function FrameOf(e: nat): nat {
    PageOf(Remainder(e, PHYS_TOP))
  }

  /** An entry as ptwalk makes it. */
  function Link(page: nat, flags: nat): nat {
    Or(Or(page, PTE_P), flags)
  }

  /** An entry as map makes it. */
  function UserPte(pa: nat, writable: bool): nat {
    Or(Or(Or(pa, PTE_P), PTE_U), if writable then PTE_W else 0)
  }

  predicate LinkFlags(flags: nat) {
    flags == PTE_W || flags == Or(PTE_W, PTE_U)
  }

  ghost predicate IsPage(page: nat, width: nat) {
    0 < page < Pow2(width) && page < PHYS_TOP && page % 4096 == 0
  }

  lemma {:induction false} FlagTests(e: nat)
    ensures And(e, PTE_P) != 0 <==> Present(e)
    ensures And(e, PTE_U) != 0 <==> User(e)
    ensures And(e, PTE_W) != 0 <==> Writable(e)
  {
    assert Pow2(1) == 2 && Pow2(2) == 4;
    AndField(e, 1, 0);
    AndField(e, 1, 1);
    AndField(e, 1, 2);
  }

  lemma {:induction false} BaseOfMeaning(e: nat, width: nat)
    requires width > 12 && e < Pow2(width)
    ensures BaseOf(e, width) == PageOf(e)
  {
    Pow2Add(width - 12, 12);
    PagingPowers();
    var p := Pow2(width - 12);
    AndField(e, width - 12, 12);
    assert (p - 1) * 4096 == BaseMask(width);
    DivLess(e, 4096, p);
    SmallRemainder(e / 4096, p);
  }

  lemma {:induction false} SmallRemainder(x: nat, p: nat)
    requires x < p
    ensures x % p == x
  {
  }

  /** Or-ing low flag bits onto a page address. */
  lemma {:induction false} OrFlags(page: nat, low: nat, flag: nat)
    requires page % 4096 == 0 && low < 8 && flag < 8
    ensures Or(page + low, flag) == page + Or(low, flag) && Or(low, flag) < 8
  {
    var m := page / 4096;
    OrUnderPage(m, low, flag);
    OrBound3(low, flag);
  }

  lemma {:induction false} OrUnderPage(m: nat, low: nat, flag: nat)
    requires low < 8 && flag < 8
    ensures Or(4096 * m + low, flag) == 4096 * m + Or(low, flag)
  {
    var h := 512 * m;
    assert Or(h, 0) == h && Or(0, 0) == 0;
    hide Or;
    assert low / 2 / 2 / 2 == 0 && flag / 2 / 2 / 2 == 0;
    OrStepAbove(h, low / 2 / 2, flag / 2 / 2);
    OrStepAbove(2 * h, low / 2, flag / 2);
    OrStepAbove(4 * h, low, flag);
  }

  lemma {:induction false} OrBound3(x: nat, y: nat)
    requires x < 8 && y < 8
    ensures Or(x, y) < 8
  {
    assert Pow2(3) == 8;
    OrBound(x, y, 3);
  }

  lemma {:induction false} LinkBits(page: nat, flags: nat, width: nat)
    requires width > 12 && page < Pow2(width) && page % 4096 == 0 && LinkFlags(flags)
    ensures var e := Link(page, flags);
      && Present(e) && Writable(e) && !Large(e) && (User(e) <==> flags == Or(PTE_W, PTE_U))
      && PageOf(e) == BaseOf(e, width) == page && e < Pow2(width)
      && (page < PHYS_TOP ==> FrameOf(e) == page)
  {
    FrameAbove(page, 1 + flags);
    assert Or(PTE_W, PTE_U) == 6 && Or(0, PTE_P) == 1 && Or(1, 2) == 3 && Or(1, 6) == 7;
    OrFlags(page, 0, PTE_P);
    OrFlags(page, 1, flags);
    hide Or;
    var e := Link(page, flags);
    assert e == page + 1 + flags;
    AlignedTop(page, width);
    BaseOfMeaning(e, width);
    EntryDigits(page, 1 + flags);
  }

  /** A page address leaves room for the flag bits below the next page. */
  lemma {:induction false} AlignedTop(page: nat, width: nat)
    requires width > 12 && page < Pow2(width) && page % 4096 == 0
    ensures page + 7 < Pow2(width)
  {
    Pow2Add(width - 12, 12);
    PagingPowers();
    RoomAbovePage(page, Pow2(width - 12));
  }

  lemma {:induction false} RoomAbovePage(page: nat, p: nat)
    requires page < p * 4096 && page % 4096 == 0
    ensures page + 7 < p * 4096
  {
  }

  lemma {:induction false} EntryDigits(page: nat, low: nat)
    requires page % 4096 == 0 && low < 8
    ensures var e := page + low;
      && e % 2 == low % 2 && e / 2 % 2 == low / 2 % 2 && e / 4 % 2 == low / 4 % 2 && e / 128 % 2 == 0
      && PageOf(e) == page
  {
    var m := page / 4096;
    assert page == 4096 * m;
    LowDigits(m, low);
    HighDigits(m, low);
  }

  lemma {:induction false} LowDigits(m: nat, low: nat)
    ensures var e := 4096 * m + low;
      e % 2 == low % 2 && e / 2 % 2 == low / 2 % 2 && e / 4 % 2 == low / 4 % 2
  {
    HalfSum(2048 * m, low);
    HalfSum(1024 * m, low / 2);
    HalfSum(512 * m, low / 4);
    assert (4096 * m + low) / 4 == (4096 * m + low) / 2 / 2;
  }

  lemma {:induction false} HalfSum(a: nat, b: nat)
    ensures (2 * a + b) / 2 == a + b / 2 && (2 * a + b) % 2 == b % 2
  {
  }

  lemma {:induction false} HighDigits(m: nat, low: nat)
    requires low < 8
    ensures (4096 * m + low) / 128 % 2 == 0 && (4096 * m + low) / 4096 == m
  {
    DivModUnique(4096 * m + low, 128, 32 * m, low);
    assert 32 * m % 2 == 0;
    DivModUnique(4096 * m + low, 4096, m, low);
  }

  /** The ptr field as protect makes it. */
  lemma {:induction false} RootPtrBits(page: nat, width: nat)
    requires width > 12 && page < Pow2(width) && page % 4096 == 0
    ensures var e := Or(Or(page, PTE_P), PTE_U);
      && Present(e) && User(e) && BaseOf(e, width) == page && e < Pow2(width)
  {
    assert Or(0, PTE_P) == 1 && Or(1, PTE_U) == 5;
    OrFlags(page, 0, PTE_P);
    OrFlags(page, 1, PTE_U);
    hide Or;
    AlignedTop(page, width);
    BaseOfMeaning(page + 5, width);
    EntryDigits(page, 5);
  }

  lemma {:induction false} PteBits(pa: nat, writable: bool)
    requires pa % 4096 == 0
    ensures var e := UserPte(pa, writable);
      && Present(e) && User(e) && (Writable(e) <==> writable) && FrameOf(e) == FrameOf(pa)
    ensures pa < PHYS_TOP ==> FrameOf(pa) == pa
  {
    FrameAbove(pa, if writable then 7 else 5);
    assert Or(0, PTE_P) == 1 && Or(1, PTE_U) == 5 && Or(5, PTE_W) == 7 && Or(5, 0) == 5;
    OrFlags(pa, 0, PTE_P);
    OrFlags(pa, 1, PTE_U);
    OrFlags(pa, 5, if writable then PTE_W else 0);
    hide Or;
    EntryDigits(pa, if writable then 7 else 5);
  }

  lemma {:induction false} PhysTop()
    ensures Pow2(52) == PHYS_TOP
  {
    PagingPowers();
    Pow2Add(48, 4);
    Pow2Values();
    hide Pow2;
  }

  /** Flags do not change the frame. */
  lemma {:induction false} FrameAbove(pa: nat, low: nat)
    requires pa % 4096 == 0 && low < 8
    ensures FrameOf(pa + low) == FrameOf(pa)
    ensures pa < PHYS_TOP ==> FrameOf(pa) == pa
  {
    FrameParts(pa / 4096, low);
    FrameParts(pa / 4096, 0);
  }

  lemma {:induction false} FrameParts(m: nat, low: nat)
    requires low < 8
    ensures (4096 * m + low) % PHYS_TOP / 4096 == m % 0x100_0000_0000
    ensures 4096 * m < PHYS_TOP ==> m % 0x100_0000_0000 == m
  {
    DivDiv(4096 * m + low, 4096, 0x100_0000_0000);
    DivModUnique(4096 * m + low, 4096, m, low);
    DivModUnique(m % 0x100_0000_0000 * 4096 + low, 4096, m % 0x100_0000_0000, low);
  }

  // ----- hardware translation ---------------------------------------------------------------------------

  datatype Translation = Fault | Frame(base: nat, writable: bool, user: bool)

  /** The memory that holds page tables: page address to words. */
  type Memory = map<nat, seq<nat>>

  /** What an entry that ends the walk maps: at the last level, or a large page above it. */
  function EndOfWalk(cfg: Config, l: nat, e: nat, va: nat): Translation
    requires l < |cfg.pgtables|
  {
    var size := Pow2(cfg.pgtables[l].shift);
    Frame(Quotient(Remainder(e, PHYS_TOP), size) * size + PageOf(Remainder(va, size)), Writable(e), User(e))
  }

  /** Access rights are the conjunction over all levels. */
  function Restrict(t: Translation, e: nat): Translation {
    if t.Fault? then Fault else Frame(t.base, t.writable && Writable(e), t.user && User(e))
  }

  /** The walk of the MMU from a level-l table.  There are no large pages more than two levels above the last: the
      page-size bit of an entry there is reserved. */
  function Translate(cfg: Config, mem: Memory, l: nat, table: nat, va: nat): Translation
    requires |cfg.pgtables| == cfg.ptlevels + 1 && 1 <= l <= cfg.ptlevels
    decreases cfg.ptlevels - l
  {
    var i := Slot(cfg, l, va);
    if table !in mem || i >= |mem[table]| then Fault
    else
      var e := mem[table][i];
      if !Present(e) then Fault
      else if l == cfg.ptlevels then EndOfWalk(cfg, l, e, va)
      else if Large(e) then (if cfg.ptlevels - l <= 2 then EndOfWalk(cfg, l, e, va) else Fault)
      else Restrict(Translate(cfg, mem, l + 1, FrameOf(e), va), e)
  }
}

/** Address spaces: abstract-machine/am/src/x86/qemu/vme.c.

    `mem` holds the pages in use as page tables and `pool` the pages the allocator can hand out.  A
    freed page leaves `mem`, so reading or freeing a freed page would not verify.  A panic is an
    `ok == false` result. */
module Vme {
  import opened Bits
  import opened Paging
  import opened PageTree

  const USER_FLAGS: nat := Or(PTE_W, PTE_U)
  const MMAP_NONE: nat := 0
  const MMAP_WRITE: nat := 2

  // ----- areas ----------------------------------------------------------------------------------------

  predicate InArea(cfg: Config, a: VmArea, va: nat) {
    a.start <= va < cfg.Top(a)
  }

  predicate IsUserPage(cfg: Config, va: nat)
    requires |cfg.areas| > 0
  {
    InArea(cfg, cfg.areas[0], va) && va % 4096 == 0
  }

  predicate IsKernelAddress(cfg: Config, va: nat) {
    exists k :: 1 <= k < |cfg.areas| && InArea(cfg, cfg.areas[k], va)
  }

  /** Bytes under one level-1 entry. */
  function Big(cfg: Config): (b: nat)
    requires |cfg.pgtables| > 1
    ensures b > 0
  {
    Pow2(cfg.pgtables[1].shift)
  }

  predicate SlotInArea(cfg: Config, a: VmArea, i: nat)
    requires |cfg.pgtables| > 1
  {
    Quotient(a.start, Big(cfg)) <= i < Quotient(cfg.Top(a), Big(cfg))
  }

  /** The level-1 slots of the kernel areas. */
  function KernelSlots(cfg: Config): set<nat>
    requires |cfg.pgtables| > 1
  {
    set i: nat, k: nat | i < cfg.PageEntries() && 1 <= k < |cfg.areas| && SlotInArea(cfg, cfg.areas[k], i) :: i
  }

  lemma {:induction false} AreaSlot(cfg: Config, a: VmArea, va: nat)
    requires cfg.Valid() && a in cfg.areas && InArea(cfg, a, va)
    ensures SlotInArea(cfg, a, Slot(cfg, 1, va))
    ensures Slot(cfg, 1, va) == Quotient(va, Big(cfg)) < cfg.PageEntries()
    ensures va < Pow2(cfg.AddrBits())
  {
    var big, n := Big(cfg), Pow2(cfg.pgtables[1].bits);
    Pow2Add(cfg.pgtables[1].shift, cfg.pgtables[1].bits);
    SlotBounds(a.start, cfg.Top(a), va, big, n);
  }

  lemma {:induction false} SlotBounds(start: nat, top: nat, va: nat, big: nat, n: nat)
    requires big > 0 && start <= va < top <= big * n && start % big == 0 && top % big == 0
    ensures start / big <= va / big < top / big <= n
    ensures va / big % n == va / big
  {
    DivMonotone(start, va, big);
    assert top / big * big == top;
    DivLess(va, big, top / big);
    if top / big > n {
      MulMono(n + 1, top / big, big);
      assert (n + 1) * big == n * big + big;
    }
    SmallRemainder(va / big, n);
  }

  lemma {:induction false} DivMonotone(x: nat, y: nat, d: nat)
    requires d > 0 && x <= y
    ensures x / d <= y / d
  {
    Distribute(y / d, 1, d);
    assert x == x / d * d + x % d && y == y / d * d + y % d;
    if x / d > y / d {
      MulMono(y / d + 1, x / d, d);
    }
  }

  lemma {:induction false} KernelAddressSlot(cfg: Config, va: nat)
    requires cfg.Valid() && IsKernelAddress(cfg, va)
    ensures Slot(cfg, 1, va) in KernelSlots(cfg) && va < Pow2(cfg.AddrBits())
  {
    var k :| 1 <= k < |cfg.areas| && InArea(cfg, cfg.areas[k], va);
    AreaSlot(cfg, cfg.areas[k], va);
  }

  lemma {:induction false} UserSlotIsNotKernel(cfg: Config, va: nat)
    requires cfg.Valid() && InArea(cfg, cfg.areas[0], va)
    ensures Slot(cfg, 1, va) !in KernelSlots(cfg) && va < Pow2(cfg.AddrBits())
  {
    AreaSlot(cfg, cfg.areas[0], va);
    forall k | 1 <= k < |cfg.areas| ensures !SlotInArea(cfg, cfg.areas[k], Slot(cfg, 1, va)) {
      if cfg.Top(cfg.areas[k]) <= cfg.areas[0].start {
        DivMonotone(cfg.Top(cfg.areas[k]), cfg.areas[0].start, Big(cfg));
      } else {
        DivMonotone(cfg.Top(cfg.areas[0]), cfg.areas[k].start, Big(cfg));
      }
    }
  }

  /** The boot page table of start64.S is a kernel part: one PML4 entry, over a PDPT of large pages. */
  lemma {:induction false} BootTableIsKernel(mem: Memory, pml4: nat, pdpt: nat)
    requires pml4 in mem && pdpt in mem && |mem[pml4]| == 512 && |mem[pdpt]| == 512
    requires pdpt % 4096 == 0 && pdpt < PHYS_TOP && mem[pml4][0] == Link(pdpt, PTE_W)
    requires forall i :: 0 <= i < 512 ==> Present(mem[pdpt][i]) && Large(mem[pdpt][i])
    ensures KernelIn(X86_64, mem, pml4, map[[] := pml4, [0] := pdpt])
  {
    X86_64Valid();
    BootSlots();
    assert PHYS_TOP < Pow2(64) by { Pow2Values(); }
    TwoLevelKernel(X86_64, mem, pml4, pdpt);
  }

  /** A root whose only kernel slot leads to a table of large pages. */
  lemma {:induction false} TwoLevelKernel(cfg: Config, mem: Memory, root: nat, table: nat)
    requires cfg.Valid() && cfg.ptlevels > 1 && KernelSlots(cfg) == {0}
    requires root in mem && table in mem && |mem[root]| == |mem[table]| == cfg.PageEntries() > 0
    requires table % 4096 == 0 && table < Pow2(cfg.width) && table < PHYS_TOP && mem[root][0] == Link(table, PTE_W)
    requires forall i :: 0 <= i < cfg.PageEntries() ==> Present(mem[table][i]) && Large(mem[table][i])
    ensures KernelIn(cfg, mem, root, map[[] := root, [0] := table])
  {
    var kernel: Tables := map[[] := root, [0] := table];
    LinkBits(table, PTE_W, cfg.width);
    assert PTE_W != Or(PTE_W, PTE_U) by { assert Or(PTE_W, PTE_U) == 6; }
    hide Link, Pow2, KernelSlots, Or, Config.Valid;
    assert [] + [0] == [0];
    forall p, i: nat | p in kernel && i < cfg.PageEntries() && (|p| > 0 || i == 0)
      ensures var e := EntryAt(mem, kernel, p, i); Present(e) && !Large(e) ==> p + [i] in kernel && kernel[p + [i]] == FrameOf(e)
    {
      assert p == [] || p == [0];
      if p == [] {
        assert i == 0 && EntryAt(mem, kernel, p, i) == mem[root][0];
      } else {
        assert EntryAt(mem, kernel, p, i) == mem[table][i];
      }
    }
    assert EntryAt(mem, kernel, [], 0) == mem[root][0];
    assert forall p :: p in kernel ==> p == [] || p == [0];
    hide EntryAt;
    assert KernelClosed(cfg, mem, root, kernel, {0});
  }

  lemma {:induction false} BootSlots()
    ensures KernelSlots(X86_64) == {0} && X86_64.PageEntries() == 512
  {
    assert Big(X86_64) == 0x80_0000_0000 by { PagingPowers(); }
    hide Big;
    var kernel := X86_64.areas[1];
    assert X86_64.PageEntries() == 512 && |X86_64.areas| == 2;
    forall i: nat ensures SlotInArea(X86_64, kernel, i) <==> i == 0 {
      assert Quotient(kernel.start, 0x80_0000_0000) == 0 && Quotient(X86_64.Top(kernel), 0x80_0000_0000) == 1;
    }
    assert SlotInArea(X86_64, X86_64.areas[1], 0);
    assert 0 in KernelSlots(X86_64);
  }

  // ----- teardown sets ----------------------------------------------------------------------------------

  /** The pages of the subtree at p. */
  ghost function Subtree(tables: Tables, p: seq<nat>): set<nat> {
    set q | q in tables && p <= q :: tables[q]
  }

  /** The pages below p reached through slots under k. */
  ghost function Below(tables: Tables, p: seq<nat>, k: nat): set<nat> {
    set q | q in tables && p < q && q[|p|] < k :: tables[q]
  }

  lemma {:induction false} BelowStart(tables: Tables, p: seq<nat>)
    ensures Below(tables, p, 0) == {}
  {
  }

  lemma {:induction false} BelowNext(tables: Tables, p: seq<nat>, k: nat)
    ensures Below(tables, p, k + 1) == Below(tables, p, k) + Subtree(tables, p + [k])
  {
    forall q | q in tables && p < q && q[|p|] == k ensures p + [k] <= q {
      assert q[..|p|] == p;
    }
    forall q | q in tables && p + [k] <= q ensures p < q && q[|p|] == k {
      assert q[..|p| + 1] == p + [k];
      assert q[..|p|] == (p + [k])[..|p|] == p;
    }
  }

  lemma {:induction false} BelowAll(cfg: Config, mem: Memory, root: nat, tables: Tables, flags: nat, skip: set<nat>, p: seq<nat>)
    requires TreeOk(cfg, mem, root, tables, flags, skip) && p in tables
    ensures Subtree(tables, p) == Below(tables, p, cfg.PageEntries()) + {tables[p]}
  {
    forall q | q in tables && p < q ensures q[|p|] < cfg.PageEntries() {
      PrefixClosed(cfg, mem, root, tables, flags, skip, q, |p| + 1);
      assert q[..|p| + 1] == p + [q[|p|]] by { assert q[..|p|] == p; }
      assert Linked(cfg, mem, tables, flags, skip, p, q[|p|]);
    }
    forall q | q in tables && p <= q ensures q == p || p < q {
    }
  }

  /** Subtrees of different slots share no page, and none holds the table above. */
  lemma {:induction false} SubtreesApart(cfg: Config, mem: Memory, root: nat, tables: Tables, flags: nat, skip: set<nat>, p: seq<nat>, k: nat)
    requires TreeOk(cfg, mem, root, tables, flags, skip) && p in tables
    ensures Below(tables, p, k) !! Subtree(tables, p + [k])
    ensures tables[p] !in Below(tables, p, k)
  {
    forall q, r | q in tables && r in tables && p < q && q[|p|] < k && p + [k] <= r ensures tables[q] != tables[r] {
      assert r[|p|] == (p + [k])[|p|] == k;
    }
  }

  lemma {:induction false} EmptySubtree(cfg: Config, mem: Memory, root: nat, tables: Tables, flags: nat, skip: set<nat>, p: seq<nat>)
    requires TreeOk(cfg, mem, root, tables, flags, skip)
    requires p !in tables
    ensures Subtree(tables, p) == {}
  {
    forall q | q in tables ensures !(p <= q) {
      assert p <= q ==> q[..|p|] == p;
      if p <= q {
        PrefixClosed(cfg, mem, root, tables, flags, skip, q, |p|);
      }
    }
  }

  // ----- the module's state -------------------------------------------------------------------------------

  /** An address space: `ptr` is the struct field; `tables` and `view` are what it stands for. */
  class AddrSpace {
    var ptr: nat
    ghost var tables: Tables
    ghost var view: map<nat, (nat, bool)>

    constructor ()
      ensures ptr == 0 && tables == map[] && view == map[]
    {
      ptr, tables, view := 0, map[], map[];
    }
  }

  /** When map does not panic, memory permitting. */
  predicate MapRequestOk(cfg: Config, view: map<nat, (nat, bool)>, va: nat, pa: nat, prot: nat)
    requires |cfg.areas| > 0
  {
    IsUserPage(cfg, va) && pa % 4096 == 0 && (prot == MMAP_NONE <==> va in view)
  }

  /** The plain finite map that map updates; the frame of a physical address is the address itself. */
  function MappedView(view: map<nat, (nat, bool)>, va: nat, pa: nat, prot: nat): map<nat, (nat, bool)> {
    if prot == MMAP_NONE then view - {va} else view[va := (FrameOf(pa), And(prot, MMAP_WRITE) != 0)]
  }

  /** The translation that map is asked for. */
  function Requested(pa: nat, prot: nat): Translation {
    if prot == MMAP_NONE then Fault else Frame(FrameOf(pa), And(prot, MMAP_WRITE) != 0, true)
  }

  lemma {:induction false} RequestedIs(pa: nat, prot: nat)
    requires pa % 4096 == 0
    ensures Requested(pa, prot) == if prot == 0 then Fault else Frame(pa % 0x10_0000_0000_0000, prot / 2 % 2 == 1, true)
  {
    AndField(prot, 1, 1);
    assert Pow2(1) == 2;
    hide And;
    RemainderPage(pa);
  }

  lemma {:induction false} RemainderPage(pa: nat)
    requires pa % 4096 == 0
    ensures pa % 0x10_0000_0000_0000 % 4096 == 0
  {
  }

  lemma {:induction false} MappedViewAt(view: map<nat, (nat, bool)>, va: nat, pa: nat, prot: nat)
    ensures var now := MappedView(view, va, pa, prot);
      && ViewAt(now, va) == Requested(pa, prot)
      && forall a: nat :: a != va ==> ViewAt(now, a) == ViewAt(view, a)
  {
    hide And;
  }

  /** A call of map. */
  datatype Request = Request(va: nat, pa: nat, prot: nat)

  /** The finite map after a run of calls. */
  function Replay(view: map<nat, (nat, bool)>, requests: seq<Request>): map<nat, (nat, bool)> {
    if requests == [] then view
    else
      var r := requests[|requests| - 1];
      MappedView(Replay(view, requests[..|requests| - 1]), r.va, r.pa, r.prot)
  }

  lemma {:induction false} ReplayNext(view: map<nat, (nat, bool)>, requests: seq<Request>, n: nat)
    requires n < |requests|
    ensures var r := requests[n];
      Replay(view, requests[..n + 1]) == MappedView(Replay(view, requests[..n]), r.va, r.pa, r.prot)
  {
    assert requests[..n + 1][..n] == requests[..n];
  }

  /** The meaning of an address space: a finite map from pages to frames and write permission. */
  function ViewAt(view: map<nat, (nat, bool)>, va: nat): Translation {
    if va in view then Frame(view[va].0, view[va].1, true) else Fault
  }

  /** An address space whose root is `ptr` in memory `mem`: a tree of user tables, apart from the
      kernel's, whose kernel slots are copies of the kernel root's, and whose leaves mean `view`. */
  ghost predicate SpaceIn(cfg: Config, mem: Memory, kernel: Tables, ptr: nat, tables: Tables, view: map<nat, (nat, bool)>) {
    && cfg.Valid()
    && ptr < Pow2(cfg.width) && Present(ptr) && User(ptr)
    && TreeOk(cfg, mem, BaseOf(ptr, cfg.width), tables, USER_FLAGS, KernelSlots(cfg))
    && tables.Values !! kernel.Values
    && (forall i :: i in KernelSlots(cfg) ==> EntryAt(mem, tables, [], i) == EntryAt(mem, kernel, [], i))
    && (forall va :: va in view ==> IsUserPage(cfg, va))
    && (forall va: nat {:trigger Path(cfg, va)} :: IsUserPage(cfg, va) ==> LeafTranslation(LeafAt(mem, tables, Path(cfg, va))) == ViewAt(view, va))
  }

  /** What the kernel part promises: closed under the walk, and never user-accessible. */
  ghost predicate KernelIn(cfg: Config, mem: Memory, kpt: nat, kernel: Tables) {
    && cfg.Valid()
    && KernelClosed(cfg, mem, kpt, kernel, KernelSlots(cfg))
    && (forall i :: i in KernelSlots(cfg) ==> var e := EntryAt(mem, kernel, [], i); !(Present(e) && User(e)))
  }

  /** Pages outside a space's tables are untouched, and pages are taken only as its tables. */
  ghost predicate OnlyOwnPages(mem0: Memory, tables0: Tables, mem: Memory, tables: Tables) {
    && SameOn(mem0, mem, mem0.Keys - tables0.Values)
    && mem0.Keys <= mem.Keys && mem.Keys - mem0.Keys == tables.Values - tables0.Values
    && tables0.Values <= tables.Values
  }

  lemma {:induction false} OwnPagesTrans(mem0: Memory, t0: Tables, mem1: Memory, t1: Tables, mem2: Memory, t2: Tables)
    requires OnlyOwnPages(mem0, t0, mem1, t1) && OnlyOwnPages(mem1, t1, mem2, t2)
    ensures OnlyOwnPages(mem0, t0, mem2, t2)
  {
    forall x | x in mem0.Keys - t0.Values && x in mem0 ensures x in mem2 && mem2[x] == mem0[x] {
      assert x in mem1;
      assert x in t1.Values ==> x in t1.Values - t0.Values;
    }
    assert mem2.Keys - mem0.Keys == (mem2.Keys - mem1.Keys) + (mem1.Keys - mem0.Keys);
  }

  ghost predicate KernelTranslationsSame(cfg: Config, kpt: nat, mem0: Memory, mem: Memory)
    requires cfg.LevelsOk()
  {
    forall a: nat :: IsKernelAddress(cfg, a) ==> Translate(cfg, mem, 1, kpt, a) == Translate(cfg, mem0, 1, kpt, a)
  }

  /** What calls on one space leave alone: pages outside its tables, and the kernel's translations. */
  ghost predicate Contained(cfg: Config, kpt: nat, mem0: Memory, tables0: Tables, mem: Memory, tables: Tables) {
    cfg.LevelsOk() && OnlyOwnPages(mem0, tables0, mem, tables) && KernelTranslationsSame(cfg, kpt, mem0, mem)
  }

  lemma {:induction false} SelfContained(cfg: Config, kpt: nat, mem: Memory, tables: Tables)
    requires cfg.LevelsOk()
    ensures Contained(cfg, kpt, mem, tables, mem, tables)
  {
  }

  lemma {:induction false} ContainedTrans(cfg: Config, kpt: nat, mem0: Memory, t0: Tables, mem1: Memory, t1: Tables, mem2: Memory, t2: Tables)
    requires Contained(cfg, kpt, mem0, t0, mem1, t1) && Contained(cfg, kpt, mem1, t1, mem2, t2)
    ensures Contained(cfg, kpt, mem0, t0, mem2, t2)
  {
    OwnPagesTrans(mem0, t0, mem1, t1, mem2, t2);
  }

  /** Growing a space's tree by a walk does not change what it means. */
  lemma {:induction false} GrownSpace(cfg: Config, mem0: Memory, mem: Memory, kernel: Tables, ptr: nat, tables0: Tables, tables: Tables,
                   view: map<nat, (nat, bool)>)
    requires SpaceIn(cfg, mem0, kernel, ptr, tables0, view)
    requires TreeOk(cfg, mem, BaseOf(ptr, cfg.width), tables, USER_FLAGS, KernelSlots(cfg))
    requires Grown(cfg.ptlevels, mem0, tables0, mem, tables) && SkipSame(KernelSlots(cfg), mem0, tables0, mem, tables)
    requires kernel.Values <= mem0.Keys && forall i: nat :: EntryAt(mem, kernel, [], i) == EntryAt(mem0, kernel, [], i)
    ensures SpaceIn(cfg, mem, kernel, ptr, tables, view)
  {
    forall x | x in tables.Values ensures x !in kernel.Values {
      if x !in tables0.Values {
        assert x in tables.Values - tables0.Values;
      }
    }
  }

  /** Overwriting the leaf of a user page changes the meaning at that page only. */
  lemma {:induction false} LeafWritten(cfg: Config, mem: Memory, kernel: Tables, ptr: nat, tables: Tables, view0: map<nat, (nat, bool)>,
                    va: nat, table: nat, index: nat, e: nat, view: map<nat, (nat, bool)>)
    requires SpaceIn(cfg, mem, kernel, ptr, tables, view0) && kernel.Values <= mem.Keys
    requires IsUserPage(cfg, va) && LeafPlace(cfg, tables, Path(cfg, va), table, index)
    requires table in mem && index < |mem[table]|
    requires LeafTranslation(e) == ViewAt(view, va)
    requires forall a: nat :: a != va ==> ViewAt(view, a) == ViewAt(view0, a)
    ensures SpaceIn(cfg, WriteWord(mem, table, index, e), kernel, ptr, tables, view)
  {
    var path := Path(cfg, va);
    var mem' := WriteWord(mem, table, index, e);
    UserLeafSet(cfg, mem, BaseOf(ptr, cfg.width), tables, va, table, index, e);
    LeafWrittenBesides(cfg, mem, kernel, ptr, tables, view0, va, table, index, e);
    hide EntryAt, LeafAt, WriteWord, ViewAt, LeafTranslation, TreeOk;
    forall a: nat | IsUserPage(cfg, a)
      ensures LeafTranslation(LeafAt(mem', tables, Path(cfg, a))) == ViewAt(view, a)
    {
      if a != va {
        UserSlotIsNotKernel(cfg, a);
        if Path(cfg, a) == path {
          PathInjective(cfg, a, va);
        }
      }
    }
    ViewKeys(cfg, view0, view, va);
  }

  lemma {:induction false} UserLeafSet(cfg: Config, mem: Memory, root: nat, tables: Tables, va: nat, table: nat, index: nat, e: nat)
    requires cfg.Valid() && TreeOk(cfg, mem, root, tables, USER_FLAGS, KernelSlots(cfg))
    requires IsUserPage(cfg, va) && LeafPlace(cfg, tables, Path(cfg, va), table, index)
    requires table in mem && index < |mem[table]|
    ensures var mem' := WriteWord(mem, table, index, e);
      && TreeOk(cfg, mem', root, tables, USER_FLAGS, KernelSlots(cfg))
      && forall path: seq<nat> :: |path| == cfg.ptlevels ==>
           LeafAt(mem', tables, path) == if path == Path(cfg, va) then e else LeafAt(mem, tables, path)
  {
    assert cfg.ptlevels >= 1;
    hide TreeOk, LeafAt, WriteWord, Pow2, KernelSlots, Config.Valid;
    UserPathOwned(cfg, va);
    UserFlagBits();
    hide Path, Slot, Owned, Writable, User, Present, IsUserPage;
    SetLeaf(cfg, mem, root, tables, USER_FLAGS, KernelSlots(cfg), Path(cfg, va), e);
  }

  lemma {:induction false} UserFlagBits()
    ensures Writable(USER_FLAGS) && User(USER_FLAGS)
  {
    assert USER_FLAGS == 6;
  }

  lemma {:induction false} UserPathOwned(cfg: Config, va: nat)
    requires cfg.Valid() && IsUserPage(cfg, va)
    ensures cfg.ptlevels >= 1
    ensures Owned(KernelSlots(cfg), Path(cfg, va)[..cfg.ptlevels - 1], Path(cfg, va)[cfg.ptlevels - 1])
  {
    UserSlotIsNotKernel(cfg, va);
    assert Path(cfg, va)[0] == Slot(cfg, 1, va);
    hide KernelSlots, Slot, Pow2;
  }

  lemma {:induction false} ViewKeys(cfg: Config, view0: map<nat, (nat, bool)>, view: map<nat, (nat, bool)>, va: nat)
    requires |cfg.areas| > 0 && IsUserPage(cfg, va)
    requires forall a :: a in view0 ==> IsUserPage(cfg, a)
    requires forall a: nat :: a != va ==> ViewAt(view, a) == ViewAt(view0, a)
    ensures forall a :: a in view ==> IsUserPage(cfg, a)
  {
    forall a | a in view && a != va ensures a in view0 {
      assert ViewAt(view0, a) == ViewAt(view, a);
    }
  }

  /** The kernel slots and the kernel's own root do not see the leaf. */
  lemma {:induction false} LeafWrittenBesides(cfg: Config, mem: Memory, kernel: Tables, ptr: nat, tables: Tables, view0: map<nat, (nat, bool)>,
                           va: nat, table: nat, index: nat, e: nat)
    requires SpaceIn(cfg, mem, kernel, ptr, tables, view0) && kernel.Values <= mem.Keys
    requires IsUserPage(cfg, va) && LeafPlace(cfg, tables, Path(cfg, va), table, index)
    requires table in mem && index < |mem[table]|
    ensures var mem' := WriteWord(mem, table, index, e);
      && (forall i: nat :: EntryAt(mem', kernel, [], i) == EntryAt(mem, kernel, [], i))
      && (forall i :: i in KernelSlots(cfg) ==> EntryAt(mem', tables, [], i) == EntryAt(mem, tables, [], i))
  {
    var path := Path(cfg, va);
    UserSlotIsNotKernel(cfg, va);
    assert table in tables.Values;
    assert [] in kernel ==> kernel[[]] in kernel.Values;
    if [] in tables && tables[[]] == table {
      assert path[..|path| - 1] == [];
      assert path[0] == index;
    }
  }

  lemma {:induction false} SpaceTranslates(cfg: Config, mem: Memory, kernel: Tables, ptr: nat, tables: Tables, view: map<nat, (nat, bool)>, va: nat)
    requires SpaceIn(cfg, mem, kernel, ptr, tables, view) && IsUserPage(cfg, va)
    ensures Translate(cfg, mem, 1, BaseOf(ptr, cfg.width), va) == ViewAt(view, va)
  {
    UserSlotIsNotKernel(cfg, va);
    assert Path(cfg, va)[..0] == [];
    WalkFindsLeaf(cfg, mem, BaseOf(ptr, cfg.width), tables, USER_FLAGS, KernelSlots(cfg), va, 1);
  }

  lemma {:induction false} SpaceFrame(cfg: Config, mem: Memory, mem': Memory, kernel: Tables, ptr: nat, tables: Tables, view: map<nat, (nat, bool)>)
    requires SpaceIn(cfg, mem, kernel, ptr, tables, view)
    requires SameOn(mem, mem', tables.Values) && forall i :: i in KernelSlots(cfg) ==> EntryAt(mem', kernel, [], i) == EntryAt(mem, kernel, [], i)
    ensures SpaceIn(cfg, mem', kernel, ptr, tables, view)
  {
    TreeFrame(cfg, mem, mem', BaseOf(ptr, cfg.width), tables, USER_FLAGS, KernelSlots(cfg));
  }

  lemma {:induction false} KernelStays(cfg: Config, mem: Memory, mem': Memory, kpt: nat, kernel: Tables)
    requires KernelIn(cfg, mem, kpt, kernel) && SameOn(mem, mem', kernel.Values)
    ensures KernelIn(cfg, mem', kpt, kernel)
    ensures forall i: nat :: EntryAt(mem', kernel, [], i) == EntryAt(mem, kernel, [], i)
    ensures KernelTranslationsSame(cfg, kpt, mem, mem')
  {
    KernelFrame(cfg, mem, mem', kpt, kernel, KernelSlots(cfg));
    forall va: nat | IsKernelAddress(cfg, va) ensures Translate(cfg, mem', 1, kpt, va) == Translate(cfg, mem, 1, kpt, va) {
      KernelAddressSlot(cfg, va);
      assert Path(cfg, va)[..0] == [];
      KernelTranslationFrame(cfg, mem, mem', kpt, kernel, KernelSlots(cfg), va, 1);
    }
  }

  /** The pool holds distinct page-aligned pages that are not in use. */
  ghost predicate PoolIn(width: nat, mem: Memory, pool: seq<nat>) {
    && (forall i :: 0 <= i < |pool| ==> IsPage(pool[i], width) && pool[i] !in mem)
    && (forall i, j :: 0 <= i < j < |pool| ==> pool[i] != pool[j])
  }

  /** The state a walk begins in. */
  datatype Before = Before(mem: Memory, tables: Tables, pool: seq<nat>, ptr: nat, pages: set<nat>)

  /** Pages have been taken for tables of prefixes of the path, one for each. */
  ghost predicate Spent(path: seq<nat>, tables0: Tables, free0: nat, tables: Tables, free: nat) {
    && |tables| + free == |tables0| + free0 && tables0.Keys <= tables.Keys
    && forall p :: p in tables && p !in tables0 ==> |p| < |path| && p == path[..|p|]
  }

  /** There is no page left, and a table of the path is missing. */
  ghost predicate Short(path: seq<nat>, tables: Tables, free: nat) {
    free == 0 && exists l :: 0 <= l < |path| && path[..l] !in tables
  }

  /** A page was taken for the table of p, if there was one. */
  ghost predicate OneTaken(p: seq<nat>, tables0: Tables, free0: nat, ok: bool, next: nat, tables: Tables, free: nat) {
    if ok then tables == tables0[p := next] && free0 == free + 1 else tables == tables0 && free == free0 == 0
  }

  lemma {:induction false} NothingSpent(path: seq<nat>, tables: Tables, free: nat)
    ensures Spent(path, tables, free, tables, free)
  {
  }

  lemma {:induction false} TableSpent(path: seq<nat>, tables: Tables, free: nat, l: nat)
    requires l < |path| && path[..l] !in tables
    ensures forall next: nat, tables', free' :: OneTaken(path[..l], tables, free, true, next, tables', free') ==> Spent(path, tables, free, tables', free')
    ensures forall next: nat, tables', free' :: OneTaken(path[..l], tables, free, false, next, tables', free') ==>
              Spent(path, tables, free, tables', free') && Short(path, tables', free')
  {
    forall next: nat, tables': Tables, free': nat | OneTaken(path[..l], tables, free, true, next, tables', free')
      ensures Spent(path, tables, free, tables', free')
    {
      assert tables'.Keys == tables.Keys + {path[..l]};
      assert |tables'| == |tables'.Keys| && |tables| == |tables.Keys|;
    }
  }

  lemma {:induction false} SpentTrans(path: seq<nat>, t0: Tables, n0: nat, t1: Tables, n1: nat, t2: Tables, n2: nat)
    requires Spent(path, t0, n0, t1, n1) && Spent(path, t1, n1, t2, n2)
    ensures Spent(path, t0, n0, t2, n2)
  {
  }

  /** The tables a page needs: one for every proper prefix of its path. */
  ghost function Prefixes(cfg: Config, va: nat): set<seq<nat>>
    requires |cfg.pgtables| == cfg.ptlevels + 1
  {
    set l: nat | l < cfg.ptlevels :: Path(cfg, va)[..l]
  }

  /** The tables that vme_init builds. */
  ghost function KernelTables(cfg: Config): set<seq<nat>>
    requires |cfg.pgtables| == cfg.ptlevels + 1
  {
    set va, l | va in PagesBefore(cfg, |cfg.areas|) && 0 <= l < cfg.ptlevels :: Path(cfg, va)[..l]
  }

  /** Only needed tables were added, each for one page; and if it did not work out, no page is left and a needed table
      is missing. */
  ghost predicate Budget(tables0: Tables, free0: nat, tables: Tables, free: nat, needed: set<seq<nat>>, ok: bool) {
    && |tables| + free == |tables0| + free0 && tables.Keys <= needed
    && (!ok ==> free == 0 && |tables| < |needed|)
  }

  lemma {:induction false} WithinBudget(cfg: Config, va: nat, t0: Tables, n0: nat, t: Tables, n: nat, needed: set<seq<nat>>, ok: bool)
    requires |cfg.pgtables| == cfg.ptlevels + 1
    requires Spent(Path(cfg, va), t0, n0, t, n) && (!ok ==> Short(Path(cfg, va), t, n))
    requires t0.Keys <= needed && Prefixes(cfg, va) <= needed
    ensures Budget(t0, n0, t, n, needed, ok)
  {
    var path := Path(cfg, va);
    assert forall l: nat :: l < cfg.ptlevels ==> path[..l] in Prefixes(cfg, va);
    forall p | p in t ensures p in needed {
      if p !in t0 {
        assert path[..|p|] in Prefixes(cfg, va);
      }
    }
    if !ok {
      var l :| 0 <= l < |path| && path[..l] !in t;
      assert path[..l] in needed && t.Keys <= needed - {path[..l]};
      Smaller(t.Keys, needed - {path[..l]});
      assert |t| == |t.Keys|;
    }
  }

  /** The tables that are missing for a page. */
  ghost function Missing(cfg: Config, tables: Tables, va: nat): set<seq<nat>>
    requires |cfg.pgtables| == cfg.ptlevels + 1
  {
    Prefixes(cfg, va) - tables.Keys
  }

  /** A walk gets to its end if and only if there is a page for every table that is missing. */
  lemma {:induction false} WalkBudget(cfg: Config, va: nat, t0: Tables, n0: nat, t: Tables, n: nat, ok: bool)
    requires |cfg.pgtables| == cfg.ptlevels + 1
    requires Spent(Path(cfg, va), t0, n0, t, n) && (if ok then Prefixes(cfg, va) <= t.Keys else Short(Path(cfg, va), t, n))
    ensures ok <==> |Missing(cfg, t0, va)| <= n0
    ensures ok ==> n == n0 - |Missing(cfg, t0, va)|
  {
    var needed := t0.Keys + Prefixes(cfg, va);
    WithinBudget(cfg, va, t0, n0, t, n, needed, ok);
    assert needed == t0.Keys + Missing(cfg, t0, va) && |t0| == |t0.Keys| && |t| == |t.Keys|;
    hide Prefixes, Short;
    if ok {
      assert t.Keys == needed;
    }
  }

  /** Beside the root, a page needs a table for every level but the last. */
  lemma {:induction false} MissingAtMost(cfg: Config, tables: Tables, va: nat)
    requires |cfg.pgtables| == cfg.ptlevels + 1 && cfg.ptlevels >= 1 && [] in tables
    ensures |Missing(cfg, tables, va)| <= cfg.ptlevels - 1
  {
    var path := Path(cfg, va);
    var some := set l: nat | 1 <= l < cfg.ptlevels :: path[..l];
    PrefixesFrom(path, 1, cfg.ptlevels);
    assert path[..0] == [];
    assert Missing(cfg, tables, va) <= some;
    Smaller(Missing(cfg, tables, va), some);
  }

  lemma {:induction false} PrefixesFrom(path: seq<nat>, m: nat, n: nat)
    requires m <= n <= |path|
    ensures |set l: nat | m <= l < n :: path[..l]| <= n - m
    decreases n
  {
    var all := set l: nat | m <= l < n :: path[..l];
    if m == n {
      assert all == {};
    } else {
      var rest := set l: nat | m <= l < n - 1 :: path[..l];
      PrefixesFrom(path, m, n - 1);
      assert all == rest + {path[..n - 1]};
    }
  }

  /** Every table on the way to a leaf is there. */
  lemma {:induction false} LeafHasPrefixes(cfg: Config, mem: Memory, root: nat, tables: Tables, flags: nat, skip: set<nat>, va: nat)
    requires cfg.LevelsOk() && TreeOk(cfg, mem, root, tables, flags, skip) && Path(cfg, va)[..cfg.ptlevels - 1] in tables
    ensures Prefixes(cfg, va) <= tables.Keys
  {
    var path, n := Path(cfg, va), cfg.ptlevels - 1;
    forall l: nat | l < cfg.ptlevels ensures path[..l] in tables {
      PrefixClosed(cfg, mem, root, tables, flags, skip, path[..n], l);
      assert path[..n][..l] == path[..l];
    }
  }

  lemma {:induction false} Smaller(a: set<seq<nat>>, b: set<seq<nat>>)
    requires a <= b
    ensures |a| <= |b| && (|a| == |b| ==> a == b)
  {
    if a != {} {
      var x :| x in a;
      Smaller(a - {x}, b - {x});
    }
  }

  lemma {:induction false} BudgetStarts(t0: Tables, n0: nat, needed: set<seq<nat>>)
    requires t0 == map[]
    ensures Budget(t0, n0, t0, n0, needed, true) && |t0| == 0
  {
  }

  lemma {:induction false} BudgetBegins(t0: Tables, n0: nat, needed: set<seq<nat>>)
    requires t0.Keys <= needed
    ensures Budget(t0, n0, t0, n0, needed, true)
  {
  }

  lemma {:induction false} BudgetKeys(t0: Tables, n0: nat, t: Tables, n: nat, needed: set<seq<nat>>)
    requires Budget(t0, n0, t, n, needed, true)
    ensures t.Keys <= needed
  {
  }

  lemma {:induction false} BudgetTrans(t0: Tables, n0: nat, t1: Tables, n1: nat, t2: Tables, n2: nat, needed: set<seq<nat>>, ok: bool)
    requires Budget(t0, n0, t1, n1, needed, true) && Budget(t1, n1, t2, n2, needed, ok)
    ensures Budget(t0, n0, t2, n2, needed, ok)
  {
  }

  lemma {:induction false} BudgetFails(n0: nat, t: Tables, n: nat, needed: set<seq<nat>>)
    requires Budget(map[], n0, t, n, needed, false)
    ensures n0 < |needed|
  {
  }

  lemma {:induction false} BudgetMet(n0: nat, t: Tables, n: nat, needed: set<seq<nat>>)
    requires Budget(map[], n0, t, n, needed, true) && needed <= t.Keys
    ensures n0 >= |needed| && n == n0 - |needed|
  {
    assert t.Keys == needed && |t| == |t.Keys|;
  }

  /** The pages of a kernel area need no more than the kernel's tables. */
  lemma {:induction false} AreaNeeds(cfg: Config, i: nat)
    requires |cfg.pgtables| == cfg.ptlevels + 1 && i < |cfg.areas| && cfg.areas[i].kernel
    ensures forall va :: va in AreaPages(cfg, cfg.areas[i]) ==> Prefixes(cfg, va) <= KernelTables(cfg)
  {
    forall va | va in AreaPages(cfg, cfg.areas[i]) ensures Prefixes(cfg, va) <= KernelTables(cfg) {
      PagesBeforeMeaning(cfg, |cfg.areas|, i, va);
    }
  }

  lemma {:induction false} PageInArea(cfg: Config, a: VmArea, k: nat)
    requires cfg.Valid() && a in cfg.areas && k < PageCount(cfg, a)
    ensures PageAddr(cfg, a, k) in AreaPages(cfg, a)
  {
    PageStep(cfg, a, k);
    AreaIsPaged(cfg, a);
    PageStepBounds(a.start, cfg.Top(a), k);
  }

  lemma {:induction false} NoPages(cfg: Config, a: VmArea, done: set<nat>)
    ensures done + FirstPages(cfg, a, 0) == done
  {
    assert FirstPages(cfg, a, 0) == {};
  }

  lemma {:induction false} NextPage(cfg: Config, a: VmArea, k: nat)
    requires cfg.Valid() && a in cfg.areas && k < PageCount(cfg, a)
    ensures (PageAddr(cfg, a, k) + 4096) % Pow2(cfg.width) == PageAddr(cfg, a, k + 1)
    ensures PageAddr(cfg, a, k + 1) == a.end <==> k + 1 == PageCount(cfg, a)
  {
    PageStep(cfg, a, k);
    PageStep(cfg, a, k + 1);
  }

  lemma {:induction false} PageIsPaged(cfg: Config, n: nat, va: nat)
    requires cfg.Valid() && n <= |cfg.areas| && va in PagesBefore(cfg, n)
    ensures va < Pow2(cfg.AddrBits()) && va % 4096 == 0
  {
    if n > 0 && va in PagesBefore(cfg, n - 1) {
      PageIsPaged(cfg, n - 1, va);
    }
  }

  class Machine {
    const cfg: Config
    var mem: Memory
    var pool: seq<nat>
    var kpt: nat
    ghost var kernel: Tables
    ghost var spaces: set<AddrSpace>

    /** Power-on: table pages m, free pages p and, on x86_64, the boot page table (kpt = PML4_ADDR). */
    constructor (c: Config, m: Memory, p: seq<nat>, table: nat, ghost tables: Tables)
      requires c.Valid() && PoolIn(c.width, m, p)
      ensures cfg == c && mem == m && pool == p && kpt == table && kernel == tables && spaces == {}
      ensures MemOk() && (KernelIn(c, m, table, tables) ==> Valid())
    {
      cfg, mem, pool, kpt, kernel, spaces := c, m, p, table, tables, {};
    }

    ghost predicate MemOk()
      reads this
    {
      cfg.Valid() && PoolIn(cfg.width, mem, pool)
    }

    /** All pages, in use as tables or free. */
    ghost function Pages(): set<nat>
      reads this
    {
      mem.Keys + Free()
    }

    ghost function Free(): set<nat>
      reads this
    {
      set i | 0 <= i < |pool| :: pool[i]
    }

    ghost predicate KernelOk()
      reads this
    {
      KernelIn(cfg, mem, kpt, kernel)
    }

    ghost predicate SpaceOk(s: AddrSpace)
      reads this, s
    {
      SpaceIn(cfg, mem, kernel, s.ptr, s.tables, s.view)
    }

    ghost predicate Valid()
      reads this, spaces
    {
      WellFormed()
    }

    /** The state of the module: allocator, kernel part and registered spaces, sharing no table. */
    ghost predicate WellFormed()
      reads this, spaces
    {
      && MemOk() && KernelOk()
      && (forall s :: s in spaces ==> SpaceOk(s))
      && (forall s, t :: s in spaces && t in spaces && s != t ==> s.tables.Values !! t.tables.Values)
    }

    /** The hardware's view of a user page is the finite map. */
    lemma {:induction false} HardwareSeesView(s: AddrSpace, va: nat)
      requires SpaceOk(s) && IsUserPage(cfg, va)
      ensures Translate(cfg, mem, 1, BaseOf(s.ptr, cfg.width), va) == ViewAt(s.view, va)
    {
      SpaceTranslates(cfg, mem, kernel, s.ptr, s.tables, s.view, va);
    }

    lemma {:induction false} HardwareSeesViews()
      requires Valid()
      ensures forall t, a: nat :: t in spaces && IsUserPage(cfg, a) ==>
        Translate(cfg, mem, 1, BaseOf(t.ptr, cfg.width), a) == ViewAt(t.view, a)
    {
      forall t, a: nat | t in spaces && IsUserPage(cfg, a)
        ensures Translate(cfg, mem, 1, BaseOf(t.ptr, cfg.width), a) == ViewAt(t.view, a)
      {
        HardwareSeesView(t, a);
      }
    }

    /** No user page of any space has changed in the eyes of the hardware but the ones listed. */
    ghost predicate SameBesides(mem0: Memory, changed: set<(AddrSpace, nat)>)
      requires cfg.Valid()
      reads this, spaces
    {
      forall t, a: nat :: t in spaces && IsUserPage(cfg, a) && (t, a) !in changed ==>
        Translate(cfg, mem, 1, BaseOf(t.ptr, cfg.width), a) == Translate(cfg, mem0, 1, BaseOf(t.ptr, cfg.width), a)
    }

    /** Every address space translates kernel addresses as kpt does. */
    lemma {:induction false} KernelIsShared(s: AddrSpace, va: nat)
      requires KernelOk() && SpaceOk(s) && IsKernelAddress(cfg, va)
      ensures Translate(cfg, mem, 1, BaseOf(s.ptr, cfg.width), va) == Translate(cfg, mem, 1, kpt, va)
    {
      KernelAddressSlot(cfg, va);
      var root, i := BaseOf(s.ptr, cfg.width), Slot(cfg, 1, va);
      assert TableOk(cfg, mem, [], s.tables[[]]);
      SlotBound(cfg, 1, va);
      assert EntryAt(mem, s.tables, [], i) == EntryAt(mem, kernel, [], i);
      SharedSlotTranslates(cfg, mem, root, kpt, va);
    }

    // ----- allocation -----------------------------------------------------------------------------------

    /** pgalloc, with 0 for NULL; the page comes with arbitrary contents. */
    method Pgalloc() returns (page: nat)
      requires MemOk()
      modifies this`mem, this`pool
      ensures MemOk() && Pages() == old(Pages())
      ensures page == 0 <==> old(pool) == []
      ensures page == 0 ==> mem == old(mem) && pool == old(pool)
      ensures page != 0 ==> page == old(pool)[0] && pool == old(pool)[1..] && IsPage(page, cfg.width) && page !in old(mem)
      ensures page != 0 ==> page in mem && |mem[page]| == cfg.PageEntries() && mem == old(mem)[page := mem[page]]
    {
      if |pool| == 0 {
        return 0;
      }
      page := pool[0];
      var contents: seq<nat> :| |contents| == cfg.PageEntries() by {
        assert |seq(cfg.PageEntries(), i => 0 as nat)| == cfg.PageEntries();
      }
      mem := mem[page := contents];
      pool := pool[1..];
      assert forall i :: 0 <= i < |pool| ==> pool[i] == old(pool)[i + 1];
      assert Pages() == old(Pages()) by {
        forall x | x in old(Pages()) ensures x in Pages() {
          if x !in old(mem) {
            var i :| 0 <= i < |old(pool)| && old(pool)[i] == x;
            assert i > 0 ==> pool[i - 1] == x;
          }
        }
      }
    }

    method Pgfree(page: nat)
      requires MemOk() && page in mem && IsPage(page, cfg.width)
      modifies this`mem, this`pool
      ensures MemOk() && Pages() == old(Pages())
      ensures mem == old(mem) - {page} && pool == old(pool) + [page]
    {
      mem := mem - {page};
      pool := pool + [page];
      assert Pages() == old(Pages()) by {
        forall x | x in old(Pages()) ensures x in Pages() {
          if x == page {
            assert pool[|pool| - 1] == x;
          } else if x !in old(mem) {
            var i :| 0 <= i < |old(pool)| && old(pool)[i] == x;
            assert pool[i] == x;
          }
        }
      }
    }

    method StoreWord(page: nat, i: nat, e: nat)
      requires MemOk() && page in mem && i < |mem[page]|
      modifies this`mem
      ensures MemOk() && Pages() == old(Pages()) && mem == WriteWord(old(mem), page, i, e) && mem.Keys == old(mem.Keys)
    {
      ghost var keys := mem.Keys;
      mem := WriteWord(mem, page, i, e);
      assert mem.Keys == keys;
    }

    /** A zeroed page, or 0 where the source panics. */
    method Pgallocz() returns (base: nat)
      requires MemOk()
      modifies this`mem, this`pool
      ensures MemOk() && Pages() == old(Pages())
      ensures base == 0 <==> old(pool) == []
      ensures base == 0 ==> mem == old(mem) && pool == old(pool)
      ensures base != 0 ==> IsPage(base, cfg.width) && base !in old(mem) && base == old(pool)[0] && pool == old(pool)[1..]
      ensures base != 0 ==> base in mem && |mem[base]| == cfg.PageEntries() && IsZeroed(mem[base]) && mem == old(mem)[base := mem[base]]
    {
      base := Pgalloc();
      if base == 0 {
        return;
      }
      var i := 0;
      while i < cfg.PageEntries()
        invariant i <= cfg.PageEntries()
        invariant base in mem && |mem[base]| == cfg.PageEntries() && mem == old(mem)[base := mem[base]]
        invariant forall j :: 0 <= j < i ==> mem[base][j] == 0
        invariant pool == old(pool)[1..] && MemOk() && Pages() == old(Pages())
      {
        StoreWord(base, i, 0);
        i := i + 1;
      }
    }

    // ----- ptwalk -----------------------------------------------------------------------------------------

    /** The tree an address space owns, possibly not yet allocated (only vme_init starts that way). */
    ghost predicate GrowingTree(s: AddrSpace, flags: nat, skip: set<nat>)
      reads this, s
    {
      && cfg.Valid() && LinkFlags(flags) && s.ptr < Pow2(cfg.width)
      && if s.ptr == 0 then s.tables == map[]
         else Present(s.ptr) && TreeOk(cfg, mem, BaseOf(s.ptr, cfg.width), s.tables, flags, skip)
    }

    /** What one turn of ptwalk does, from memory mem0, tables tables0 and pool pool0: it reaches the
        table of `prefix`, taking at most one page, and none if the table was there. */
    ghost predicate Step(s: AddrSpace, flags: nat, skip: set<nat>, prefix: seq<nat>, mem0: Memory, tables0: Tables,
                         pool0: seq<nat>, ptr0: nat, pages0: set<nat>, ok: bool, next: nat)
      reads this, s
    {
      && MemOk() && Pages() == pages0 && GrowingTree(s, flags, skip)
      && (ptr0 != 0 ==> s.ptr == ptr0)
      && Grown(cfg.ptlevels, mem0, tables0, mem, s.tables)
      && SkipSame(skip, mem0, tables0, mem, s.tables)
      && (ok ==> s.ptr != 0 && prefix in s.tables && next == s.tables[prefix])
      && |pool| <= |pool0| <= |pool| + 1
      && (!ok ==> |pool0| == 0)
      && (ptr0 != 0 && prefix in tables0 ==> ok && mem == mem0 && pool == pool0 && s.tables == tables0)
    }

    /** Step, as a name that calls do not open. */
    ghost predicate Stepped(s: AddrSpace, flags: nat, skip: set<nat>, prefix: seq<nat>, mem0: Memory, tables0: Tables,
                            pool0: seq<nat>, ptr0: nat, pages0: set<nat>, ok: bool, next: nat)
      reads this, s
    {
      Step(s, flags, skip, prefix, mem0, tables0, pool0, ptr0, pages0, ok, next)
    }

    /** One turn of ptwalk: the table that entry `index` of the level-i table leads to, allocated if
        the entry is absent.  At level 0 the entry is the space's `ptr` itself. */
    method Descend(s: AddrSpace, flags: nat, i: nat, cur: nat, index: nat, ghost skip: set<nat>, ghost path: seq<nat>)
      returns (ok: bool, next: nat)
      requires MemOk() && GrowingTree(s, flags, skip)
      requires i < cfg.ptlevels == |path| && path[0] !in skip
      requires i > 0 ==> s.ptr != 0 && path[..i - 1] in s.tables && cur == s.tables[path[..i - 1]]
      requires i > 0 ==> index == path[i - 1] < cfg.PageEntries()
      modifies this`mem, this`pool, s`ptr, s`tables
      ensures Stepped(s, flags, skip, path[..i], old(mem), old(s.tables), old(pool), old(s.ptr), old(Pages()), ok, next)
      ensures Spent(path, old(s.tables), |old(pool)|, s.tables, |pool|) && (!ok ==> Short(path, s.tables, |pool|))
    {
      assert i > 0 ==> TableOk(cfg, mem, path[..i - 1], cur);
      hide PoolIn, Pages, And, IsPage, TreeOk, Grown, SkipSame, Step, Spent, Short;
      var entry := if i == 0 then s.ptr else mem[cur][index];
      FlagTests(entry);
      if And(entry, PTE_P) == 0 {
        NotYetLinked(mem, s.ptr, s.tables, flags, skip, i, path);
        TableSpent(path, s.tables, |pool|, i);
        if i == 0 {
          assert path[..0] == [];
          ok, next := AttachRoot(s, flags, skip);
        } else {
          ok, next := AttachTable(s, flags, i, cur, index, skip, path);
        }
      } else {
        AlreadyLinked(mem, s.ptr, s.tables, flags, skip, i, path);
        ok, next := true, BaseOf(entry, cfg.width);
        NothingSpent(path, s.tables, |pool|);
        StepInPlace(s, flags, skip, path[..i], next);
      }
    }

    lemma {:induction false} StepInPlace(s: AddrSpace, flags: nat, skip: set<nat>, prefix: seq<nat>, next: nat)
      requires MemOk() && GrowingTree(s, flags, skip) && s.ptr != 0 && prefix in s.tables && next == s.tables[prefix]
      ensures Step(s, flags, skip, prefix, mem, s.tables, pool, s.ptr, Pages(), true, next)
    {
      GrownRefl(cfg.ptlevels, mem, s.tables);
    }

    /** A root page for a space without one. */
    method AttachRoot(s: AddrSpace, flags: nat, ghost skip: set<nat>) returns (ok: bool, next: nat)
      requires MemOk() && GrowingTree(s, flags, skip) && s.ptr == 0
      modifies this`mem, this`pool, s`ptr, s`tables
      ensures Stepped(s, flags, skip, [], old(mem), old(s.tables), old(pool), old(s.ptr), old(Pages()), ok, next)
      ensures OneTaken([], old(s.tables), |old(pool)|, ok, next, s.tables, |pool|)
    {
      GrownRefl(cfg.ptlevels, mem, s.tables);
      hide PoolIn, Pages, And, Or, IsPage, Link, TreeOk, Grown, SkipSame;
      next := Pgallocz();
      ok := next != 0;
      if ok {
        LinkBits(next, flags, cfg.width);
        s.ptr := Link(next, flags);
        s.tables := map[[] := next];
        FirstTable(cfg, old(mem), mem, next, flags, skip);
      }
    }

    /** A zeroed table behind an absent entry above the last level. */
    method AttachTable(s: AddrSpace, flags: nat, i: nat, cur: nat, index: nat, ghost skip: set<nat>, ghost path: seq<nat>)
      returns (ok: bool, next: nat)
      requires MemOk() && GrowingTree(s, flags, skip)
      requires i < cfg.ptlevels == |path| && path[0] !in skip
      requires i > 0 ==> s.ptr != 0 && path[..i - 1] in s.tables && cur == s.tables[path[..i - 1]]
      requires i > 0 ==> index == path[i - 1] < cfg.PageEntries()
      requires i > 0 && TableOk(cfg, mem, path[..i - 1], cur) && !Present(EntryAt(mem, s.tables, path[..i - 1], index))
      requires path[..i] !in s.tables
      modifies this`mem, this`pool, s`tables
      ensures Stepped(s, flags, skip, path[..i], old(mem), old(s.tables), old(pool), old(s.ptr), old(Pages()), ok, next)
      ensures OneTaken(path[..i], old(s.tables), |old(pool)|, ok, next, s.tables, |pool|)
    {
      GrownRefl(cfg.ptlevels, mem, s.tables);
      hide And, Or, IsPage, Link, TreeOk, Grown, SkipSame;
      next := Pgallocz();
      ok := next != 0;
      if ok {
        ghost var zeros, keys := mem[next], mem.Keys;
        mem := WriteWord(mem, cur, index, Link(next, flags));
        assert mem.Keys == keys;
        s.tables := s.tables[path[..i] := next];
        assert path[..i] == path[..i - 1] + [index];
        TableAdded(cfg, old(mem), BaseOf(s.ptr, cfg.width), old(s.tables), flags, skip, path[..i - 1], index, next, zeros, mem);
      }
    }

    /** An absent entry on the path has no table behind it. */
    lemma {:induction false} NotYetLinked(m: Memory, ptr: nat, tables: Tables, flags: nat, skip: set<nat>, i: nat, path: seq<nat>)
      requires cfg.Valid() && i < cfg.ptlevels == |path| && path[0] !in skip
      requires ptr != 0 ==> Present(ptr) && TreeOk(cfg, m, BaseOf(ptr, cfg.width), tables, flags, skip)
      requires ptr == 0 ==> tables == map[]
      requires i == 0 ==> !Present(ptr)
      requires i > 0 ==> ptr != 0 && path[..i - 1] in tables && !Present(EntryAt(m, tables, path[..i - 1], path[i - 1]))
      ensures path[..i] !in tables
    {
      if i > 0 {
        NoTable(cfg, m, BaseOf(ptr, cfg.width), tables, flags, skip, path[..i - 1], path[i - 1]);
        assert path[..i] == path[..i - 1] + [path[i - 1]];
      }
    }

    /** A present entry on the path leads to the table of the next prefix. */
    lemma {:induction false} AlreadyLinked(m: Memory, ptr: nat, tables: Tables, flags: nat, skip: set<nat>, i: nat, path: seq<nat>)
      requires cfg.Valid() && i < cfg.ptlevels == |path| && path[0] !in skip
      requires ptr != 0 && TreeOk(cfg, m, BaseOf(ptr, cfg.width), tables, flags, skip)
      requires i > 0 ==> path[..i - 1] in tables && path[i - 1] < cfg.PageEntries()
      requires i > 0 ==> Present(EntryAt(m, tables, path[..i - 1], path[i - 1]))
      ensures path[..i] in tables
      ensures tables[path[..i]] == BaseOf(if i == 0 then ptr else EntryAt(m, tables, path[..i - 1], path[i - 1]), cfg.width)
    {
      if i == 0 {
        assert path[..0] == [];
      } else {
        var p, j := path[..i - 1], path[i - 1];
        assert path[..i] == p + [j];
        assert Owned(skip, p, j) by { assert |p| == 0 ==> j == path[0]; }
        assert EntryOk(cfg, m, tables, flags, p, j);
        assert Linked(cfg, m, tables, flags, skip, p, j);
        assert TableOk(cfg, m, p + [j], tables[p + [j]]);
        LinkBits(tables[p + [j]], flags, cfg.width);
      }
    }

    /** The state of a walk that has reached the level-i table `cur`, against the state it began in. */
    ghost predicate WalkInv(s: AddrSpace, flags: nat, skip: set<nat>, path: seq<nat>, i: nat, cur: nat, was: Before)
      reads this, s
    {
      && MemOk() && Pages() == was.pages && GrowingTree(s, flags, skip) && i <= cfg.ptlevels == |path|
      && (was.ptr != 0 ==> s.ptr == was.ptr)
      && (i > 0 ==> s.ptr != 0 && path[..i - 1] in s.tables && cur == s.tables[path[..i - 1]])
      && (i == 0 ==> s.ptr == was.ptr && mem == was.mem && pool == was.pool && s.tables == was.tables)
      && Grown(cfg.ptlevels, was.mem, was.tables, mem, s.tables)
      && SkipSame(skip, was.mem, was.tables, mem, s.tables)
      && |pool| <= |was.pool| <= |pool| + i && (was.ptr != 0 && i > 0 ==> |was.pool| <= |pool| + i - 1)
      && (was.ptr != 0 && path[..cfg.ptlevels - 1] in was.tables ==> mem == was.mem && pool == was.pool && s.tables == was.tables)
    }

    /** The invariant of the loop of ptwalk. */
    ghost predicate WalkTo(s: AddrSpace, flags: nat, skip: set<nat>, addr: nat, i: nat, cur: nat, was: Before)
      reads this, s
    {
      && cfg.LevelsOk() && Path(cfg, addr)[0] !in skip
      && WalkInv(s, flags, skip, Path(cfg, addr), i, cur, was)
      && Spent(Path(cfg, addr), was.tables, |was.pool|, s.tables, |pool|)
    }

    /** What ptwalk has done: the tree may have grown, by tables that no leaf shows; on success word
        `index` of page `table` is the last-level entry; on failure the pool ran out; and a path that
        was complete is left as it was. */
    ghost predicate WalkResult(s: AddrSpace, flags: nat, skip: set<nat>, path: seq<nat>, was: Before, ok: bool, table: nat, index: nat)
      reads this, s
    {
      && MemOk() && Pages() == was.pages && GrowingTree(s, flags, skip) && cfg.ptlevels == |path|
      && (was.ptr != 0 ==> s.ptr == was.ptr)
      && Grown(cfg.ptlevels, was.mem, was.tables, mem, s.tables)
      && SkipSame(skip, was.mem, was.tables, mem, s.tables)
      && |pool| <= |was.pool|
      && (!ok ==> |was.pool| < cfg.ptlevels && (was.ptr != 0 ==> |was.pool| < cfg.ptlevels - 1))
      && (ok ==> s.ptr != 0 && LeafPlace(cfg, s.tables, path, table, index))
      && (was.ptr != 0 && path[..cfg.ptlevels - 1] in was.tables ==>
            ok && mem == was.mem && pool == was.pool && s.tables == was.tables)
    }

    ghost predicate Walked(s: AddrSpace, flags: nat, skip: set<nat>, path: seq<nat>, was: Before, ok: bool, table: nat, index: nat)
      reads this, s
    {
      && WalkResult(s, flags, skip, path, was, ok, table, index)
      && Spent(path, was.tables, |was.pool|, s.tables, |pool|) && (!ok ==> Short(path, s.tables, |pool|))
    }

    ghost predicate WalkAt(s: AddrSpace, flags: nat, skip: set<nat>, path: seq<nat>, i: nat, cur: nat, was: Before)
      reads this, s
    {
      WalkInv(s, flags, skip, path, i, cur, was)
    }

    ghost predicate Ended(s: AddrSpace, flags: nat, skip: set<nat>, path: seq<nat>, was: Before)
      reads this, s
    {
      WalkResult(s, flags, skip, path, was, false, 0, 0)
    }

    /** Descend keeps the invariant of the walk. */
    method DescendInv(s: AddrSpace, flags: nat, i: nat, cur: nat, index: nat, ghost skip: set<nat>, ghost path: seq<nat>, ghost was: Before)
      returns (ok: bool, next: nat)
      requires WalkAt(s, flags, skip, path, i, cur, was)
      requires i < cfg.ptlevels && path[0] !in skip && (i > 0 ==> index == path[i - 1] < cfg.PageEntries())
      modifies this`mem, this`pool, s`ptr, s`tables
      ensures ok ==> WalkAt(s, flags, skip, path, i + 1, next, was)
      ensures !ok ==> Ended(s, flags, skip, path, was)
      ensures Spent(path, old(s.tables), |old(pool)|, s.tables, |pool|) && (!ok ==> Short(path, s.tables, |pool|))
    {
      hide Spent, Short;
      ghost var mem1, tables1 := mem, s.tables;
      if was.ptr != 0 && path[..cfg.ptlevels - 1] in was.tables {
        PrefixClosed(cfg, mem, BaseOf(s.ptr, cfg.width), s.tables, flags, skip, path[..cfg.ptlevels - 1], i);
        assert path[..cfg.ptlevels - 1][..i] == path[..i];
      }
      assert i == 0 && s.ptr != 0 ==> path[..i] in s.tables by { assert path[..0] == []; }
      ok, next := Descend(s, flags, i, cur, index, skip, path);
      GrownTrans(cfg.ptlevels, was.mem, was.tables, mem1, tables1, mem, s.tables);
    }

    /** One turn of the loop of ptwalk. */
    method DescendOn(s: AddrSpace, flags: nat, i: nat, cur: nat, index: nat, ghost skip: set<nat>, ghost addr: nat, ghost was: Before)
      returns (ok: bool, next: nat)
      requires WalkTo(s, flags, skip, addr, i, cur, was)
      requires i < cfg.ptlevels && index == IndexOf(addr, cfg.pgtables[i])
      modifies this`mem, this`pool, s`ptr, s`tables
      ensures ok ==> WalkTo(s, flags, skip, addr, i + 1, next, was)
      ensures !ok ==> Walked(s, flags, skip, Path(cfg, addr), was, false, 0, 0)
    {
      PathIndex(cfg, i, addr);
      hide WalkInv, WalkResult, Spent, Short, Path, IndexOf, Slot, Config.LevelsOk, Config.PageEntries;
      ghost var tables1, free1 := s.tables, |pool|;
      ok, next := DescendInv(s, flags, i, cur, index, skip, Path(cfg, addr), was);
      SpentTrans(Path(cfg, addr), was.tables, |was.pool|, tables1, free1, s.tables, |pool|);
    }

    lemma {:induction false} WalkStarts(s: AddrSpace, flags: nat, skip: set<nat>, addr: nat)
      requires MemOk() && GrowingTree(s, flags, skip) && Slot(cfg, 1, addr) !in skip
      ensures |cfg.pgtables| == cfg.ptlevels + 1
      ensures WalkTo(s, flags, skip, addr, 0, 0, Before(mem, s.tables, pool, s.ptr, Pages()))
    {
      NothingSpent(Path(cfg, addr), s.tables, |pool|);
      hide Spent;
      GrownRefl(cfg.ptlevels, mem, s.tables);
    }

    lemma {:induction false} WalkEnds(s: AddrSpace, flags: nat, skip: set<nat>, addr: nat, cur: nat, index: nat, was: Before)
      requires |cfg.pgtables| == cfg.ptlevels + 1 && WalkTo(s, flags, skip, addr, cfg.ptlevels, cur, was)
      requires index == IndexOf(addr, cfg.pgtables[cfg.ptlevels])
      ensures Walked(s, flags, skip, Path(cfg, addr), was, true, cur, index)
    {
      PathIndex(cfg, cfg.ptlevels, addr);
      hide Path, IndexOf, Slot, Config.LevelsOk, Config.PageEntries, Spent, Grown, SkipSame, TreeOk, PoolIn;
    }

    /** Walk to the entry of `addr`, adding the missing tables. */
    method Ptwalk(s: AddrSpace, addr: nat, flags: nat, ghost skip: set<nat>) returns (ok: bool, table: nat, index: nat)
      requires MemOk() && GrowingTree(s, flags, skip) && Slot(cfg, 1, addr) !in skip
      modifies this`mem, this`pool, s`ptr, s`tables
      ensures Walked(s, flags, skip, Path(cfg, addr), old(Before(mem, s.tables, pool, s.ptr, Pages())), ok, table, index)
    {
      ghost var was := Before(mem, s.tables, pool, s.ptr, Pages());
      WalkStarts(s, flags, skip, addr);
      hide *;
      var cur := 0;
      var i := 0;
      while i <= cfg.ptlevels
        invariant i <= cfg.ptlevels && WalkTo(s, flags, skip, addr, i, cur, was)
      {
        index := IndexOf(addr, cfg.pgtables[i]);
        if i == cfg.ptlevels {
          WalkEnds(s, flags, skip, addr, cur, index, was);
          return true, cur, index;
        }
        ok, cur := DescendOn(s, flags, i, cur, index, skip, addr, was);
        if !ok {
          return false, 0, 0;
        }
        i := i + 1;
      }
      assert false;
    }

    // ----- map ----------------------------------------------------------------------------------------------

    /** The ptwalk of map: it may add tables, and changes no meaning. */
    method WalkUser(s: AddrSpace, va: nat) returns (ok: bool, table: nat, index: nat)
      requires Valid() && s in spaces && IsUserPage(cfg, va)
      modifies this`mem, this`pool, s`ptr, s`tables
      ensures Valid() && s.ptr == old(s.ptr) && Pages() == old(Pages())
      ensures Contained(cfg, kpt, old(mem), old(s.tables), mem, s.tables)
      ensures ok <==> |Missing(cfg, old(s.tables), va)| <= |old(pool)|
      ensures |pool| <= |old(pool)| && (ok ==> |pool| == |old(pool)| - |Missing(cfg, old(s.tables), va)|)
      ensures ok ==> LeafPlace(cfg, s.tables, Path(cfg, va), table, index)
      ensures ok ==> table in mem && index < |mem[table]| && LeafTranslation(mem[table][index]) == ViewAt(s.view, va)
      ensures Path(cfg, va)[..cfg.ptlevels - 1] in old(s.tables) ==> mem == old(mem) && pool == old(pool) && s.tables == old(s.tables)
    {
      UserSlotIsNotKernel(cfg, va);
      ghost var mem0, tables0 := mem, s.tables;
      SpaceGrows(s);
      hide Spent, Short;
      ok, table, index := Ptwalk(s, va, USER_FLAGS, KernelSlots(cfg));
      WalkKeepsValid(s, mem0, tables0);
      if ok {
        LeafMeansView(s, va, table, index);
        PlaceInTables(cfg, s.tables, va, table, index);
        LeafHasPrefixes(cfg, mem, BaseOf(s.ptr, cfg.width), s.tables, USER_FLAGS, KernelSlots(cfg), va);
      }
      WalkBudget(cfg, va, tables0, |old(pool)|, s.tables, |pool|, ok);
    }

    /** When map does not panic, in the words of its source and of the hardware. */
    lemma {:induction false} MapRequestMeaning(s: AddrSpace, va: nat, pa: nat, prot: nat)
      requires SpaceOk(s)
      ensures MapRequestOk(cfg, s.view, va, pa, prot) <==>
        && cfg.areas[0].start <= va < cfg.areas[0].end && va % 4096 == 0 && pa % 4096 == 0
        && (Translate(cfg, mem, 1, BaseOf(s.ptr, cfg.width), va) == Fault <==> prot != 0)
    {
      if IsUserPage(cfg, va) {
        HardwareSeesView(s, va);
      }
      hide Translate, TreeOk;
    }

    /** Map (or, with MMAP_NONE, unmap) one page.  `ok` is false where the source panics. */
    method Map(s: AddrSpace, va: nat, pa: nat, prot: nat) returns (ok: bool)
      requires Valid() && s in spaces && va < Pow2(cfg.width) && pa < Pow2(cfg.width)
      modifies this`mem, this`pool, s
      ensures Valid() && s.ptr == old(s.ptr) && Pages() == old(Pages())
      ensures ok <==>
        && cfg.areas[0].start <= va < cfg.areas[0].end && va % 4096 == 0 && pa % 4096 == 0
        && (old(Translate(cfg, mem, 1, BaseOf(s.ptr, cfg.width), va)) == Fault <==> prot != 0)
        && |Missing(cfg, old(s.tables), va)| <= |old(pool)|
      ensures |pool| <= |old(pool)|
      ensures ok <==> MapRequestOk(cfg, old(s.view), va, pa, prot) && |Missing(cfg, old(s.tables), va)| <= |old(pool)|
      ensures s.view == if ok then MappedView(old(s.view), va, pa, prot) else old(s.view)
      ensures ok ==> |pool| == |old(pool)| - |Missing(cfg, old(s.tables), va)|
      ensures |Missing(cfg, old(s.tables), va)| <= cfg.ptlevels - 1
      ensures Contained(cfg, kpt, old(mem), old(s.tables), mem, s.tables)
      ensures SameBesides(old(mem), if ok then {(s, va)} else {})
      ensures ok ==>
        Translate(cfg, mem, 1, BaseOf(s.ptr, cfg.width), va)
        == if prot == 0 then Fault else Frame(pa % 0x10_0000_0000_0000, prot / 2 % 2 == 1, true)
    {
      MapRequestMeaning(s, va, pa, prot);
      AddressTests(va, pa);
      SpaceParts(s, va);
      SelfContained(cfg, kpt, mem, s.tables);
      hide *;
      if !InArea(cfg, cfg.areas[0], va) || va != BaseOf(va, cfg.width) || pa != BaseOf(pa, cfg.width) {
        SameAsBefore();
        return false;
      }
      RequestedIs(pa, prot);
      ok := MapSeen(s, va, pa, prot);
    }

    /** The tests of the addresses in map. */
    lemma {:induction false} AddressTests(va: nat, pa: nat)
      requires cfg.Valid() && va < Pow2(cfg.width) && pa < Pow2(cfg.width)
      ensures va == BaseOf(va, cfg.width) <==> va % 4096 == 0
      ensures pa == BaseOf(pa, cfg.width) <==> pa % 4096 == 0
      ensures IsUserPage(cfg, va) <==> InArea(cfg, cfg.areas[0], va) && va % 4096 == 0
      ensures InArea(cfg, cfg.areas[0], va) <==> cfg.areas[0].start <= va < cfg.areas[0].end
    {
      BaseOfMeaning(va, cfg.width);
      BaseOfMeaning(pa, cfg.width);
    }

    lemma {:induction false} SpaceParts(s: AddrSpace, va: nat)
      requires SpaceOk(s)
      ensures cfg.Valid() && |Missing(cfg, s.tables, va)| <= cfg.ptlevels - 1
    {
      MissingAtMost(cfg, s.tables, va);
    }

    lemma {:induction false} SameAsBefore()
      requires cfg.Valid()
      ensures SameBesides(mem, {})
    {
    }

    /** map after its checks of the addresses, and what the hardware sees of it. */
    method MapSeen(s: AddrSpace, va: nat, pa: nat, prot: nat) returns (ok: bool)
      requires Valid() && s in spaces && IsUserPage(cfg, va) && pa % 4096 == 0
      modifies this`mem, this`pool, s
      ensures Valid() && s.ptr == old(s.ptr) && Pages() == old(Pages())
      ensures ok <==> MapRequestOk(cfg, old(s.view), va, pa, prot) && |Missing(cfg, old(s.tables), va)| <= |old(pool)|
      ensures s.view == if ok then MappedView(old(s.view), va, pa, prot) else old(s.view)
      ensures |pool| <= |old(pool)| && (ok ==> |pool| == |old(pool)| - |Missing(cfg, old(s.tables), va)|)
      ensures Contained(cfg, kpt, old(mem), old(s.tables), mem, s.tables)
      ensures SameBesides(old(mem), if ok then {(s, va)} else {})
      ensures ok ==> Translate(cfg, mem, 1, BaseOf(s.ptr, cfg.width), va) == Requested(pa, prot)
    {
      HardwareSeesViews();
      MappedViewAt(s.view, va, pa, prot);
      hide SpaceIn, Translate, Contained, MapRequestOk, IsUserPage, PoolIn, KernelIn, BaseOf, MappedView, ViewAt, And, Requested, Missing;
      hide WellFormed, Pages, Config.LevelsOk, Config.AreasOk;
      ok := MapPage(s, va, pa, prot);
      HardwareSeesViews();
    }

    /** map after its checks of the addresses. */
    method MapPage(s: AddrSpace, va: nat, pa: nat, prot: nat) returns (ok: bool)
      requires Valid() && s in spaces && IsUserPage(cfg, va) && pa % 4096 == 0
      modifies this`mem, this`pool, s
      ensures Valid() && s.ptr == old(s.ptr) && Pages() == old(Pages())
      ensures ok <==> MapRequestOk(cfg, old(s.view), va, pa, prot) && |Missing(cfg, old(s.tables), va)| <= |old(pool)|
      ensures s.view == if ok then MappedView(old(s.view), va, pa, prot) else old(s.view)
      ensures |pool| <= |old(pool)| && (ok ==> |pool| == |old(pool)| - |Missing(cfg, old(s.tables), va)|)
      ensures Contained(cfg, kpt, old(mem), old(s.tables), mem, s.tables)
    {
      SpaceParts(s, va);
      hide *;
      var table, index;
      ok, table, index := WalkUser(s, va);
      if !ok {
        return;
      }
      ghost var mem1, tables1 := mem, s.tables;
      ok := UpdateLeaf(s, va, table, index, pa, prot);
      ContainedTrans(cfg, kpt, old(mem), old(s.tables), mem1, tables1, mem, s.tables);
      if ok {
        PlaceInTables(cfg, s.tables, va, table, index);
        WalkAgain(s, va);
      }
    }

    /** The ptwalk at the end of map changes nothing. */
    method WalkAgain(s: AddrSpace, va: nat)
      requires Valid() && s in spaces && IsUserPage(cfg, va) && Path(cfg, va)[..cfg.ptlevels - 1] in s.tables
      modifies this`mem, this`pool, s`ptr, s`tables
      ensures Valid() && s.ptr == old(s.ptr) && mem == old(mem) && pool == old(pool) && s.tables == old(s.tables)
    {
      hide WellFormed, Pages, Contained, IsUserPage;
      var ok, table, index := WalkUser(s, va);
    }

    /** The middle of map: look at the entry, then panic or overwrite it. */
    method UpdateLeaf(s: AddrSpace, va: nat, table: nat, index: nat, pa: nat, prot: nat) returns (ok: bool)
      requires Valid() && s in spaces && IsUserPage(cfg, va) && pa % 4096 == 0
      requires LeafPlace(cfg, s.tables, Path(cfg, va), table, index)
      modifies this`mem, s`view
      ensures Valid() && Pages() == old(Pages())
      ensures ok <==> MapRequestOk(cfg, old(s.view), va, pa, prot)
      ensures s.view == if ok then MappedView(old(s.view), va, pa, prot) else old(s.view)
      ensures Contained(cfg, kpt, old(mem), s.tables, mem, s.tables)
    {
      LeafMeansView(s, va, table, index);
      FlagTests(mem[table][index]);
      if prot == MMAP_NONE {
        if And(mem[table][index], PTE_P) == 0 {
          return false;
        }
        WriteLeaf(s, va, table, index, 0, MappedView(s.view, va, pa, prot));
      } else {
        if And(mem[table][index], PTE_P) != 0 {
          return false;
        }
        var pte := UserPte(pa, And(prot, MMAP_WRITE) != 0);
        PteBits(pa, And(prot, MMAP_WRITE) != 0);
        WriteLeaf(s, va, table, index, pte, MappedView(s.view, va, pa, prot));
      }
      return true;
    }

    /** `*ptentry = e`, with the change it makes to the space's meaning. */
    method WriteLeaf(s: AddrSpace, va: nat, table: nat, index: nat, e: nat, ghost view: map<nat, (nat, bool)>)
      requires Valid() && s in spaces && IsUserPage(cfg, va)
      requires LeafPlace(cfg, s.tables, Path(cfg, va), table, index)
      requires LeafTranslation(e) == ViewAt(view, va)
      requires forall a: nat :: a != va ==> ViewAt(view, a) == ViewAt(s.view, a)
      modifies this`mem, s`view
      ensures Valid() && s.view == view && Pages() == old(Pages())
      ensures Contained(cfg, kpt, old(mem), s.tables, mem, s.tables)
    {
      ghost var mem0, view0 := mem, s.view;
      LeafMeansView(s, va, table, index);
      LeafWritten(cfg, mem, kernel, s.ptr, s.tables, s.view, va, table, index, e, view);
      StoreWord(table, index, e);
      s.view := view;
      OthersUntouched(mem0, s, {table});
    }

    /** A registered space is where a walk may start. */
    lemma {:induction false} SpaceGrows(s: AddrSpace)
      requires SpaceOk(s)
      ensures GrowingTree(s, USER_FLAGS, KernelSlots(cfg)) && s.ptr != 0
    {
    }

    /** After a walk in s, grown from mem0 and tables0, all is still well and all meanings are the
        same. */
    lemma {:induction false} WalkKeepsValid(s: AddrSpace, mem0: Memory, tables0: Tables)
      requires MemOk() && s in spaces && s.ptr != 0 && GrowingTree(s, USER_FLAGS, KernelSlots(cfg))
      requires KernelIn(cfg, mem0, kpt, kernel) && SpaceIn(cfg, mem0, kernel, s.ptr, tables0, s.view)
      requires forall t :: t in spaces && t != s ==>
        SpaceIn(cfg, mem0, kernel, t.ptr, t.tables, t.view) && t.tables.Values !! tables0.Values
      requires forall t, u :: t in spaces && u in spaces && t != s && u != s && t != u ==> t.tables.Values !! u.tables.Values
      requires Grown(cfg.ptlevels, mem0, tables0, mem, s.tables)
      requires SkipSame(KernelSlots(cfg), mem0, tables0, mem, s.tables)
      ensures Valid()
      ensures KernelTranslationsSame(cfg, kpt, mem0, mem)
    {
      KernelPages(cfg, mem0, kpt, kernel);
      forall t | t in spaces && t != s ensures t.tables.Values !! s.tables.Values {
        TreePages(cfg, mem0, BaseOf(t.ptr, cfg.width), t.tables, USER_FLAGS, KernelSlots(cfg));
      }
      OthersUntouched(mem0, s, tables0.Values);
      GrownSpace(cfg, mem0, mem, kernel, s.ptr, tables0, s.tables, s.view);
    }

    /** Changes inside pages that are not the kernel's and not the other spaces' leave those be. */
    lemma {:induction false} OthersUntouched(mem0: Memory, s: AddrSpace, touched: set<nat>)
      requires KernelIn(cfg, mem0, kpt, kernel) && kernel.Values !! touched
      requires forall t :: t in spaces && t != s ==>
        SpaceIn(cfg, mem0, kernel, t.ptr, t.tables, t.view) && t.tables.Values !! touched
      requires SameOn(mem0, mem, mem0.Keys - touched)
      ensures KernelOk() && forall t :: t in spaces && t != s ==> SpaceOk(t)
      ensures KernelTranslationsSame(cfg, kpt, mem0, mem)
      ensures forall i: nat :: EntryAt(mem, kernel, [], i) == EntryAt(mem0, kernel, [], i)
    {
      KernelStays(cfg, mem0, mem, kpt, kernel);
      forall t | t in spaces && t != s ensures SpaceOk(t) {
        SpaceFrame(cfg, mem0, mem, kernel, t.ptr, t.tables, t.view);
      }
    }

    /** What ptwalk returns for a user page: the word that decides its meaning. */
    lemma {:induction false} LeafMeansView(s: AddrSpace, va: nat, table: nat, index: nat)
      requires SpaceOk(s) && IsUserPage(cfg, va) && LeafPlace(cfg, s.tables, Path(cfg, va), table, index)
      ensures table in s.tables.Values && table in mem && index < |mem[table]|
      ensures LeafTranslation(mem[table][index]) == ViewAt(s.view, va)
    {
      var path := Path(cfg, va);
      assert TableOk(cfg, mem, path[..|path| - 1], table);
      assert LeafAt(mem, s.tables, path) == mem[table][index];
    }

    // ----- vme_init -----------------------------------------------------------------------------------------

    /** The tree under construction maps exactly the pages in `done`, each to itself, writable for the
        kernel only. */
    ghost predicate IdentityOn(s: AddrSpace, done: set<nat>)
      reads this, s
    {
      IdentityTree(s, done)
    }

    ghost predicate IdentityTree(s: AddrSpace, done: set<nat>)
      reads this, s
    {
      && GrowingTree(s, PTE_W, {})
      && forall va: nat {:trigger Path(cfg, va)} :: va < Pow2(cfg.AddrBits()) && va % 4096 == 0 ==>
           LeafTranslation(LeafAt(mem, s.tables, Path(cfg, va))) == if va in done then Frame(va, true, false) else Fault
    }

    /** The body of the inner loop of vme_init: `*ptwalk(&as, cur, PTE_W) = cur | PTE_P | PTE_W`. */
    method MapIdentity(s: AddrSpace, cur: nat, ghost done: set<nat>, ghost needed: set<seq<nat>>) returns (ok: bool)
      requires MemOk() && IdentityOn(s, done) && cur < Pow2(cfg.AddrBits()) && cur % 4096 == 0
      requires s.tables.Keys <= needed && Prefixes(cfg, cur) <= needed
      modifies this`mem, this`pool, s`ptr, s`tables
      ensures MemOk() && Pages() == old(Pages())
      ensures ok ==> s.ptr != 0 && IdentityOn(s, done + {cur})
      ensures Budget(old(s.tables), |old(pool)|, s.tables, |pool|, needed, ok)
    {
      hide Spent, Short, Budget, Prefixes;
      var table, index;
      ok, table, index := Ptwalk(s, cur, PTE_W, {});
      WithinBudget(cfg, cur, old(s.tables), |old(pool)|, s.tables, |pool|, needed, ok);
      if !ok {
        return;
      }
      assert IdentityOn(s, done);
      WriteIdentity(s, cur, table, index, done);
    }

    /** `*ptentry = cur | PTE_P | PTE_W`. */
    method WriteIdentity(s: AddrSpace, cur: nat, table: nat, index: nat, ghost done: set<nat>)
      requires MemOk() && IdentityOn(s, done) && s.ptr != 0
      requires cur < Pow2(cfg.AddrBits()) && cur % 4096 == 0 && LeafPlace(cfg, s.tables, Path(cfg, cur), table, index)
      modifies this`mem
      ensures MemOk() && Pages() == old(Pages()) && IdentityOn(s, done + {cur})
    {
      Pow2Mono(cfg.AddrBits(), cfg.width);
      Pow2Mono(cfg.AddrBits(), 52);
      PhysTop();
      LinkBits(cur, PTE_W, cfg.width);
      IdentityLeaf(cfg, mem, BaseOf(s.ptr, cfg.width), s.tables, cur, Link(cur, PTE_W));
      hide Link, BaseOf, TreeOk;
      StoreWord(table, index, Link(cur, PTE_W));
    }

    /** One turn of the inner loop of vme_init. */
    method MapIdentityPage(s: AddrSpace, area: VmArea, ghost k: nat, cur: nat, ghost done: set<nat>, ghost needed: set<seq<nat>>,
                           ghost t0: Tables, ghost n0: nat) returns (ok: bool)
      requires MemOk() && area in cfg.areas && k < PageCount(cfg, area) && cur == PageAddr(cfg, area, k)
      requires IdentityOn(s, done + FirstPages(cfg, area, k)) && Budget(t0, n0, s.tables, |pool|, needed, true)
      requires forall va :: va in AreaPages(cfg, area) ==> Prefixes(cfg, va) <= needed
      modifies this`mem, this`pool, s`ptr, s`tables
      ensures MemOk() && Pages() == old(Pages())
      ensures ok ==> s.ptr != 0 && IdentityOn(s, done + FirstPages(cfg, area, k + 1))
      ensures Budget(t0, n0, s.tables, |pool|, needed, ok)
    {
      PageStep(cfg, area, k);
      PageInArea(cfg, area, k);
      FirstPagesNext(cfg, area, k);
      ghost var before := done + FirstPages(cfg, area, k);
      assert before + {cur} == done + FirstPages(cfg, area, k + 1);
      BudgetKeys(t0, n0, s.tables, |pool|, needed);
      ghost var t1, n1 := s.tables, |pool|;
      hide *;
      ok := MapIdentity(s, cur, before, needed);
      BudgetTrans(t0, n0, t1, n1, s.tables, |pool|, needed, ok);
    }

    lemma {:induction false} AreaBegins(i: nat, done: set<nat>)
      requires MemOk() && i < |cfg.areas|
      ensures var area := cfg.areas[i];
        && cfg.Valid() && PageAddr(cfg, area, 0) == area.start && PageCount(cfg, area) > 0 && area.start != area.end
        && done + FirstPages(cfg, area, 0) == done && FirstPages(cfg, area, PageCount(cfg, area)) == AreaPages(cfg, area)
    {
      var area := cfg.areas[i];
      NoPages(cfg, area, done);
      PageStep(cfg, area, 0);
      FirstPagesAll(cfg, area);
      AreaIsPaged(cfg, area);
    }

    /** The inner loop of vme_init over one area. */
    method MapIdentityArea(s: AddrSpace, i: nat, ghost done: set<nat>, ghost needed: set<seq<nat>>) returns (ok: bool)
      requires MemOk() && IdentityOn(s, done) && i < |cfg.areas|
      requires s.tables.Keys <= needed && forall va :: va in AreaPages(cfg, cfg.areas[i]) ==> Prefixes(cfg, va) <= needed
      modifies this`mem, this`pool, s`ptr, s`tables
      ensures MemOk() && Pages() == old(Pages())
      ensures ok ==> s.ptr != 0 && IdentityOn(s, done + AreaPages(cfg, cfg.areas[i]))
      ensures Budget(old(s.tables), |old(pool)|, s.tables, |pool|, needed, ok)
    {
      hide *;
      var area := cfg.areas[i];
      ghost var t0, n0 := s.tables, |pool|;
      BudgetBegins(t0, n0, needed);
      AreaBegins(i, done);
      var cur := area.start;
      ghost var k := 0;
      ok := true;
      while cur != area.end
        invariant k <= PageCount(cfg, area) && cur == PageAddr(cfg, area, k)
        invariant cur == area.end <==> k == PageCount(cfg, area)
        invariant MemOk() && Pages() == old(Pages()) && ok
        invariant k > 0 ==> s.ptr != 0
        invariant IdentityOn(s, done + FirstPages(cfg, area, k))
        invariant Budget(t0, n0, s.tables, |pool|, needed, true)
        decreases PageCount(cfg, area) - k
      {
        ok := MapIdentityPage(s, area, k, cur, done, needed, t0, n0);
        if !ok {
          return;
        }
        NextPage(cfg, area, k);
        cur := (cur + 4096) % Pow2(cfg.width);
        k := k + 1;
      }
    }

    /** vme_init without a boot page table: kpt maps every kernel area to itself. */
    method VmeInit() returns (ok: bool)
      requires MemOk() && spaces == {} && |cfg.areas| > 1
      modifies this
      ensures MemOk() && Pages() == old(Pages()) && spaces == {}
      ensures ok ==> Valid()
      ensures ok ==> forall va: nat :: IsKernelAddress(cfg, va) && va % 4096 == 0 ==>
        Translate(cfg, mem, 1, kpt, va) == Frame(va, true, false)
      ensures ok <==> |old(pool)| >= |KernelTables(cfg)|
      ensures ok ==> |pool| == |old(pool)| - |KernelTables(cfg)|
    {
      var s := new AddrSpace();
      ok := MapKernelAreas(s);
      if ok {
        InstallKernel(s);
      }
    }

    lemma {:induction false} AreasBegin()
      requires MemOk()
      ensures cfg.Valid() && |cfg.pgtables| == cfg.ptlevels + 1
      ensures PagesBefore(cfg, 0) == {} && SlotsBefore(cfg, 0) == {} && SlotsBefore(cfg, |cfg.areas|) == KernelSlots(cfg)
      ensures forall k :: 1 <= k < |cfg.areas| ==> cfg.areas[k].kernel
    {
      SlotsAll(cfg);
    }

    /** One turn of the loop of vme_init over the areas. */
    method MapArea(s: AddrSpace, i: nat, ghost t0: Tables, ghost n0: nat) returns (ok: bool)
      requires MemOk() && i < |cfg.areas| && |cfg.pgtables| == cfg.ptlevels + 1
      requires IdentityOn(s, PagesBefore(cfg, i)) && Budget(t0, n0, s.tables, |pool|, KernelTables(cfg), true)
      modifies this`mem, this`pool, s`ptr, s`tables
      ensures MemOk() && Pages() == old(Pages())
      ensures ok ==> IdentityOn(s, PagesBefore(cfg, i + 1)) && (s.ptr != 0 || (s.ptr == old(s.ptr) && !cfg.areas[i].kernel))
      ensures Budget(t0, n0, s.tables, |pool|, KernelTables(cfg), ok)
    {
      hide *;
      ok := true;
      PagesNext(cfg, i);
      if cfg.areas[i].kernel {
        AreaNeeds(cfg, i);
        BudgetKeys(t0, n0, s.tables, |pool|, KernelTables(cfg));
        ghost var t1, n1 := s.tables, |pool|;
        ok := MapIdentityArea(s, i, PagesBefore(cfg, i), KernelTables(cfg));
        BudgetTrans(t0, n0, t1, n1, s.tables, |pool|, KernelTables(cfg), ok);
      }
    }

    /** The loop of vme_init over the kernel areas. */
    method MapKernelAreas(s: AddrSpace) returns (ok: bool)
      requires MemOk() && spaces == {} && |cfg.areas| > 1 && s.ptr == 0 && s.tables == map[]
      modifies this`mem, this`pool, s`ptr, s`tables
      ensures MemOk() && Pages() == old(Pages())
      ensures ok ==> s.ptr != 0 && IdentityOn(s, PagesBefore(cfg, |cfg.areas|))
      ensures ok <==> |old(pool)| >= |KernelTables(cfg)|
      ensures ok ==> |pool| == |old(pool)| - |KernelTables(cfg)|
    {
      hide *;
      ok := true;
      var i := 0;
      NoLeaves(s);
      AreasBegin();
      ghost var t0, n0 := s.tables, |pool|;
      BudgetStarts(t0, n0, KernelTables(cfg));
      while i < |cfg.areas|
        invariant i <= |cfg.areas|
        invariant MemOk() && Pages() == old(Pages()) && ok
        invariant i > 1 ==> s.ptr != 0
        invariant IdentityOn(s, PagesBefore(cfg, i))
        invariant Budget(t0, n0, s.tables, |pool|, KernelTables(cfg), true)
      {
        ok := MapArea(s, i, t0, n0);
        if !ok {
          BudgetFails(n0, s.tables, |pool|, KernelTables(cfg));
          return;
        }
        i := i + 1;
      }
      AllNeeded(s);
      BudgetMet(n0, s.tables, |pool|, KernelTables(cfg));
    }

    /** Every table that a kernel page needs is there. */
    lemma {:induction false} AllNeeded(s: AddrSpace)
      requires MemOk() && s.ptr != 0 && IdentityOn(s, PagesBefore(cfg, |cfg.areas|))
      ensures KernelTables(cfg) <= s.tables.Keys
    {
      forall p | p in KernelTables(cfg) ensures p in s.tables {
        var va: nat, l: nat :| va in PagesBefore(cfg, |cfg.areas|) && l < cfg.ptlevels && p == Path(cfg, va)[..l];
        PageIsPaged(cfg, |cfg.areas|, va);
        var path, n := Path(cfg, va), cfg.ptlevels - 1;
        assert Present(LeafAt(mem, s.tables, path));
        assert path[..n] in s.tables;
        PrefixClosed(cfg, mem, BaseOf(s.ptr, cfg.width), s.tables, PTE_W, {}, path[..n], l);
        assert path[..n][..l] == p;
      }
    }

    /** kpt becomes the root that was built. */
    method InstallKernel(s: AddrSpace)
      requires MemOk() && spaces == {} && |cfg.areas| > 1
      requires s.ptr != 0 && IdentityOn(s, PagesBefore(cfg, |cfg.areas|))
      modifies this`kpt, this`kernel
      ensures Valid()
      ensures forall va: nat :: IsKernelAddress(cfg, va) && va % 4096 == 0 ==>
        Translate(cfg, mem, 1, kpt, va) == Frame(va, true, false)
    {
      kpt := BaseOf(s.ptr, cfg.width);
      kernel := s.tables;
      KernelTreeIsKernel(cfg, mem, kpt, kernel);
      forall va: nat | IsKernelAddress(cfg, va) && va % 4096 == 0 ensures Translate(cfg, mem, 1, kpt, va) == Frame(va, true, false) {
        KernelAddressSlot(cfg, va);
        KernelPageDone(cfg, va);
        assert Path(cfg, va)[..0] == [];
        WalkFindsLeaf(cfg, mem, kpt, kernel, PTE_W, {}, va, 1);
      }
    }

    lemma {:induction false} NoLeaves(s: AddrSpace)
      requires MemOk() && s.ptr == 0 && s.tables == map[]
      ensures IdentityOn(s, {})
    {
    }

    // ----- teardown ---------------------------------------------------------------------------------------

    /** What a teardown relies on: the tree as it was in mem0, with the pages of the subtree at p
        still in use and unchanged. */
    ghost predicate Teardownable(mem0: Memory, root: nat, tables: Tables, p: seq<nat>, pages: set<nat>)
      reads this
    {
      && MemOk() && TreeOk(cfg, mem0, root, tables, USER_FLAGS, KernelSlots(cfg))
      && (forall i :: i in KernelSlots(cfg) ==> var e := EntryAt(mem0, tables, [], i); !(Present(e) && User(e)))
      && SameOn(mem0, mem, pages)
    }

    /** Free the subtree at p: every page of it once, and nothing else. */
    method Teardown(level: nat, pt: nat, ghost mem0: Memory, ghost root: nat, ghost tables: Tables, ghost p: seq<nat>)
      requires 1 <= level == |p| + 1 <= cfg.ptlevels + 1
      requires level <= cfg.ptlevels ==>
        Teardownable(mem0, root, tables, p, Subtree(tables, p)) && p in tables && pt == tables[p]
      requires MemOk()
      modifies this`mem, this`pool
      ensures MemOk() && Pages() == old(Pages())
      ensures mem == old(mem) - if level <= cfg.ptlevels then Subtree(tables, p) else {}
      decreases cfg.ptlevels + 1 - level, 1
    {
      if level > cfg.ptlevels {
        return;
      }
      BelowStart(tables, p);
      BelowAll(cfg, mem0, root, tables, USER_FLAGS, KernelSlots(cfg), p);
      assert TableOk(cfg, mem0, p, pt) && pt in Subtree(tables, p);
      hide TreeOk, SameOn, PoolIn, Pages, Below, Subtree, EntryAt, Pow2;
      var index := 0;
      while index < Pow2(cfg.pgtables[level].bits)
        invariant index <= Pow2(cfg.pgtables[level].bits) == cfg.PageEntries()
        invariant MemOk() && Pages() == old(Pages())
        invariant mem == old(mem) - Below(tables, p, index)
      {
        StillThere(mem0, old(mem), root, tables, p, index, mem);
        TeardownEntry(level, pt, index, mem0, root, tables, p);
        BelowNext(tables, p, index);
        index := index + 1;
      }
      StillThere(mem0, old(mem), root, tables, p, index, mem);
      Pgfree(pt);
    }

    /** The body of the loop of teardown. */
    method TeardownEntry(level: nat, pt: nat, index: nat, ghost mem0: Memory, ghost root: nat, ghost tables: Tables, ghost p: seq<nat>)
      requires 1 <= level == |p| + 1 <= cfg.ptlevels
      requires Teardownable(mem0, root, tables, p, Subtree(tables, p + [index]) + {pt})
      requires p in tables && pt == tables[p] && index < cfg.PageEntries()
      modifies this`mem, this`pool
      ensures MemOk() && Pages() == old(Pages())
      ensures mem == old(mem) - Subtree(tables, p + [index])
      decreases cfg.ptlevels + 1 - level, 0
    {
      assert TableOk(cfg, mem0, p, pt);
      var e := mem[pt][index];
      assert e == EntryAt(mem0, tables, p, index);
      FlagTests(e);
      hide TreeOk, PoolIn, Pages, Subtree;
      if And(e, PTE_P) != 0 && And(e, PTE_U) != 0 {
        ChildOfUserEntry(cfg, mem0, root, tables, p, index);
        if level == cfg.ptlevels {
          NothingBelowLeaves(cfg, mem0, root, tables, p + [index]);
        }
        Teardown(level + 1, BaseOf(e, cfg.width), mem0, root, tables, p + [index]);
      } else {
        NoChildOfOtherEntry(cfg, mem0, root, tables, p, index);
      }
    }

    /** After the subtrees of the slots under k are gone, the table at p and the subtree of slot k are
        as they were. */
    lemma {:induction false} StillThere(mem0: Memory, before: Memory, root: nat, tables: Tables, p: seq<nat>, k: nat, now: Memory)
      requires cfg.Valid() && TreeOk(cfg, mem0, root, tables, USER_FLAGS, KernelSlots(cfg)) && p in tables
      requires SameOn(mem0, before, Subtree(tables, p)) && now == before - Below(tables, p, k)
      ensures SameOn(mem0, now, Subtree(tables, p + [k]) + {tables[p]})
      ensures tables[p] in now
    {
      SubtreesApart(cfg, mem0, root, tables, USER_FLAGS, KernelSlots(cfg), p, k);
      assert Subtree(tables, p + [k]) + {tables[p]} <= Subtree(tables, p) by {
        forall q | q in tables && p + [k] <= q ensures p <= q {
          assert q[..|p|] == (p + [k])[..|p|] == p;
        }
      }
      assert TableOk(cfg, mem0, p, tables[p]);
      hide TreeOk, Subtree, Below;
    }

    /** teardown(0, &as->ptr). */
    method TeardownRoot(s: AddrSpace)
      requires MemOk() && KernelOk() && SpaceOk(s)
      modifies this`mem, this`pool
      ensures MemOk() && Pages() == old(Pages())
      ensures mem == old(mem) - s.tables.Values && |pool| == |old(pool)| + |s.tables.Values|
    {
      ghost var mem0, root := mem, BaseOf(s.ptr, cfg.width);
      PoolSize();
      WholeTree(s.tables);
      TreePages(cfg, mem, root, s.tables, USER_FLAGS, KernelSlots(cfg));
      FlagTests(s.ptr);
      if And(s.ptr, PTE_P) != 0 && And(s.ptr, PTE_U) != 0 {
        Teardown(1, BaseOf(s.ptr, cfg.width), mem0, root, s.tables, []);
      }
      PoolSize();
      assert mem0.Keys == mem.Keys + s.tables.Values;
    }

    /** Release an address space: its table pages leave `mem` for the pool, each once, and no other
        page does: no kernel table, no table of another space and no frame mapped for the user. */
    method Unprotect(s: AddrSpace)
      requires Valid() && s in spaces
      modifies this`mem, this`pool, this`spaces
      ensures Valid() && spaces == old(spaces) - {s} && Pages() == old(Pages())
      ensures mem == old(mem) - s.tables.Values && |pool| == |old(pool)| + |s.tables.Values|
      ensures Free() == old(Free()) + s.tables.Values && s.tables.Values !! old(Free())
      ensures KernelTranslationsSame(cfg, kpt, old(mem), mem)
    {
      ghost var mem0, pages := mem, s.tables.Values;
      KernelPages(cfg, mem, kpt, kernel);
      TreePages(cfg, mem, BaseOf(s.ptr, cfg.width), s.tables, USER_FLAGS, KernelSlots(cfg));
      FreeIs();
      TeardownRoot(s);
      FreeIs();
      assert mem.Keys == mem0.Keys - pages;
      OthersUntouched(mem0, s, pages);
      spaces := spaces - {s};
    }

    // ----- runs ---------------------------------------------------------------------------------------------

    /** A run of map calls, up to the first panic. */
    method RunMaps(s: AddrSpace, requests: seq<Request>) returns (served: nat)
      requires Valid() && s in spaces && forall r :: r in requests ==> r.va < Pow2(cfg.width) && r.pa < Pow2(cfg.width)
      modifies this`mem, this`pool, s
      ensures Valid() && s.ptr == old(s.ptr) && Pages() == old(Pages()) && served <= |requests|
      ensures s.view == Replay(old(s.view), requests[..served])
      ensures served < |requests| ==> var r := requests[served];
        !MapRequestOk(cfg, s.view, r.va, r.pa, r.prot) || |pool| < cfg.ptlevels - 1
      ensures Contained(cfg, kpt, old(mem), old(s.tables), mem, s.tables)
    {
      SelfContained(cfg, kpt, mem, s.tables);
      served := 0;
      assert requests[..0] == [] && Replay(s.view, []) == s.view;
      hide *;
      while served < |requests|
        invariant served <= |requests|
        invariant Valid() && s.ptr == old(s.ptr) && Pages() == old(Pages())
        invariant s.view == Replay(old(s.view), requests[..served])
        invariant Contained(cfg, kpt, old(mem), old(s.tables), mem, s.tables)
      {
        var r := requests[served];
        ghost var mem1, tables1 := mem, s.tables;
        ReplayNext(old(s.view), requests, served);
        var ok := Map(s, r.va, r.pa, r.prot);
        ContainedTrans(cfg, kpt, old(mem), old(s.tables), mem1, tables1, mem, s.tables);
        if !ok {
          return;
        }
        served := served + 1;
      }
    }

    /** Any run of maps, and unprotect: of all pages only those that the space owned at the start are
        gone. */
    method ServeAndRelease(s: AddrSpace, requests: seq<Request>)
      requires Valid() && s in spaces
      requires forall r :: r in requests ==> r.va < Pow2(cfg.width) && r.pa < Pow2(cfg.width)
      modifies this`mem, this`pool, this`spaces, s
      ensures Valid() && spaces == old(spaces) - {s} && Pages() == old(Pages())
      ensures SameOn(old(mem), mem, old(mem).Keys - old(s.tables).Values) && mem.Keys == old(mem).Keys - old(s.tables).Values
    {
      ghost var mem1, tables1 := mem, s.tables;
      var served := RunMaps(s, requests);
      ghost var mem2 := mem;
      assert OnlyOwnPages(mem1, tables1, mem2, s.tables);
      hide *;
      Unprotect(s);
      OwnPagesRemoved(mem1, tables1, mem2, s.tables);
    }

    /** protect, any run of maps, unprotect: memory is as before, and so is the number of free pages. */
    method Lifecycle(s: AddrSpace, requests: seq<Request>)
      requires Valid() && s !in spaces && pool != []
      requires forall r :: r in requests ==> r.va < Pow2(cfg.width) && r.pa < Pow2(cfg.width)
      modifies this`mem, this`pool, this`spaces, s
      ensures Valid() && spaces == old(spaces) && Pages() == old(Pages())
      ensures mem == old(mem) && |pool| == |old(pool)|
    {
      FreePages();
      hide WellFormed, KernelTranslationsSame, Pages;
      ghost var mem0 := mem;
      var ok := Protect(s);
      RootOnly(s.tables);
      ghost var mem1, root := mem, s.tables[[]];
      hide *;
      ServeAndRelease(s, requests);
      RootRemoved(mem0, root, mem1, mem);
      FreePages();
    }

    lemma {:induction false} FreePages()
      requires Valid()
      ensures |Pages()| == |mem.Keys| + |pool|
    {
      PoolSize();
    }

    // ----- protect ------------------------------------------------------------------------------------------

    /** Create an address space: a root page whose kernel slots are copies of kpt's.  `ok` is false
        where the source panics. */
    method Protect(s: AddrSpace) returns (ok: bool)
      requires Valid() && s !in spaces
      modifies this`mem, this`pool, this`spaces, s
      ensures Valid() && Pages() == old(Pages())
      ensures ok <==> old(pool) != []
      ensures spaces == if ok then old(spaces) + {s} else old(spaces)
      ensures ok ==> s.view == map[] && s.tables.Keys == {[]} && mem == old(mem)[s.tables[[]] := mem[s.tables[[]]]]
      ensures ok ==> s.tables[[]] !in old(mem)
      ensures !ok ==> mem == old(mem) && pool == old(pool)
      ensures KernelTranslationsSame(cfg, kpt, old(mem), mem)
    {
      hide Or, BaseOf, SpaceIn, KernelIn, PoolIn;
      ghost var mem0 := mem;
      var upt := NewRoot();
      ok := upt != 0;
      if ok {
        s.ptr := Or(Or(upt, PTE_P), PTE_U);
        s.tables := map[[] := upt];
        s.view := map[];
        RootPtrBits(upt, cfg.width);
        NewSpace(s, mem0, upt);
        spaces := spaces + {s};
      }
    }

    /** A fresh root page with the kernel's entries. */
    method NewRoot() returns (upt: nat)
      requires MemOk() && KernelOk()
      modifies this`mem, this`pool
      ensures MemOk() && Pages() == old(Pages())
      ensures upt == 0 <==> old(pool) == []
      ensures upt == 0 ==> mem == old(mem) && pool == old(pool)
      ensures upt != 0 ==> RootCopied(old(mem), upt, KernelSlots(cfg))
    {
      KernelPages(cfg, mem, kpt, kernel);
      ghost var mem0 := mem;
      upt := Pgallocz();
      if upt != 0 {
        CopyKernelSlots(upt, mem0);
      }
    }

    /** The loop of protect over the kernel areas. */
    method CopyKernelSlots(upt: nat, ghost mem0: Memory)
      requires MemOk() && RootCopied(mem0, upt, {})
      modifies this`mem
      ensures MemOk() && Pages() == old(Pages()) && RootCopied(mem0, upt, KernelSlots(cfg))
    {
      hide *;
      AreasBegin();
      var i := 0;
      while i < |cfg.areas|
        invariant i <= |cfg.areas|
        invariant MemOk() && Pages() == old(Pages())
        invariant RootCopied(mem0, upt, SlotsBefore(cfg, i))
      {
        SlotsNext(cfg, i);
        if cfg.areas[i].kernel {
          CopyArea(i, upt, mem0, SlotsBefore(cfg, i));
        } else {
          assert SlotsBefore(cfg, i) + {} == SlotsBefore(cfg, i);
        }
        i := i + 1;
      }
    }

    /** The page upt holds kpt's entries at the slots in `done` and zeros elsewhere; the rest of
        memory is as in mem0. */
    ghost predicate RootCopied(mem0: Memory, upt: nat, done: set<nat>)
      reads this
    {
      RootHas(mem0, upt, done)
    }

    ghost predicate RootHas(mem0: Memory, upt: nat, done: set<nat>)
      reads this
    {
      && cfg.Valid() && upt !in mem0 && upt in mem && IsPage(upt, cfg.width) && |mem[upt]| == cfg.PageEntries()
      && mem == mem0[upt := mem[upt]] && kpt in mem0 && |mem0[kpt]| == cfg.PageEntries()
      && forall j :: 0 <= j < cfg.PageEntries() ==> mem[upt][j] == if j in done then mem0[kpt][j] else 0
    }

    /** The inner loop of protect: from start, by the size of a level-1 entry, until the address
        equals the end, wrapping at the top. */
    method CopyArea(i: nat, upt: nat, ghost mem0: Memory, ghost done: set<nat>)
      requires MemOk() && RootCopied(mem0, upt, done) && i < |cfg.areas|
      modifies this`mem
      ensures MemOk() && Pages() == old(Pages())
      ensures RootCopied(mem0, upt, done + AreaSlots(cfg, cfg.areas[i]))
    {
      var area := cfg.areas[i];
      var info := cfg.pgtables[1];
      var cur := area.start;
      ghost var k := 0;
      ghost var n := SlotCount(cfg, area);
      StepAddress(cfg, area, 0);
      assert FirstSlots(cfg, area, 0) == {} && done + {} == done;
      hide RootHas, PoolIn, Pages, FirstSlots, IndexOf, StepAddr, SlotCount, Slot;
      while cur != area.end
        invariant k <= n && cur == StepAddr(cfg, area, k)
        invariant cur == area.end <==> k == n
        invariant MemOk() && Pages() == old(Pages())
        invariant RootCopied(mem0, upt, done + FirstSlots(cfg, area, k))
        decreases n - k
      {
        StepAddress(cfg, area, k);
        StepAddress(cfg, area, k + 1);
        var index := IndexOf(cur, info);
        IndexOfIsSlot(cfg, 1, cur);
        FirstSlotsNext(cfg, area, k);
        assert done + FirstSlots(cfg, area, k + 1) == done + FirstSlots(cfg, area, k) + {index};
        CopySlot(upt, index, mem0, done + FirstSlots(cfg, area, k));
        cur := (cur + Pow2(info.shift)) % Pow2(cfg.width);
        k := k + 1;
      }
    }

    /** `upt[index] = kpt[index]`. */
    method CopySlot(upt: nat, index: nat, ghost mem0: Memory, ghost done: set<nat>)
      requires MemOk() && RootCopied(mem0, upt, done) && index < cfg.PageEntries()
      modifies this`mem
      ensures MemOk() && Pages() == old(Pages()) && RootCopied(mem0, upt, done + {index})
    {
      StoreWord(upt, index, mem[kpt][index]);
    }

    lemma {:induction false} NewSpace(s: AddrSpace, mem0: Memory, upt: nat)
      requires MemOk() && RootCopied(mem0, upt, KernelSlots(cfg)) && s !in spaces
      requires KernelIn(cfg, mem0, kpt, kernel)
      requires forall t :: t in spaces ==> SpaceIn(cfg, mem0, kernel, t.ptr, t.tables, t.view)
      requires s.ptr < Pow2(cfg.width) && Present(s.ptr) && User(s.ptr) && BaseOf(s.ptr, cfg.width) == upt
      requires s.tables == map[[] := upt] && s.view == map[]
      ensures SpaceOk(s) && KernelOk()
      ensures forall t :: t in spaces ==> SpaceOk(t) && t.tables.Values !! s.tables.Values
      ensures KernelTranslationsSame(cfg, kpt, mem0, mem)
    {
      KernelPages(cfg, mem0, kpt, kernel);
      assert s.tables[[]] == upt;
      assert s.tables.Values == {upt};
      forall t | t in spaces ensures t.tables.Values !! s.tables.Values {
        TreePages(cfg, mem0, BaseOf(t.ptr, cfg.width), t.tables, USER_FLAGS, KernelSlots(cfg));
      }
      OthersUntouched(mem0, s, {upt});
      assert kernel[[]] == kpt;
      LoneRoot(cfg, mem, upt, USER_FLAGS, KernelSlots(cfg));
      forall va: nat | IsUserPage(cfg, va) ensures !Present(LeafAt(mem, s.tables, Path(cfg, va))) {
        UserSlotIsNotKernel(cfg, va);
        var path := Path(cfg, va);
        if path[..|path| - 1] == [] {
          assert path[0] == Slot(cfg, 1, va);
        }
      }
    }

    /** The pages of the machine are those in use and those in the pool, and none twice. */
    lemma {:induction false} PoolSize()
      requires MemOk()
      ensures |Pages()| == |mem.Keys| + |pool|
    {
      DistinctSize(pool);
      assert mem.Keys !! Free();
    }

    lemma {:induction false} FreeIs()
      requires MemOk()
      ensures Free() == Pages() - mem.Keys
    {
    }
  }

  lemma {:induction false} RootOnly(tables: Tables)
    requires tables.Keys == {[]}
    ensures tables.Values == {tables[[]]}
  {
  }

  lemma {:induction false} RootRemoved(mem0: Memory, root: nat, mem1: Memory, mem2: Memory)
    requires root !in mem0 && root in mem1 && mem1 == mem0[root := mem1[root]]
    requires SameOn(mem1, mem2, mem1.Keys - {root}) && mem2.Keys == mem1.Keys - {root}
    ensures mem2 == mem0
  {
    assert mem2.Keys == mem0.Keys;
  }

  /** Without the pages a space ends up with, memory is as it was but for those it began with. */
  lemma {:induction false} OwnPagesRemoved(mem1: Memory, tables1: Tables, mem2: Memory, tables2: Tables)
    requires OnlyOwnPages(mem1, tables1, mem2, tables2)
    ensures SameOn(mem1, mem2 - tables2.Values, mem1.Keys - tables1.Values)
    ensures (mem2 - tables2.Values).Keys == mem1.Keys - tables1.Values
  {
    forall x | x in mem1.Keys - tables1.Values ensures x !in tables2.Values && x in mem2 {
      assert x in tables2.Values ==> x in tables2.Values - tables1.Values;
    }
    forall x | x in mem2 && x !in tables2.Values ensures x in mem1 {
      assert x !in mem1 ==> x in mem2.Keys - mem1.Keys;
    }
  }

  // ----- pages of areas -----------------------------------------------------------------------------------

  function PageCount(cfg: Config, a: VmArea): nat
    requires cfg.Valid() && a in cfg.areas
  {
    (cfg.Top(a) - a.start) / 4096
  }

  function PageAddr(cfg: Config, a: VmArea, k: nat): nat {
    Remainder(a.start + k * 4096, Pow2(cfg.width))
  }

  ghost function FirstPages(cfg: Config, a: VmArea, k: nat): set<nat> {
    set va: nat | a.start <= va < a.start + k * 4096 && va % 4096 == 0
  }

  ghost function AreaPages(cfg: Config, a: VmArea): set<nat> {
    set va: nat | a.start <= va < cfg.Top(a) && va % 4096 == 0
  }

  /** Pages of the kernel areas among the first n. */
  ghost function PagesBefore(cfg: Config, n: nat): set<nat>
    requires n <= |cfg.areas|
  {
    if n == 0 then {} else PagesBefore(cfg, n - 1) + if cfg.areas[n - 1].kernel then AreaPages(cfg, cfg.areas[n - 1]) else {}
  }

  lemma {:induction false} PagesNext(cfg: Config, n: nat)
    requires n < |cfg.areas|
    ensures PagesBefore(cfg, n + 1) == PagesBefore(cfg, n) + if cfg.areas[n].kernel then AreaPages(cfg, cfg.areas[n]) else {}
    ensures !cfg.areas[n].kernel ==> PagesBefore(cfg, n + 1) == PagesBefore(cfg, n)
  {
  }

  lemma {:induction false} PagesBeforeMeaning(cfg: Config, n: nat, k: nat, va: nat)
    requires k < n <= |cfg.areas| && cfg.areas[k].kernel && va in AreaPages(cfg, cfg.areas[k])
    ensures va in PagesBefore(cfg, n)
  {
    if k < n - 1 {
      PagesBeforeMeaning(cfg, n - 1, k, va);
    }
  }

  lemma {:induction false} KernelPageDone(cfg: Config, va: nat)
    requires cfg.Valid() && IsKernelAddress(cfg, va) && va % 4096 == 0
    ensures va in PagesBefore(cfg, |cfg.areas|)
  {
    var k :| 1 <= k < |cfg.areas| && InArea(cfg, cfg.areas[k], va);
    PagesBeforeMeaning(cfg, |cfg.areas|, k, va);
  }

  lemma {:induction false} AreaIsPaged(cfg: Config, a: VmArea)
    requires cfg.Valid() && a in cfg.areas
    ensures a.start % 4096 == 0 && cfg.Top(a) % 4096 == 0
  {
    var s := cfg.pgtables[1].shift;
    PagingPowers();
    Pow2Add(12, s - 12);
    PagedMultiple(a.start, Pow2(s - 12));
    PagedMultiple(cfg.Top(a), Pow2(s - 12));
  }

  lemma {:induction false} PagedMultiple(x: nat, m: nat)
    requires m > 0 && x % (4096 * m) == 0
    ensures x % 4096 == 0
  {
    assert x == x / (4096 * m) * (4096 * m) == 4096 * (x / (4096 * m) * m);
  }

  lemma {:induction false} PageStep(cfg: Config, a: VmArea, k: nat)
    requires cfg.Valid() && a in cfg.areas && k <= PageCount(cfg, a)
    ensures k == 0 ==> PageAddr(cfg, a, k) == a.start
    ensures var cur := PageAddr(cfg, a, k);
      && (cur == a.end <==> k == PageCount(cfg, a))
      && (k < PageCount(cfg, a) ==>
            && cur == a.start + k * 4096 < Pow2(cfg.AddrBits()) && cur % 4096 == 0
            && (cur + 4096) % Pow2(cfg.width) == PageAddr(cfg, a, k + 1))
  {
    AreaIsPaged(cfg, a);
    Pow2Mono(cfg.AddrBits(), cfg.width);
    PageStepBounds(a.start, cfg.Top(a), k);
    WrapAt(a.start + k * 4096, cfg.Top(a), a.end, Pow2(cfg.width), a.start);
  }

  /** An address up to the top of an area, wrapped, equals the area's end only at the top. */
  lemma {:induction false} WrapAt(x: nat, top: nat, end: nat, w: nat, start: nat)
    requires start <= x <= top <= w && 0 < w
    requires if end == 0 then top == w && start > 0 else top == end < w
    ensures x % w == end <==> x == top
    ensures x < top ==> x % w == x
  {
    if x < w {
      SmallRemainder(x, w);
    } else {
      assert x == w && w % w == 0;
    }
  }

  lemma {:induction false} PageStepBounds(start: nat, top: nat, k: nat)
    requires start < top && start % 4096 == 0 && top % 4096 == 0 && k <= (top - start) / 4096
    ensures (start + k * 4096) % 4096 == 0 && start + k * 4096 <= top
    ensures k < (top - start) / 4096 ==> start + k * 4096 < top
    ensures k == (top - start) / 4096 <==> start + k * 4096 == top
  {
  }

  lemma {:induction false} FirstPagesNext(cfg: Config, a: VmArea, k: nat)
    requires a.start % 4096 == 0 || (cfg.Valid() && a in cfg.areas)
    ensures FirstPages(cfg, a, k + 1) == FirstPages(cfg, a, k) + {a.start + k * 4096}
  {
    if a.start % 4096 != 0 {
      AreaIsPaged(cfg, a);
    }
  }

  lemma {:induction false} FirstPagesAll(cfg: Config, a: VmArea)
    requires cfg.Valid() && a in cfg.areas
    ensures FirstPages(cfg, a, PageCount(cfg, a)) == AreaPages(cfg, a)
  {
    AreaIsPaged(cfg, a);
    PageStepBounds(a.start, cfg.Top(a), PageCount(cfg, a));
    assert a.start + PageCount(cfg, a) * 4096 == cfg.Top(a);
    hide PageCount, Pow2;
  }

  /** Writing an identity entry. */
  lemma {:induction false} IdentityLeaf(cfg: Config, mem: Memory, root: nat, tables: Tables, cur: nat, e: nat)
    requires cfg.Valid() && TreeOk(cfg, mem, root, tables, PTE_W, {})
    requires cur < Pow2(cfg.AddrBits()) && cur % 4096 == 0 && Path(cfg, cur)[..cfg.ptlevels - 1] in tables
    requires Present(e) && Writable(e) && !User(e) && FrameOf(e) == cur
    ensures var path := Path(cfg, cur);
      var t := tables[path[..cfg.ptlevels - 1]];
      && t in mem && path[cfg.ptlevels - 1] < |mem[t]|
      && var mem' := WriteWord(mem, t, path[cfg.ptlevels - 1], e);
      && TreeOk(cfg, mem', root, tables, PTE_W, {})
      && forall va: nat {:trigger Path(cfg, va)} :: va < Pow2(cfg.AddrBits()) && va % 4096 == 0 ==>
           LeafTranslation(LeafAt(mem', tables, Path(cfg, va))) ==
             if va == cur then Frame(cur, true, false) else LeafTranslation(LeafAt(mem, tables, Path(cfg, va)))
  {
    IdentityPlace(cfg, mem, root, tables, cur);
    IdentityEntry(cur, e);
    assert cfg.ptlevels >= 1 && |cfg.pgtables| == cfg.ptlevels + 1;
    hide TreeOk, LeafAt, WriteWord, Pow2, Slot, Config.LevelsOk, Config.AreasOk, Config.PageEntries;
    hide LeafTranslation, Present, Writable, User, FrameOf;
    var path := Path(cfg, cur);
    SetLeaf(cfg, mem, root, tables, PTE_W, {}, path, e);
    forall va: nat | va < Pow2(cfg.AddrBits()) && va % 4096 == 0 && Path(cfg, va) == path ensures va == cur {
      PathInjective(cfg, va, cur);
    }
    hide Path;
  }

  lemma {:induction false} IdentityEntry(cur: nat, e: nat)
    requires Present(e) && Writable(e) && !User(e) && FrameOf(e) == cur
    ensures LeafTranslation(e) == Frame(cur, true, false) && Writable(PTE_W)
  {
  }

  lemma {:induction false} IdentityPlace(cfg: Config, mem: Memory, root: nat, tables: Tables, cur: nat)
    requires cfg.Valid() && TreeOk(cfg, mem, root, tables, PTE_W, {})
    requires Path(cfg, cur)[..cfg.ptlevels - 1] in tables
    ensures var path := Path(cfg, cur);
      var t := tables[path[..cfg.ptlevels - 1]];
      && t in mem && path[cfg.ptlevels - 1] < |mem[t]| == cfg.PageEntries()
  {
    var path := Path(cfg, cur);
    SlotBound(cfg, cfg.ptlevels, cur);
    assert TableOk(cfg, mem, path[..cfg.ptlevels - 1], tables[path[..cfg.ptlevels - 1]]);
  }

  /** The tree vme_init builds is a kernel part. */
  lemma {:induction false} KernelTreeIsKernel(cfg: Config, mem: Memory, root: nat, tables: Tables)
    requires cfg.Valid() && TreeOk(cfg, mem, root, tables, PTE_W, {})
    ensures KernelIn(cfg, mem, root, tables)
  {
    forall p | p in tables ensures |p| < cfg.ptlevels && tables[p] in mem && |mem[tables[p]]| == cfg.PageEntries() {
      assert TableOk(cfg, mem, p, tables[p]);
    }
    assert !User(PTE_W) && USER_FLAGS == 6;
    forall p, i: nat | p in tables && i < cfg.PageEntries() && Present(EntryAt(mem, tables, p, i))
      ensures !User(EntryAt(mem, tables, p, i))
      ensures |p| + 1 < cfg.ptlevels ==> p + [i] in tables && tables[p + [i]] == FrameOf(EntryAt(mem, tables, p, i))
    {
      assert Owned({}, p, i);
      assert EntryOk(cfg, mem, tables, PTE_W, p, i);
      if |p| + 1 < cfg.ptlevels {
        assert Linked(cfg, mem, tables, PTE_W, {}, p, i);
        assert TableOk(cfg, mem, p + [i], tables[p + [i]]);
        LinkBits(tables[p + [i]], PTE_W, cfg.width);
      }
    }
    hide EntryAt, FrameOf, TreeOk, KernelSlots;
  }

  // ----- slots of areas -----------------------------------------------------------------------------------

  function SlotCount(cfg: Config, a: VmArea): nat
    requires cfg.Valid() && a in cfg.areas
  {
    DivMonotone(a.start, cfg.Top(a), Big(cfg));
    Quotient(cfg.Top(a), Big(cfg)) - Quotient(a.start, Big(cfg))
  }

  predicate IsSlot(i: nat) {
    true
  }

  ghost function FirstSlots(cfg: Config, a: VmArea, k: nat): set<nat>
    requires cfg.Valid() && a in cfg.areas
  {
    var first := Quotient(a.start, Big(cfg));
    set i: nat {:trigger IsSlot(i)} | first <= i < first + k && IsSlot(i)
  }

  ghost function AreaSlots(cfg: Config, a: VmArea): set<nat>
    requires cfg.Valid() && a in cfg.areas
  {
    FirstSlots(cfg, a, SlotCount(cfg, a))
  }

  /** Slots of the kernel areas among the first n. */
  ghost function SlotsBefore(cfg: Config, n: nat): set<nat>
    requires cfg.Valid() && n <= |cfg.areas|
  {
    if n == 0 then {} else SlotsBefore(cfg, n - 1) + if cfg.areas[n - 1].kernel then AreaSlots(cfg, cfg.areas[n - 1]) else {}
  }

  lemma {:induction false} SlotsNext(cfg: Config, n: nat)
    requires cfg.Valid() && n < |cfg.areas|
    ensures SlotsBefore(cfg, n + 1) == SlotsBefore(cfg, n) + if cfg.areas[n].kernel then AreaSlots(cfg, cfg.areas[n]) else {}
  {
  }

  lemma {:induction false} SlotsBeforeMeaning(cfg: Config, n: nat)
    requires cfg.Valid() && n <= |cfg.areas|
    ensures forall i: nat :: i in SlotsBefore(cfg, n) <==> exists k :: 1 <= k < n && SlotInArea(cfg, cfg.areas[k], i)
  {
    if n > 0 {
      SlotsBeforeMeaning(cfg, n - 1);
      DivMonotone(cfg.areas[n - 1].start, cfg.Top(cfg.areas[n - 1]), Big(cfg));
    }
  }

  lemma {:induction false} SlotsAll(cfg: Config)
    requires cfg.Valid()
    ensures SlotsBefore(cfg, |cfg.areas|) == KernelSlots(cfg)
  {
    SlotsBeforeMeaning(cfg, |cfg.areas|);
    forall i: nat, k | 1 <= k < |cfg.areas| && SlotInArea(cfg, cfg.areas[k], i) ensures i < cfg.PageEntries() {
      var a := cfg.areas[k];
      Pow2Add(cfg.pgtables[1].shift, cfg.pgtables[1].bits);
      SlotBounds(a.start, cfg.Top(a), a.start, Big(cfg), Pow2(cfg.pgtables[1].bits));
    }
  }

  function StepAddr(cfg: Config, a: VmArea, k: nat): nat
    requires cfg.Valid()
  {
    hide Big, Pow2, Remainder;
    Remainder(a.start + k * Big(cfg), Pow2(cfg.width))
  }

  /** Step k of the walk over an area: its address, its slot, and whether it is the end. */
  lemma {:induction false} StepAddress(cfg: Config, a: VmArea, k: nat)
    requires cfg.Valid() && a in cfg.areas && k <= SlotCount(cfg, a)
    ensures k == 0 ==> StepAddr(cfg, a, k) == a.start
    ensures var cur := StepAddr(cfg, a, k);
      && (cur == a.end <==> k == SlotCount(cfg, a))
      && (k < SlotCount(cfg, a) ==>
            && Slot(cfg, 1, cur) == Quotient(a.start, Big(cfg)) + k
            && (cur + Big(cfg)) % Pow2(cfg.width) == StepAddr(cfg, a, k + 1))
  {
    AreaNumbers(cfg, a);
    hide Config.LevelsOk, Config.AreasOk, Config.Top, Big, Pow2, Slot;
    StepNumbers(a.start, cfg.Top(a), a.end, Pow2(cfg.width), Big(cfg), k);
    if k < SlotCount(cfg, a) {
      AreaSlot(cfg, a, a.start + k * Big(cfg));
    }
  }

  lemma {:induction false} AreaNumbers(cfg: Config, a: VmArea)
    requires cfg.Valid() && a in cfg.areas
    ensures var top, w := cfg.Top(a), Pow2(cfg.width);
      && a.start < top <= w && a.start % Big(cfg) == 0 && top % Big(cfg) == 0
      && if a.end == 0 then top == w && a.start > 0 else top == a.end < w
  {
    Pow2Mono(cfg.AddrBits(), cfg.width);
    hide Pow2;
  }

  lemma {:induction false} StepNumbers(start: nat, top: nat, end: nat, w: nat, big: nat, k: nat)
    requires big > 0 && start < top <= w && start % big == 0 && top % big == 0 && k <= top / big - start / big
    requires if end == 0 then top == w && start > 0 else top == end < w
    ensures start / big <= top / big && start + k * big <= top && 0 <= start + (k + 1) * big
    ensures var cur := (start + k * big) % w;
      && (k == 0 ==> cur == start)
      && (cur == end <==> k == top / big - start / big)
      && (k < top / big - start / big ==>
            && cur == start + k * big < top && cur / big == start / big + k
            && (cur + big) % w == (start + (k + 1) * big) % w)
  {
    StepBounds(start, top, big, k);
    MulMono(0, k, big);
    WrapAt(start + k * big, top, end, w, start);
    Distribute(k, 1, big);
  }

  lemma {:induction false} StepBounds(start: nat, top: nat, big: nat, k: nat)
    requires big > 0 && start < top && start % big == 0 && top % big == 0 && k <= top / big - start / big
    ensures k < top / big - start / big ==> start + k * big < top && (start + k * big) / big == start / big + k
    ensures k == top / big - start / big ==> start + k * big == top
  {
    var s, t := start / big, top / big;
    assert start == s * big && top == t * big;
    Distribute(s, k, big);
    DivMulAdd(s + k, big, 0);
    if k < t - s {
      MulMono(s + k + 1, t, big);
      Distribute(s + k, 1, big);
    }
  }

  lemma {:induction false} FirstSlotsNext(cfg: Config, a: VmArea, k: nat)
    requires cfg.Valid() && a in cfg.areas
    ensures FirstSlots(cfg, a, k + 1) == FirstSlots(cfg, a, k) + {Quotient(a.start, Big(cfg)) + k}
  {
  }

  lemma {:induction false} DistinctSize(s: seq<nat>)
    requires forall i, j :: 0 <= i < j < |s| ==> s[i] != s[j]
    ensures |set i | 0 <= i < |s| :: s[i]| == |s|
  {
    var all := set i | 0 <= i < |s| :: s[i];
    if s == [] {
      assert all == {};
    } else {
      var n := |s| - 1;
      var t := s[..n];
      DistinctSize(t);
      var rest := set i | 0 <= i < |t| :: t[i];
      assert all == rest + {s[n]} by {
        forall x | x in rest ensures x in all {
          var i :| 0 <= i < |t| && t[i] == x;
          assert s[i] == x;
        }
        forall x | x in all && x != s[n] ensures x in rest {
          var i :| 0 <= i < |s| && s[i] == x;
          assert t[i] == x;
        }
      }
    }
  }

  /** The pages of a tree are in use. */
  lemma {:induction false} TreePages(cfg: Config, mem: Memory, root: nat, tables: Tables, flags: nat, skip: set<nat>)
    requires TreeOk(cfg, mem, root, tables, flags, skip)
    ensures tables.Values <= mem.Keys
  {
    forall x | x in tables.Values ensures x in mem {
      var q :| q in tables && tables[q] == x;
      assert TableOk(cfg, mem, q, tables[q]);
    }
  }

  lemma {:induction false} KernelPages(cfg: Config, mem: Memory, kpt: nat, kernel: Tables)
    requires KernelIn(cfg, mem, kpt, kernel)
    ensures kernel.Values <= mem.Keys
  {
  }

  lemma {:induction false} WholeTree(tables: Tables)
    ensures Subtree(tables, []) == tables.Values
  {
    forall x | x in tables.Values ensures x in Subtree(tables, []) {
      var q :| q in tables && tables[q] == x;
      assert [] <= q;
    }
  }

  /** A present user entry above the last level is a link, and BaseOf finds the child. */
  lemma {:induction false} ChildOfUserEntry(cfg: Config, mem: Memory, root: nat, tables: Tables, p: seq<nat>, i: nat)
    requires cfg.Valid() && TreeOk(cfg, mem, root, tables, USER_FLAGS, KernelSlots(cfg)) && p in tables
    requires forall i :: i in KernelSlots(cfg) ==> var e := EntryAt(mem, tables, [], i); !(Present(e) && User(e))
    requires var e := EntryAt(mem, tables, p, i); Present(e) && User(e)
    ensures |p| + 1 < cfg.ptlevels ==> p + [i] in tables && BaseOf(EntryAt(mem, tables, p, i), cfg.width) == tables[p + [i]]
  {
    if |p| + 1 < cfg.ptlevels {
      assert Owned(KernelSlots(cfg), p, i);
      assert EntryOk(cfg, mem, tables, USER_FLAGS, p, i);
      assert Linked(cfg, mem, tables, USER_FLAGS, KernelSlots(cfg), p, i);
      assert TableOk(cfg, mem, p + [i], tables[p + [i]]);
      LinkBits(tables[p + [i]], USER_FLAGS, cfg.width);
    }
  }

  lemma {:induction false} NothingBelowLeaves(cfg: Config, mem: Memory, root: nat, tables: Tables, p: seq<nat>)
    requires cfg.Valid() && TreeOk(cfg, mem, root, tables, USER_FLAGS, KernelSlots(cfg)) && |p| >= cfg.ptlevels
    ensures Subtree(tables, p) == {}
  {
    forall q | q in tables ensures !(p <= q) {
      assert TableOk(cfg, mem, q, tables[q]);
    }
  }

  /** Entries that are not both present and user lead to none of the tree's tables. */
  lemma {:induction false} NoChildOfOtherEntry(cfg: Config, mem: Memory, root: nat, tables: Tables, p: seq<nat>, i: nat)
    requires cfg.Valid() && TreeOk(cfg, mem, root, tables, USER_FLAGS, KernelSlots(cfg)) && p in tables
    requires var e := EntryAt(mem, tables, p, i); !(Present(e) && User(e))
    ensures Subtree(tables, p + [i]) == {}
  {
    if p + [i] in tables {
      assert Linked(cfg, mem, tables, USER_FLAGS, KernelSlots(cfg), p, i);
      LinkBits(tables[p + [i]], USER_FLAGS, cfg.width);
    }
    EmptySubtree(cfg, mem, root, tables, USER_FLAGS, KernelSlots(cfg), p + [i]);
  }

  /** The place of the last-level entry for a path. */
  ghost predicate LeafPlace(cfg: Config, tables: Tables, path: seq<nat>, table: nat, index: nat) {
    && cfg.ptlevels == |path| > 0
    && path[..|path| - 1] in tables && table == tables[path[..|path| - 1]]
    && index == path[|path| - 1] < cfg.PageEntries()
  }

  lemma {:induction false} PlaceInTables(cfg: Config, tables: Tables, va: nat, table: nat, index: nat)
    requires cfg.Valid() && LeafPlace(cfg, tables, Path(cfg, va), table, index)
    ensures Path(cfg, va)[..cfg.ptlevels - 1] in tables
  {
  }

  /** A lone zeroed root is a tree with no leaves. */
  lemma {:induction false} FirstTable(cfg: Config, mem0: Memory, mem: Memory, root: nat, flags: nat, skip: set<nat>)
    requires cfg.Valid() && LinkFlags(flags) && IsPage(root, cfg.width) && root !in mem0
    requires root in mem && |mem[root]| == cfg.PageEntries() && IsZeroed(mem[root]) && mem == mem0[root := mem[root]]
    ensures TreeOk(cfg, mem, root, map[[] := root], flags, skip)
    ensures Grown(cfg.ptlevels, mem0, map[], mem, map[[] := root])
    ensures SkipSame(skip, mem0, map[], mem, map[[] := root])
  {
    var tables: Tables := map[[] := root];
    assert tables[[]] == root;
    assert tables.Values == {root};
    forall p, i: nat ensures EntryAt(mem, tables, p, i) == 0 {
      if p in tables {
        assert p == [];
      }
    }
    hide EntryAt, IsPage, LinkFlags;
    LoneRoot(cfg, mem, root, flags, skip);
  }

  lemma {:induction false} LoneRoot(cfg: Config, mem: Memory, root: nat, flags: nat, skip: set<nat>)
    requires cfg.Valid() && LinkFlags(flags) && IsPage(root, cfg.width)
    requires root in mem && |mem[root]| == cfg.PageEntries()
    requires forall i: nat :: i !in skip ==> EntryAt(mem, map[[] := root], [], i) == 0
    ensures TreeOk(cfg, mem, root, map[[] := root], flags, skip)
  {
    hide EntryAt, IsPage, LinkFlags, Link;
    var tables: Tables := map[[] := root];
    assert forall p :: p in tables <==> p == [];
    assert TableOk(cfg, mem, [], root);
    forall p, i: nat | p in tables && Owned(skip, p, i) ensures EntryOk(cfg, mem, tables, flags, p, i) {
      assert EntryAt(mem, tables, [], i) == 0;
    }
    assert forall p: seq<nat>, i: nat :: |p + [i]| > 0;
  }

  lemma {:induction false} GrownRefl(levels: nat, mem: Memory, tables: Tables)
    ensures Grown(levels, mem, tables, mem, tables)
    ensures forall skip :: SkipSame(skip, mem, tables, mem, tables)
  {
  }

  /** AddTable in the terms of a walk. */
  lemma {:induction false} TableAdded(cfg: Config, mem0: Memory, root: nat, tables: Tables, flags: nat, skip: set<nat>,
                   p: seq<nat>, i: nat, z: nat, zeros: seq<nat>, mem: Memory)
    requires CanAdd(cfg, mem0, root, tables, flags, skip, p, i, z, zeros)
    requires mem == AddedMemory(mem0, tables, flags, p, i, z, zeros)
    ensures TreeOk(cfg, mem, root, tables[p + [i] := z], flags, skip)
    ensures Grown(cfg.ptlevels, mem0, tables, mem, tables[p + [i] := z])
    ensures SkipSame(skip, mem0, tables, mem, tables[p + [i] := z])
  {
    AddTable(cfg, mem0, root, tables, flags, skip, p, i, z, zeros);
    AddedEntries(cfg, mem0, root, tables, flags, skip, p, i, z, zeros);
    AddedValues(tables, p + [i], z);
    assert TableOk(cfg, mem0, p, tables[p]) && tables[p] in tables.Values;
    forall x | x in tables.Values ensures x in mem0 {
      var q :| q in tables && tables[q] == x;
      assert TableOk(cfg, mem0, q, tables[q]);
    }
  }

  lemma {:induction false} AddedValues(tables: Tables, q: seq<nat>, z: nat)
    requires q !in tables
    ensures tables[q := z].Values == tables.Values + {z}
  {
    var t := tables[q := z];
    assert t[q] == z;
    forall x | x in tables.Values ensures x in t.Values {
      var r :| r in tables && tables[r] == x;
      assert t[r] == x;
    }
  }

  /** What a step of a walk keeps of the memory and the tree it started from: pages outside the tree
      are untouched, every new page is a table of the tree, and no leaf has changed. */
  ghost predicate Grown(levels: nat, mem0: Memory, tables0: Tables, mem: Memory, tables: Tables) {
    && SameOn(mem0, mem, mem0.Keys - tables0.Values)
    && mem0.Keys <= mem.Keys && tables0.Values <= tables.Values
    && mem.Keys - mem0.Keys == tables.Values - tables0.Values
    && (forall path: seq<nat> :: |path| == levels > 0 ==> LeafAt(mem, tables, path) == LeafAt(mem0, tables0, path))
  }

  /** The root slots that belong to somebody else are untouched. */
  ghost predicate SkipSame(skip: set<nat>, mem0: Memory, tables0: Tables, mem: Memory, tables: Tables) {
    forall i :: i in skip ==> EntryAt(mem, tables, [], i) == EntryAt(mem0, tables0, [], i)
  }

  lemma {:induction false} GrownTrans(levels: nat, mem0: Memory, t0: Tables, mem1: Memory, t1: Tables, mem2: Memory, t2: Tables)
    requires Grown(levels, mem0, t0, mem1, t1) && Grown(levels, mem1, t1, mem2, t2)
    ensures Grown(levels, mem0, t0, mem2, t2)
    ensures forall skip :: SkipSame(skip, mem0, t0, mem1, t1) && SkipSame(skip, mem1, t1, mem2, t2) ==> SkipSame(skip, mem0, t0, mem2, t2)
  {
    forall x | x in mem0.Keys - t0.Values && x in mem0 ensures x in mem2 && mem2[x] == mem0[x] {
      assert x in mem1;
      assert x in t1.Values ==> x in t1.Values - t0.Values;
    }
    assert mem2.Keys - mem0.Keys == (mem2.Keys - mem1.Keys) + (mem1.Keys - mem0.Keys);
  }
}

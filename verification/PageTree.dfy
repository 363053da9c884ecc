/** Trees of page tables.  A tree is described by a ghost map from the slots taken so far (a path)
    to the page that holds the table reached; everything a walk, an allocation, a leaf update or a
    teardown needs is local to one entry of that map. */
module PageTree {
  import opened Bits
  import opened Paging

  type Tables = map<seq<nat>, nat>

  /** The entry at slot i of the table at path p, or 0 where there is no such table. */
  function EntryAt(mem: Memory, tables: Tables, p: seq<nat>, i: nat): nat {
    if p in tables && tables[p] in mem && i < |mem[tables[p]]| then mem[tables[p]][i] else 0
  }

  /** The last-level entry for a full path. */
  function LeafAt(mem: Memory, tables: Tables, path: seq<nat>): nat
    requires |path| > 0
  {
    EntryAt(mem, tables, path[..|path| - 1], path[|path| - 1])
  }

  /** Slot i of the table at p belongs to the tree: only root slots can be somebody else's. */
  predicate Owned(skip: set<nat>, p: seq<nat>, i: nat) {
    |p| > 0 || i !in skip
  }

  ghost predicate TableOk(cfg: Config, mem: Memory, p: seq<nat>, page: nat) {
    |p| < cfg.ptlevels && page in mem && |mem[page]| == cfg.PageEntries() && IsPage(page, cfg.width)
  }

  /** The table at p + [i] hangs off slot i of the table at p. */
  ghost predicate Linked(cfg: Config, mem: Memory, tables: Tables, flags: nat, skip: set<nat>, p: seq<nat>, i: nat) {
    && p in tables && i < cfg.PageEntries() && Owned(skip, p, i)
    && p + [i] in tables && EntryAt(mem, tables, p, i) == Link(tables[p + [i]], flags)
  }

  /** Above the last level an owned entry is either absent or a link of the tree; at the last level
      its rights do not exceed those of the links. */
  ghost predicate EntryOk(cfg: Config, mem: Memory, tables: Tables, flags: nat, p: seq<nat>, i: nat) {
    var e := EntryAt(mem, tables, p, i);
    Present(e) ==>
      if |p| + 1 < cfg.ptlevels then p + [i] in tables
      else (Writable(e) ==> Writable(flags)) && (User(e) ==> User(flags))
  }

  ghost predicate TreeOk(cfg: Config, mem: Memory, root: nat, tables: Tables, flags: nat, skip: set<nat>) {
    && LinkFlags(flags)
    && [] in tables && tables[[]] == root
    && (forall p :: p in tables ==> TableOk(cfg, mem, p, tables[p]))
    && (forall p, q :: p in tables && q in tables && tables[p] == tables[q] ==> p == q)
    && (forall p, i: nat {:trigger EntryAt(mem, tables, p, i)} :: p in tables && Owned(skip, p, i) ==> EntryOk(cfg, mem, tables, flags, p, i))
    && (forall p, i: nat {:trigger p + [i]} :: p + [i] in tables ==> Linked(cfg, mem, tables, flags, skip, p, i))
  }

  /** One word of one page overwritten. */
  function WriteWord(mem: Memory, page: nat, i: nat, e: nat): Memory
    requires page in mem && i < |mem[page]|
  {
    var words: seq<nat> := mem[page][i := e];
    mem[page := words]
  }

  ghost predicate SameOn(mem: Memory, mem': Memory, pages: set<nat>) {
    forall x :: x in pages && x in mem ==> x in mem' && mem'[x] == mem[x]
  }

  /** A tree depends only on its own pages. */
  lemma {:induction false} TreeFrame(cfg: Config, mem: Memory, mem': Memory, root: nat, tables: Tables, flags: nat, skip: set<nat>)
    requires TreeOk(cfg, mem, root, tables, flags, skip)
    requires SameOn(mem, mem', tables.Values)
    ensures TreeOk(cfg, mem', root, tables, flags, skip)
    ensures forall p, i: nat :: EntryAt(mem', tables, p, i) == EntryAt(mem, tables, p, i)
  {
    forall p | p in tables ensures TableOk(cfg, mem', p, tables[p]) && mem'[tables[p]] == mem[tables[p]] {
      assert TableOk(cfg, mem, p, tables[p]) && tables[p] in tables.Values;
    }
    assert forall p, i: nat :: EntryAt(mem', tables, p, i) == EntryAt(mem, tables, p, i);
    forall p, i: nat | p in tables && Owned(skip, p, i) ensures EntryOk(cfg, mem', tables, flags, p, i) {
      assert EntryOk(cfg, mem, tables, flags, p, i);
    }
    forall p, i: nat | p + [i] in tables ensures Linked(cfg, mem', tables, flags, skip, p, i) {
      assert Linked(cfg, mem, tables, flags, skip, p, i);
    }
  }

  // ----- growing ------------------------------------------------------------------------------------------

  ghost predicate IsZeroed(page: seq<nat>) {
    forall i :: 0 <= i < |page| ==> page[i] == 0
  }

  /** Memory after a zeroed page z has been hung off slot i of the table at p. */
  function AddedMemory(mem: Memory, tables: Tables, flags: nat, p: seq<nat>, i: nat, z: nat, zeros: seq<nat>): Memory
    requires p in tables && tables[p] in mem && i < |mem[tables[p]]| && z !in mem
  {
    WriteWord(mem[z := zeros], tables[p], i, Link(z, flags))
  }

  ghost predicate CanAdd(cfg: Config, mem: Memory, root: nat, tables: Tables, flags: nat, skip: set<nat>,
                         p: seq<nat>, i: nat, z: nat, zeros: seq<nat>) {
    && cfg.width > 12 && TreeOk(cfg, mem, root, tables, flags, skip)
    && p in tables && |p| + 1 < cfg.ptlevels && i < cfg.PageEntries() && Owned(skip, p, i)
    && !Present(EntryAt(mem, tables, p, i))
    && z !in mem && IsPage(z, cfg.width) && |zeros| == cfg.PageEntries() && IsZeroed(zeros)
  }

  lemma {:induction false} AddedSlotIsNew(cfg: Config, mem: Memory, root: nat, tables: Tables, flags: nat, skip: set<nat>,
                 p: seq<nat>, i: nat, z: nat, zeros: seq<nat>)
    requires CanAdd(cfg, mem, root, tables, flags, skip, p, i, z, zeros)
    ensures p + [i] !in tables
  {
    if p + [i] in tables {
      assert Linked(cfg, mem, tables, flags, skip, p, i);
      LinkBits(tables[p + [i]], flags, cfg.width);
    }
  }

  lemma {:induction false} AddedEntries(cfg: Config, mem: Memory, root: nat, tables: Tables, flags: nat, skip: set<nat>,
                 p: seq<nat>, i: nat, z: nat, zeros: seq<nat>)
    requires CanAdd(cfg, mem, root, tables, flags, skip, p, i, z, zeros)
    ensures var mem', tables' := AddedMemory(mem, tables, flags, p, i, z, zeros), tables[p + [i] := z];
      forall q, j: nat :: EntryAt(mem', tables', q, j) ==
        if q == p && j == i then Link(z, flags) else EntryAt(mem, tables, q, j)
  {
    hide Link;
    AddedSlotIsNew(cfg, mem, root, tables, flags, skip, p, i, z, zeros);
    var mem', tables' := AddedMemory(mem, tables, flags, p, i, z, zeros), tables[p + [i] := z];
    assert p != p + [i];
    forall q, j: nat
      ensures EntryAt(mem', tables', q, j) == if q == p && j == i then Link(z, flags) else EntryAt(mem, tables, q, j)
    {
      if q in tables {
        assert TableOk(cfg, mem, q, tables[q]);
        assert q != p ==> tables[q] != tables[p];
        assert q != p + [i];
      }
    }
  }

  lemma {:induction false} AddedTables(cfg: Config, mem: Memory, root: nat, tables: Tables, flags: nat, skip: set<nat>,
                 p: seq<nat>, i: nat, z: nat, zeros: seq<nat>)
    requires CanAdd(cfg, mem, root, tables, flags, skip, p, i, z, zeros)
    ensures var mem', tables' := AddedMemory(mem, tables, flags, p, i, z, zeros), tables[p + [i] := z];
      && (forall q :: q in tables' ==> TableOk(cfg, mem', q, tables'[q]))
      && (forall q, r :: q in tables' && r in tables' && tables'[q] == tables'[r] ==> q == r)
  {
    hide Link;
    var mem', tables' := AddedMemory(mem, tables, flags, p, i, z, zeros), tables[p + [i] := z];
    assert TableOk(cfg, mem, p, tables[p]);
    forall q | q in tables' ensures TableOk(cfg, mem', q, tables'[q]) && (q != p + [i] ==> tables'[q] != z) {
      if q != p + [i] {
        assert TableOk(cfg, mem, q, tables[q]);
      }
    }
  }

  lemma {:induction false} AddedLinks(cfg: Config, mem: Memory, root: nat, tables: Tables, flags: nat, skip: set<nat>,
                 p: seq<nat>, i: nat, z: nat, zeros: seq<nat>)
    requires CanAdd(cfg, mem, root, tables, flags, skip, p, i, z, zeros)
    ensures var mem', tables' := AddedMemory(mem, tables, flags, p, i, z, zeros), tables[p + [i] := z];
      forall q, j: nat {:trigger q + [j]} :: q + [j] in tables' ==> Linked(cfg, mem', tables', flags, skip, q, j)
  {
    hide Link;
    AddedSlotIsNew(cfg, mem, root, tables, flags, skip, p, i, z, zeros);
    AddedEntries(cfg, mem, root, tables, flags, skip, p, i, z, zeros);
    var mem', tables' := AddedMemory(mem, tables, flags, p, i, z, zeros), tables[p + [i] := z];
    forall q, j: nat | q + [j] in tables' ensures Linked(cfg, mem', tables', flags, skip, q, j) {
      if q + [j] == p + [i] {
        SnocInjective(q, j, p, i);
      } else {
        assert Linked(cfg, mem, tables, flags, skip, q, j);
      }
    }
  }

  lemma {:induction false} SnocInjective(q: seq<nat>, j: nat, p: seq<nat>, i: nat)
    requires q + [j] == p + [i]
    ensures q == p && j == i
  {
    assert (q + [j])[..|q|] == q && (p + [i])[..|p|] == p;
    assert (q + [j])[|q|] == j && (p + [i])[|p|] == i;
  }

  /** Hanging a zeroed table into an absent slot keeps the tree, and shows through no leaf. */
  lemma {:induction false} AddTable(cfg: Config, mem: Memory, root: nat, tables: Tables, flags: nat, skip: set<nat>,
                 p: seq<nat>, i: nat, z: nat, zeros: seq<nat>)
    requires CanAdd(cfg, mem, root, tables, flags, skip, p, i, z, zeros)
    ensures p + [i] !in tables
    ensures var mem', tables' := AddedMemory(mem, tables, flags, p, i, z, zeros), tables[p + [i] := z];
      && TreeOk(cfg, mem', root, tables', flags, skip)
      && forall path: seq<nat> :: |path| == cfg.ptlevels ==> LeafAt(mem', tables', path) == LeafAt(mem, tables, path)
  {
    hide Link, AddedMemory;
    var mem', tables' := AddedMemory(mem, tables, flags, p, i, z, zeros), tables[p + [i] := z];
    AddedSlotIsNew(cfg, mem, root, tables, flags, skip, p, i, z, zeros);
    AddedEntries(cfg, mem, root, tables, flags, skip, p, i, z, zeros);
    AddedTables(cfg, mem, root, tables, flags, skip, p, i, z, zeros);
    AddedLinks(cfg, mem, root, tables, flags, skip, p, i, z, zeros);
    assert p + [i] != [];
    forall q, j: nat | q in tables' && Owned(skip, q, j) ensures EntryOk(cfg, mem', tables', flags, q, j) {
      if q in tables {
        assert EntryOk(cfg, mem, tables, flags, q, j);
      }
    }
    forall path: seq<nat> | |path| == cfg.ptlevels ensures LeafAt(mem', tables', path) == LeafAt(mem, tables, path) {
      assert |path[..|path| - 1]| == cfg.ptlevels - 1;
    }
  }

  // ----- writing a leaf --------------------------------------------------------------------------------------

  /** Replacing a last-level entry changes that leaf and no other. */
  lemma {:induction false} SetLeaf(cfg: Config, mem: Memory, root: nat, tables: Tables, flags: nat, skip: set<nat>, path: seq<nat>, e: nat)
    requires TreeOk(cfg, mem, root, tables, flags, skip)
    requires |path| == cfg.ptlevels > 0 && path[..cfg.ptlevels - 1] in tables && path[cfg.ptlevels - 1] < cfg.PageEntries()
    requires Owned(skip, path[..cfg.ptlevels - 1], path[cfg.ptlevels - 1])
    requires Present(e) ==> (Writable(e) ==> Writable(flags)) && (User(e) ==> User(flags))
    ensures var t := tables[path[..cfg.ptlevels - 1]];
      var mem' := WriteWord(mem, t, path[cfg.ptlevels - 1], e);
      && TreeOk(cfg, mem', root, tables, flags, skip)
      && forall path': seq<nat> :: |path'| == cfg.ptlevels ==>
           LeafAt(mem', tables, path') == if path' == path then e else LeafAt(mem, tables, path')
  {
    var n := cfg.ptlevels - 1;
    var p, i := path[..n], path[n];
    var t := tables[p];
    var mem' := WriteWord(mem, t, i, e);
    assert forall q, j: nat :: EntryAt(mem', tables, q, j) == if q == p && j == i then e else EntryAt(mem, tables, q, j);
    forall q, j: nat | q + [j] in tables ensures Linked(cfg, mem', tables, flags, skip, q, j) {
      assert Linked(cfg, mem, tables, flags, skip, q, j);
      assert TableOk(cfg, mem, q + [j], tables[q + [j]]);
    }
    forall q, j: nat | q in tables && Owned(skip, q, j) ensures EntryOk(cfg, mem', tables, flags, q, j) {
      assert EntryOk(cfg, mem, tables, flags, q, j);
    }
    forall path': seq<nat> | |path'| == cfg.ptlevels
      ensures LeafAt(mem', tables, path') == if path' == path then e else LeafAt(mem, tables, path')
    {
      assert path == p + [i] && path' == path'[..n] + [path'[n]];
    }
  }

  // ----- translation through a tree ---------------------------------------------------------------------------

  /** What the leaf of a tree means to the hardware. */
  function LeafTranslation(e: nat): Translation {
    if Present(e) then Frame(FrameOf(e), Writable(e), User(e)) else Fault
  }

  /** The hardware walk from the table at a prefix of the path ends at the tree's leaf. */
  lemma {:induction false} WalkFindsLeaf(cfg: Config, mem: Memory, root: nat, tables: Tables, flags: nat, skip: set<nat>, va: nat, l: nat)
    requires cfg.LevelsOk() && TreeOk(cfg, mem, root, tables, flags, skip)
    requires 1 <= l <= cfg.ptlevels && va % 4096 == 0
    requires Slot(cfg, 1, va) !in skip
    requires Path(cfg, va)[..l - 1] in tables
    ensures Translate(cfg, mem, l, tables[Path(cfg, va)[..l - 1]], va) == LeafTranslation(LeafAt(mem, tables, Path(cfg, va)))
    decreases cfg.ptlevels - l
  {
    var path := Path(cfg, va);
    var p, i := path[..l - 1], path[l - 1];
    assert i == Slot(cfg, l, va);
    SlotBound(cfg, l, va);
    assert TableOk(cfg, mem, p, tables[p]);
    var e := EntryAt(mem, tables, p, i);
    assert e == mem[tables[p]][i];
    assert path[..l] == p + [i];
    assert Owned(skip, p, i);
    assert EntryOk(cfg, mem, tables, flags, p, i);
    if l == cfg.ptlevels {
      assert path == p + [i] && path[..|path| - 1] == p;
      LastLevelWalk(cfg, e, va);
    } else if Present(e) {
      assert p + [i] in tables && Linked(cfg, mem, tables, flags, skip, p, i);
      assert TableOk(cfg, mem, p + [i], tables[p + [i]]);
      LinkBits(tables[p + [i]], flags, cfg.width);
      WalkFindsLeaf(cfg, mem, root, tables, flags, skip, va, l + 1);
      LeafRights(cfg, mem, root, tables, flags, skip, path);
      FlagBits(flags);
    } else {
      NoLeafBelow(cfg, mem, root, tables, flags, skip, path, l);
    }
  }

  lemma {:induction false} LastLevelWalk(cfg: Config, e: nat, va: nat)
    requires cfg.LevelsOk() && va % 4096 == 0
    ensures EndOfWalk(cfg, cfg.ptlevels, e, va) == Frame(FrameOf(e), Writable(e), User(e))
  {
    PagingPowers();
  }

  lemma {:induction false} FlagBits(flags: nat)
    requires LinkFlags(flags)
    ensures Writable(flags) && (User(flags) <==> flags == Or(PTE_W, PTE_U))
  {
    assert Or(PTE_W, PTE_U) == 6;
  }

  lemma {:induction false} LeafRights(cfg: Config, mem: Memory, root: nat, tables: Tables, flags: nat, skip: set<nat>, path: seq<nat>)
    requires TreeOk(cfg, mem, root, tables, flags, skip) && |path| == cfg.ptlevels > 1
    ensures var e := LeafAt(mem, tables, path); Present(e) ==> (Writable(e) ==> Writable(flags)) && (User(e) ==> User(flags))
  {
    var p, i := path[..|path| - 1], path[|path| - 1];
    if p in tables {
      assert EntryOk(cfg, mem, tables, flags, p, i);
    }
  }

  /** Below an absent entry there is no table, so the leaf reads as absent. */
  lemma {:induction false} NoLeafBelow(cfg: Config, mem: Memory, root: nat, tables: Tables, flags: nat, skip: set<nat>, path: seq<nat>, l: nat)
    requires cfg.width > 12 && TreeOk(cfg, mem, root, tables, flags, skip)
    requires |path| == cfg.ptlevels && 1 <= l < cfg.ptlevels
    requires !Present(EntryAt(mem, tables, path[..l - 1], path[l - 1]))
    ensures LeafAt(mem, tables, path) == 0
  {
    NoTable(cfg, mem, root, tables, flags, skip, path[..l - 1], path[l - 1]);
    assert path[..l] == path[..l - 1] + [path[l - 1]];
    NoTableBelow(cfg, mem, root, tables, flags, skip, path, l, cfg.ptlevels - 1);
  }

  lemma {:induction false} NoTable(cfg: Config, mem: Memory, root: nat, tables: Tables, flags: nat, skip: set<nat>, p: seq<nat>, i: nat)
    requires cfg.width > 12 && TreeOk(cfg, mem, root, tables, flags, skip)
    requires !Present(EntryAt(mem, tables, p, i))
    ensures p + [i] !in tables
  {
    if p + [i] in tables {
      assert Linked(cfg, mem, tables, flags, skip, p, i);
      LinkBits(tables[p + [i]], flags, cfg.width);
    }
  }

  lemma {:induction false} ParentHasTable(cfg: Config, mem: Memory, root: nat, tables: Tables, flags: nat, skip: set<nat>, p: seq<nat>, i: nat)
    requires TreeOk(cfg, mem, root, tables, flags, skip) && p + [i] in tables
    ensures p in tables
  {
    assert Linked(cfg, mem, tables, flags, skip, p, i);
  }

  lemma {:induction false} NoTableBelow(cfg: Config, mem: Memory, root: nat, tables: Tables, flags: nat, skip: set<nat>,
                                        path: seq<nat>, l: nat, k: nat)
    requires TreeOk(cfg, mem, root, tables, flags, skip)
    requires l <= k <= |path| && path[..l] !in tables
    ensures path[..k] !in tables
    decreases k
  {
    if k > l {
      NoTableBelow(cfg, mem, root, tables, flags, skip, path, l, k - 1);
      assert path[..k] == path[..k - 1] + [path[k - 1]];
      if path[..k] in tables {
        ParentHasTable(cfg, mem, root, tables, flags, skip, path[..k - 1], path[k - 1]);
      }
    }
  }

  /** Prefixes of a table's path have tables too. */
  lemma {:induction false} PrefixClosed(cfg: Config, mem: Memory, root: nat, tables: Tables, flags: nat, skip: set<nat>, p: seq<nat>, k: nat)
    requires TreeOk(cfg, mem, root, tables, flags, skip)
    requires p in tables && k <= |p|
    ensures p[..k] in tables
    decreases |p|
  {
    if k < |p| {
      var n := |p| - 1;
      assert p == p[..n] + [p[n]];
      assert Linked(cfg, mem, tables, flags, skip, p[..n], p[n]);
      PrefixClosed(cfg, mem, root, tables, flags, skip, p[..n], k);
      assert p[..n][..k] == p[..k];
    } else {
      assert p[..k] == p;
    }
  }

  // ----- a shared kernel part --------------------------------------------------------------------------------

  /** A set of tables closed under the walk from the kernel slots of a root: nothing else is read
      when a kernel address is translated. */
  ghost predicate KernelClosed(cfg: Config, mem: Memory, kpt: nat, kernel: Tables, skip: set<nat>) {
    && [] in kernel && kernel[[]] == kpt
    && (forall p :: p in kernel ==> |p| < cfg.ptlevels && kernel[p] in mem && |mem[kernel[p]]| == cfg.PageEntries())
    && (forall p, i: nat {:trigger EntryAt(mem, kernel, p, i)} ::
          p in kernel && |p| + 1 < cfg.ptlevels && i < cfg.PageEntries() && (|p| > 0 || i in skip) ==>
            var e := EntryAt(mem, kernel, p, i);
            Present(e) && !Large(e) ==> p + [i] in kernel && kernel[p + [i]] == FrameOf(e))
  }

  lemma {:induction false} KernelFrame(cfg: Config, mem: Memory, mem': Memory, kpt: nat, kernel: Tables, skip: set<nat>)
    requires KernelClosed(cfg, mem, kpt, kernel, skip)
    requires SameOn(mem, mem', kernel.Values)
    ensures KernelClosed(cfg, mem', kpt, kernel, skip)
    ensures forall p, i: nat :: EntryAt(mem', kernel, p, i) == EntryAt(mem, kernel, p, i)
  {
    forall p | p in kernel ensures kernel[p] in mem' && mem'[kernel[p]] == mem[kernel[p]] {
      assert kernel[p] in kernel.Values;
    }
    assert forall p, i: nat :: EntryAt(mem', kernel, p, i) == EntryAt(mem, kernel, p, i);
  }

  /** Kernel addresses keep their translation while the kernel's tables are left alone. */
  lemma {:induction false} KernelTranslationFrame(cfg: Config, mem: Memory, mem': Memory, kpt: nat, kernel: Tables, skip: set<nat>, va: nat, l: nat)
    requires cfg.LevelsOk() && KernelClosed(cfg, mem, kpt, kernel, skip)
    requires SameOn(mem, mem', kernel.Values)
    requires 1 <= l <= cfg.ptlevels && Slot(cfg, 1, va) in skip
    requires Path(cfg, va)[..l - 1] in kernel
    ensures var t := kernel[Path(cfg, va)[..l - 1]]; Translate(cfg, mem', l, t, va) == Translate(cfg, mem, l, t, va)
    decreases cfg.ptlevels - l
  {
    var path := Path(cfg, va);
    var p, i := path[..l - 1], path[l - 1];
    var t := kernel[p];
    assert t in kernel.Values;
    SlotBound(cfg, l, va);
    assert i == Slot(cfg, l, va);
    var e := EntryAt(mem, kernel, p, i);
    assert e == mem[t][i] == mem'[t][i];
    if Present(e) && l < cfg.ptlevels && !Large(e) {
      assert p + [i] == path[..l];
      KernelTranslationFrame(cfg, mem, mem', kpt, kernel, skip, va, l + 1);
    }
  }

  /** Two roots that agree on a slot translate its addresses alike. */
  lemma {:induction false} SharedSlotTranslates(cfg: Config, mem: Memory, root: nat, kpt: nat, va: nat)
    requires cfg.LevelsOk() && root in mem && kpt in mem
    requires |mem[root]| == |mem[kpt]| == cfg.PageEntries()
    requires mem[root][SlotIn(cfg, va)] == mem[kpt][SlotIn(cfg, va)]
    ensures Translate(cfg, mem, 1, root, va) == Translate(cfg, mem, 1, kpt, va)
  {
  }

  /** The root slot of an address. */
  function SlotIn(cfg: Config, va: nat): (i: nat)
    requires cfg.LevelsOk()
    ensures i < cfg.PageEntries()
  {
    SlotBound(cfg, 1, va);
    Slot(cfg, 1, va)
  }
}

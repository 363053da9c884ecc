/** Address spaces of the native platform (am/src/native/vme.c): each is a list of page mappings, and a switch makes the
    host's mappings those of the list. */
module NativeVme {
  import Bits
  import opened Sequences

  const NULL: nat := 0
  const USER_START: nat := 0x4000_0000
  const USER_END: nat := 0xc000_0000

  datatype PageMap = PageMap(va: nat, pa: nat, next: nat, prot: nat, isMapped: bool)

  /** The pages in use as list nodes, by address. */
  type Heap = map<nat, PageMap>

  /** Pages of an address space, and the frame and protection each leads to. */
  type Table = map<nat, (nat, nat)>

  function At(heap: Heap, x: nat): PageMap {
    if x in heap then heap[x] else PageMap(0, 0, NULL, 0, false)
  }

  /** s is a head and the list behind it. */
  ghost predicate Chain(heap: Heap, s: seq<nat>) {
    s != [] && Distinct(s)
    && forall i :: 0 <= i < |s| ==> s[i] in heap && s[i] != NULL && At(heap, s[i]).next == Nth(s, i + 1, NULL)
  }

  /** What nodes say. */
  function Entries(heap: Heap, nodes: seq<nat>): Table {
    if nodes == [] then map[]
    else var n := At(heap, nodes[0]); Entries(heap, nodes[1..])[n.va := (n.pa, n.prot)]
  }

  /** No two nodes speak of the same page, and all of user pages. */
  predicate OncePerPage(heap: Heap, nodes: seq<nat>) {
    nodes == [] ||
    (At(heap, nodes[0]).va !in Entries(heap, nodes[1..]) && USER_START <= At(heap, nodes[0]).va < USER_END
     && OncePerPage(heap, nodes[1..]))
  }

  ghost predicate SpaceOk(heap: Heap, s: seq<nat>) {
    Chain(heap, s) && OncePerPage(heap, s[1..])
  }

  /** The lists of the address spaces, by their heads. */
  type Spaces = map<nat, seq<nat>>

  ghost predicate Apart(spaces: Spaces) {
    forall g, h, x :: g in spaces && h in spaces && g != h && x in spaces[g] ==> x !in spaces[h]
  }

  /** The nodes of the current space are marked as mapped and no others. */
  ghost predicate Marked(heap: Heap, spaces: Spaces, cur: nat) {
    forall h, i :: h in spaces && 1 <= i < |spaces[h]| ==> (At(heap, spaces[h][i]).isMapped <==> h == cur)
  }

  function TableOf(heap: Heap, spaces: Spaces, h: nat): Table {
    if h in spaces && spaces[h] != [] then Entries(heap, spaces[h][1..]) else map[]
  }

  ghost predicate AllOk(heap: Heap, spaces: Spaces) {
    && (forall h :: h in spaces ==> SpaceOk(heap, spaces[h]) && spaces[h][0] == h)
    && Apart(spaces)
  }

  /** The host maps the pages of the current space, and nothing when there is none. */
  ghost predicate Consistent(heap: Heap, spaces: Spaces, cur: nat, host: Table) {
    && AllOk(heap, spaces) && Marked(heap, spaces, cur)
    && NULL !in heap && (cur == NULL || cur in spaces)
    && host == TableOf(heap, spaces, cur)
  }

  predicate SameNode(a: PageMap, b: PageMap) {
    a.va == b.va && a.pa == b.pa && a.prot == b.prot
  }

  /** Only what the nodes say matters. */
  lemma {:induction false} EntriesElsewhere(heap: Heap, heap': Heap, nodes: seq<nat>)
    requires forall i :: 0 <= i < |nodes| ==> SameNode(At(heap, nodes[i]), At(heap', nodes[i]))
    ensures Entries(heap', nodes) == Entries(heap, nodes)
    ensures OncePerPage(heap', nodes) == OncePerPage(heap, nodes)
  {
    if nodes != [] {
      EntriesElsewhere(heap, heap', nodes[1..]);
    }
  }

  lemma {:induction false} SpaceElsewhere(heap: Heap, heap': Heap, s: seq<nat>)
    requires SpaceOk(heap, s)
    requires forall i :: 0 <= i < |s| ==> s[i] in heap' && SameNode(At(heap, s[i]), At(heap', s[i]))
                                          && At(heap, s[i]).next == At(heap', s[i]).next
    ensures SpaceOk(heap', s) && Entries(heap', s[1..]) == Entries(heap, s[1..])
  {
    EntriesElsewhere(heap, heap', s[1..]);
    hide OncePerPage, Distinct, SameNode;
  }

  lemma {:induction false} LinkedIn(heap: Heap, heap': Heap, s: seq<nat>, p: nat)
    requires Chain(heap, s) && p != NULL && p !in heap
    requires p in heap' && s[0] in heap' && At(heap', s[0]).next == p && At(heap', p).next == At(heap, s[0]).next
    requires forall i :: 1 <= i < |s| ==> s[i] in heap' && At(heap', s[i]).next == At(heap, s[i]).next
    ensures Chain(heap', [s[0], p] + s[1..])
  {
    var t := [s[0], p] + s[1..];
    assert forall i :: 2 <= i < |t| ==> t[i] == s[i - 1];
    assert Distinct(t);
    hide Distinct;
    forall i | 0 <= i < |t| ensures t[i] in heap' && t[i] != NULL && At(heap', t[i]).next == Nth(t, i + 1, NULL) {
      if i >= 2 {
        assert s[i - 1] in heap;
      }
    }
  }

  /** A new node behind the head is a new entry. */
  lemma {:induction false} NewNode(heap: Heap, s: seq<nat>, p: nat, n: PageMap)
    requires SpaceOk(heap, s) && p != NULL && p !in heap && n.next == At(heap, s[0]).next
    requires n.va !in Entries(heap, s[1..]) && USER_START <= n.va < USER_END
    ensures var heap' := heap[p := n][s[0] := At(heap, s[0]).(next := p)];
            && SpaceOk(heap', [s[0], p] + s[1..])
            && Entries(heap', ([s[0], p] + s[1..])[1..]) == Entries(heap, s[1..])[n.va := (n.pa, n.prot)]
  {
    var heap', t := heap[p := n][s[0] := At(heap, s[0]).(next := p)], [s[0], p] + s[1..];
    assert t[1..] == [p] + s[1..] && t[1..][1..] == s[1..];
    LinkedIn(heap, heap', s, p);
    EntriesElsewhere(heap, heap', s[1..]);
    hide Distinct, Chain;
  }

  function Linked(heap: Heap, h: nat, p: nat, n: PageMap): Heap {
    heap[p := n][h := At(heap, h).(next := p)]
  }

  function WithNode(spaces: Spaces, h: nat, p: nat): Spaces
    requires h in spaces && spaces[h] != []
  {
    spaces[h := [h, p] + spaces[h][1..]]
  }

  lemma {:induction false} ApartWith(spaces: Spaces, h: nat, p: nat)
    requires Apart(spaces) && h in spaces && spaces[h] != [] && spaces[h][0] == h
    requires forall g :: g in spaces ==> p !in spaces[g]
    ensures Apart(WithNode(spaces, h, p))
  {
    var spaces' := WithNode(spaces, h, p);
    assert forall x :: x in spaces'[h] ==> x == p || x in spaces[h];
  }

  lemma {:induction false} MarkedWith(heap: Heap, spaces: Spaces, cur: nat, h: nat, p: nat, n: PageMap)
    requires AllOk(heap, spaces) && Marked(heap, spaces, cur) && h in spaces && p !in heap && n.isMapped == (h == cur)
    ensures Marked(Linked(heap, h, p, n), WithNode(spaces, h, p), cur)
  {
    var heap', spaces' := Linked(heap, h, p, n), WithNode(spaces, h, p);
    forall g, i | g in spaces' && 1 <= i < |spaces'[g]| ensures At(heap', spaces'[g][i]).isMapped <==> g == cur {
      var x := spaces'[g][i];
      if g != h {
        OtherSpace(heap, spaces, h, g);
        assert x == spaces[g][i] && x != p && x != h;
      } else if i > 1 {
        assert x == spaces[h][i - 1] && x in heap && x != p && x != h;
      } else {
        assert x == p;
      }
    }
  }

  lemma {:induction false} TablesWith(heap: Heap, spaces: Spaces, h: nat, p: nat, n: PageMap)
    requires AllOk(heap, spaces) && h in spaces && p != NULL && p !in heap
    requires n.next == At(heap, h).next && n.va !in TableOf(heap, spaces, h) && USER_START <= n.va < USER_END
    ensures var heap', spaces' := Linked(heap, h, p, n), WithNode(spaces, h, p);
            && (forall g :: g in spaces' ==> SpaceOk(heap', spaces'[g]) && spaces'[g][0] == g)
            && TableOf(heap', spaces', h) == TableOf(heap, spaces, h)[n.va := (n.pa, n.prot)]
            && forall g :: g != h ==> TableOf(heap', spaces', g) == TableOf(heap, spaces, g)
  {
    var heap', spaces' := Linked(heap, h, p, n), WithNode(spaces, h, p);
    NewNode(heap, spaces[h], p, n);
    forall g | g in spaces && g != h ensures SpaceOk(heap', spaces[g]) && TableOf(heap', spaces', g) == TableOf(heap, spaces, g) {
      OtherSpace(heap, spaces, h, g);
      SpaceElsewhere(heap, heap', spaces[g]);
    }
    hide Entries, OncePerPage, Chain, Apart;
  }

  /** Mapping a page that the space does not have yet changes this space by this page and no other space, and the host
      exactly when the space is the current one. */
  lemma {:induction false} MapKeeps(heap: Heap, spaces: Spaces, cur: nat, host: Table, h: nat, p: nat, n: PageMap)
    requires Consistent(heap, spaces, cur, host) && h in spaces && p != NULL && p !in heap
    requires n.next == At(heap, h).next && n.va !in TableOf(heap, spaces, h) && USER_START <= n.va < USER_END
    requires n.isMapped == (h == cur)
    ensures var heap', spaces' := Linked(heap, h, p, n), WithNode(spaces, h, p);
            && Consistent(heap', spaces', cur, if h == cur then host[n.va := (n.pa, n.prot)] else host)
            && TableOf(heap', spaces', h) == TableOf(heap, spaces, h)[n.va := (n.pa, n.prot)]
            && forall g :: g != h ==> TableOf(heap', spaces', g) == TableOf(heap, spaces, g)
  {
    hide TableOf, Marked, Chain, OncePerPage;
    TablesWith(heap, spaces, h, p, n);
    MarkedWith(heap, spaces, cur, h, p, n);
    forall g | g in spaces ensures p !in spaces[g] {
      InHeap(heap, spaces, g);
    }
    InHeap(heap, spaces, h);
    ApartWith(spaces, h, p);
    hide Apart, SpaceOk;
  }

  lemma {:induction false} InHeap(heap: Heap, spaces: Spaces, g: nat)
    requires AllOk(heap, spaces) && g in spaces
    ensures forall x :: x in spaces[g] ==> x in heap
    ensures g in heap && spaces[g] != []
  {
    assert spaces[g][0] == g;
  }

  /** The nodes of another space are not those of this one. */
  lemma {:induction false} OtherSpace(heap: Heap, spaces: Spaces, h: nat, g: nat)
    requires AllOk(heap, spaces) && h in spaces && g in spaces && g != h
    ensures forall i :: 0 <= i < |spaces[g]| ==> spaces[g][i] != h && spaces[g][i] in heap
  {
    forall i | 0 <= i < |spaces[g]| ensures spaces[g][i] != h {
      assert spaces[g][i] in spaces[g] && spaces[h][0] in spaces[h];
    }
  }

  // ----- a switch ------------------------------------------------------------------------------------------------

  /** The heaps differ in what is marked as mapped. */
  predicate SameButMarks(a: Heap, b: Heap) {
    a.Keys == b.Keys && forall x :: x in a ==> SameNode(a[x], b[x]) && a[x].next == b[x].next
  }

  lemma {:induction false} MarksOnly(heap: Heap, heap': Heap, spaces: Spaces)
    requires AllOk(heap, spaces) && SameButMarks(heap, heap')
    ensures AllOk(heap', spaces)
    ensures forall g :: TableOf(heap', spaces, g) == TableOf(heap, spaces, g)
  {
    forall g | g in spaces ensures SpaceOk(heap', spaces[g]) && Entries(heap', spaces[g][1..]) == Entries(heap, spaces[g][1..]) {
      forall i | 0 <= i < |spaces[g]| ensures spaces[g][i] in heap {
        InHeap(heap, spaces, g);
        assert spaces[g][i] in spaces[g];
      }
      SpaceElsewhere(heap, heap', spaces[g]);
    }
    hide SpaceOk, Apart, Entries;
  }

  /** Taking the pages of a list out of the host one by one leaves those of the rest. */
  lemma {:induction false} UnmapOne(heap: Heap, nodes: seq<nat>)
    requires nodes != [] && OncePerPage(heap, nodes)
    ensures OncePerPage(heap, nodes[1..]) && USER_START <= At(heap, nodes[0]).va < USER_END
    ensures Entries(heap, nodes) - {At(heap, nodes[0]).va} == Entries(heap, nodes[1..])
  {
  }

  /** Putting them in one by one: what is in the host and what is to come make the table. */
  lemma {:induction false} MapOne(heap: Heap, nodes: seq<nat>, host: Table)
    requires nodes != [] && OncePerPage(heap, nodes)
    ensures var n := At(heap, nodes[0]);
            host[n.va := (n.pa, n.prot)] + Entries(heap, nodes[1..]) == host + Entries(heap, nodes)
  {
  }

  lemma {:induction false} NodeAt(heap0: Heap, heap: Heap, s: seq<nat>, k: nat)
    requires SpaceOk(heap0, s) && SameButMarks(heap0, heap) && k < |s|
    ensures s[k] in heap && s[k] != NULL && heap[s[k]].next == Nth(s, k + 1, NULL) && SameNode(At(heap0, s[k]), heap[s[k]])
    ensures s[k..][1..] == s[k + 1..]
  {
  }

  function Mark(heap: Heap, x: nat, b: bool): Heap
    requires x in heap
  {
    heap[x := heap[x].(isMapped := b)]
  }

  /** The first k - 1 nodes of a list have lost their mark, or got one; the other nodes have the marks of heap0. */
  ghost predicate MarksSoFar(heap0: Heap, heap: Heap, s: seq<nat>, k: nat, b: bool)
    requires 1 <= k <= |s|
  {
    SameButMarks(heap0, heap)
    && forall x :: x in heap ==> heap[x].isMapped == if x in s[1..k] then b else heap0[x].isMapped
  }

  lemma {:induction false} MarkOne(heap0: Heap, heap: Heap, s: seq<nat>, k: nat, b: bool)
    requires 1 <= k < |s| && MarksSoFar(heap0, heap, s, k, b) && s[k] in heap
    ensures MarksSoFar(heap0, Mark(heap, s[k], b), s, k + 1, b)
  {
    assert s[1..k + 1] == s[1..k] + [s[k]];
  }

  lemma {:induction false} NotYet(heap0: Heap, heap: Heap, s: seq<nat>, k: nat, b: bool)
    requires Chain(heap0, s) && 1 <= k < |s| && MarksSoFar(heap0, heap, s, k, b) && s[k] in heap
    ensures heap[s[k]].isMapped == heap0[s[k]].isMapped
  {
    assert s[k] !in s[1..k];
  }

  lemma {:induction false} AllMarked(heap: Heap, spaces: Spaces, cur: nat, k: nat)
    requires AllOk(heap, spaces) && Marked(heap, spaces, cur) && cur in spaces && 1 <= k < |spaces[cur]|
    ensures spaces[cur][k] in heap && heap[spaces[cur][k]].isMapped
  {
    assert spaces[cur][k] in heap by {
      assert SpaceOk(heap, spaces[cur]);
    }
  }

  ghost predicate NoneMarked(heap: Heap, spaces: Spaces) {
    forall h, i :: h in spaces && 1 <= i < |spaces[h]| ==> !At(heap, spaces[h][i]).isMapped
  }

  /** Whether a node of one space is on the list of another. */
  lemma {:induction false} OnList(heap: Heap, spaces: Spaces, g: nat, i: nat, h: nat)
    requires AllOk(heap, spaces) && g in spaces && h in spaces && 1 <= i < |spaces[g]|
    ensures spaces[g][i] in heap && spaces[h] != [] && (spaces[g][i] in spaces[h][1..] <==> g == h)
  {
    InHeap(heap, spaces, g);
    InHeap(heap, spaces, h);
    var x := spaces[g][i];
    assert x in spaces[g];
    assert g == h ==> x == spaces[g][1..][i - 1];
    hide SpaceOk;
  }

  lemma {:induction false} AllUnmarked(heap: Heap, heap1: Heap, spaces: Spaces, cur: nat)
    requires AllOk(heap, spaces) && Marked(heap, spaces, cur) && (heap1 == heap || SameButMarks(heap, heap1))
    requires if cur in spaces then spaces[cur] != [] && MarksSoFar(heap, heap1, spaces[cur], |spaces[cur]|, false)
             else heap1 == heap
    ensures NoneMarked(heap1, spaces)
  {
    forall g, i | g in spaces && 1 <= i < |spaces[g]| ensures !At(heap1, spaces[g][i]).isMapped {
      if cur in spaces {
        OnList(heap, spaces, g, i, cur);
        assert spaces[cur][1..|spaces[cur]|] == spaces[cur][1..];
      }
    }
  }

  /** After a switch the nodes of the new space are marked and no others. */
  lemma {:induction false} MarkedAfter(heap1: Heap, heap': Heap, spaces: Spaces, next: nat)
    requires AllOk(heap1, spaces) && NoneMarked(heap1, spaces)
    requires if next in spaces then spaces[next] != [] && MarksSoFar(heap1, heap', spaces[next], |spaces[next]|, true)
             else heap' == heap1
    ensures Marked(heap', spaces, next)
  {
    forall g, i | g in spaces && 1 <= i < |spaces[g]| ensures At(heap', spaces[g][i]).isMapped <==> g == next {
      if next in spaces {
        OnList(heap1, spaces, g, i, next);
        assert spaces[next][1..|spaces[next]|] == spaces[next][1..];
      }
    }
  }

  // ----- a page that the space already has --------------------------------------------------------------------------

  function Around(c: seq<nat>, i: nat): nat
    requires i < |c|
  {
    if i + 1 < |c| then c[i + 1] else c[0]
  }

  /** From the head to a node, and from node to node and from the last back to the first. */
  ghost predicate Cycle(heap: Heap, head: nat, c: seq<nat>) {
    && c != [] && At(heap, head).next == c[0]
    && forall i :: 0 <= i < |c| ==> c[i] != NULL && At(heap, c[i]).next == Around(c, i)
  }

  lemma {:induction false} ChainRuns(heap: Heap, s: seq<nat>, c: seq<nat>, i: nat)
    requires Chain(heap, s) && Cycle(heap, s[0], c) && i < |s|
    ensures Nth(s, i + 1, NULL) in c
    decreases i
  {
    assert At(heap, s[i]).next == Nth(s, i + 1, NULL);
    if i > 0 {
      ChainRuns(heap, s, c, i - 1);
      var j :| 0 <= j < |c| && c[j] == s[i];
      assert Around(c, j) in c;
    }
  }

  /** A cycle has no end, so it is the list of no space: nothing that walks the list comes to an end. */
  lemma {:induction false} CycleNoSpace(heap: Heap, s: seq<nat>, c: seq<nat>)
    requires s != [] && Cycle(heap, s[0], c)
    ensures !Chain(heap, s)
  {
    if Chain(heap, s) {
      ChainRuns(heap, s, c, |s| - 1);
    }
  }

  /** Linking a node of the list in again, at its head, makes one. */
  lemma {:induction false} RelinkedCycle(heap: Heap, s: seq<nat>, k: nat, n: PageMap)
    requires Chain(heap, s) && 1 <= k < |s| && n.next == s[1]
    ensures Cycle(Linked(heap, s[0], s[k], n), s[0], [s[k]] + s[1..k])
  {
    var heap', c := Linked(heap, s[0], s[k], n), [s[k]] + s[1..k];
    assert |c| == k && forall i :: 1 <= i < k ==> c[i] == s[i];
    assert s[0] != s[k];
    forall i | 0 <= i < |c| ensures c[i] != NULL && At(heap', c[i]).next == Around(c, i) {
      if i > 0 {
        assert s[0] != s[i] && s[i] != s[k];
        assert At(heap, s[i]).next == Nth(s, i + 1, NULL);
      }
    }
    hide Distinct;
  }

  const PGSIZE: nat := 0x1000

  predicate Mappable(va: nat, pa: nat) {
    USER_START <= va < USER_END && va % PGSIZE == 0 && pa % PGSIZE == 0
  }

  class Machine {
    var heap: Heap
    var vmHead: nat
    ghost var host: Table
    ghost var spaces: Spaces

    ghost predicate Valid()
      reads this
    {
      Consistent(heap, spaces, vmHead, host)
    }

    /** What an address space maps. */
    ghost function Table(h: nat): Table
      reads this
    {
      TableOf(heap, spaces, h)
    }

    constructor ()
      ensures Valid() && spaces == map[] && vmHead == NULL && host == map[]
    {
      heap, vmHead, host, spaces := map[], NULL, map[], map[];
    }

    /** __am_pmem_map and __am_pmem_unmap of a page. */
    ghost method PmemMap(va: nat, pa: nat, prot: nat)
      modifies this`host
      ensures host == old(host)[va := (pa, prot)]
    {
      host := host[va := (pa, prot)];
    }

    ghost method PmemUnmap(va: nat)
      modifies this`host
      ensures host == old(host) - {va}
    {
      host := host - {va};
    }

    /** protect, with the cleared page p that pgalloc returns. */
    method Protect(p: nat) returns (h: nat)
      requires Valid() && p != NULL && p !in heap
      modifies this`heap, this`spaces
      ensures Valid() && h == p && spaces == old(spaces)[p := [p]] && Table(p) == map[]
      ensures forall g :: g != p ==> Table(g) == old(Table(g))
    {
      ghost var heap0 := heap;
      heap := heap[p := PageMap(0, 0, NULL, 0, false)];
      ProtectKeeps(heap0, spaces, vmHead, host, p);
      spaces := spaces[p := [p]];
      h := p;
    }

    /** The node of a page in the list behind h, or NULL. */
    method Find(h: nat, va: nat) returns (pp: nat, ghost k: nat)
      requires Valid() && h in spaces
      ensures pp == NULL <==> va !in Table(h)
      ensures pp != NULL ==> 1 <= k < |spaces[h]| && spaces[h][k] == pp && heap[pp].va == va
    {
      ghost var s := spaces[h];
      InHeap(heap, spaces, h);
      pp, k := heap[h].next, 1;
      while pp != NULL
        invariant 1 <= k <= |s| && pp == Nth(s, k, NULL)
        invariant va in Entries(heap, s[1..]) <==> va in Entries(heap, s[k..])
        decreases |s| - k
      {
        assert s[k] in s && s[k..][1..] == s[k + 1..];
        if heap[pp].va == va {
          break;
        }
        pp, k := heap[pp].next, k + 1;
      }
    }

    /** map, with the page p that pgalloc returns when the address is new. */
    method Map(h: nat, va: nat, pa: nat, prot: nat, p: nat) returns (stopped: bool, found: bool)
      requires Valid() && h in spaces && p != NULL && p !in heap
      modifies this`heap, this`host, this`spaces
      ensures stopped <==> !(0x4000_0000 <= va < 0xc000_0000) || va % 0x1000 != 0 || pa % 0x1000 != 0
      ensures stopped ==> Valid() && heap == old(heap) && spaces == old(spaces) && host == old(host)
      ensures !stopped ==> (found <==> va in old(Table(h)))
      ensures !stopped && !found ==>
                && Valid() && Table(h) == old(Table(h))[va := (pa, prot)]
                && spaces.Keys == old(spaces).Keys && forall g :: g != h ==> Table(g) == old(Table(g))
      ensures !stopped && found ==> exists c :: Cycle(heap, h, c)
    {
      hide Apart, Marked, SpaceOk, Entries, MarksSoFar;
      stopped, found := !Mappable(va, pa), false;
      if stopped {
        return;
      }
      ghost var s, heap0 := spaces[h], heap;
      var pp;
      ghost var k;
      pp, k := Find(h, va);
      found := pp != NULL;
      if !found {
        pp := p;
      }
      InHeap(heap, spaces, h);
      heap := heap[pp := PageMap(va, pa, heap[h].next, prot, false)];
      heap := heap[h := heap[h].(next := pp)];
      if h == vmHead {
        PmemMap(va, pa, prot);
        heap := heap[pp := heap[pp].(isMapped := true)];
      }
      ghost var n := PageMap(va, pa, At(heap0, h).next, prot, h == vmHead);
      if found {
        NodeAt(heap0, heap0, s, k);
        HeadApart(heap0, s, k);
        assert heap == Linked(heap0, h, pp, n);
        RelinkedCycle(heap0, s, k, n);
      } else {
        assert heap == Linked(heap0, h, p, n);
        MapKeeps(heap0, spaces, vmHead, old(host), h, p, n);
        spaces := WithNode(spaces, h, p);
      }
    }

    /** The first loop of __am_switch. */
    method UnmapAll()
      requires Valid() && vmHead != NULL
      modifies this`heap, this`host
      ensures host == map[] && spaces[vmHead] != []
      ensures MarksSoFar(old(heap), heap, spaces[vmHead], |spaces[vmHead]|, false)
    {
      ghost var s, heap0 := spaces[vmHead], heap;
      InHeap(heap, spaces, vmHead);
      assert SpaceOk(heap, s);
      hide Chain, Entries, OncePerPage, SameNode, Apart, Marked;
      NodeAt(heap0, heap, s, 0);
      var pp := heap[vmHead].next;
      ghost var k := 1;
      assert s[1..1] == [] && MarksSoFar(heap0, heap, s, 1, false);
      hide MarksSoFar, SameButMarks;
      while pp != NULL
        invariant 1 <= k <= |s| && pp == Nth(s, k, NULL) && MarksSoFar(heap0, heap, s, k, false) && SameButMarks(heap0, heap)
        invariant host == Entries(heap0, s[k..]) && OncePerPage(heap0, s[k..])
        decreases |s| - k
      {
        NodeAt(heap0, heap, s, k);
        AllMarked(heap0, spaces, vmHead, k);
        NotYet(heap0, heap, s, k, false);
        if heap[pp].isMapped {
          UnmapOne(heap0, s[k..]);
          VaIs(heap0, heap, pp);
          PmemUnmap(heap[pp].va);
          MarkOne(heap0, heap, s, k, false);
          heap := heap[pp := heap[pp].(isMapped := false)];
          SoFarSame(heap0, heap, s, k + 1, false);
        }
        pp, k := heap[pp].next, k + 1;
      }
      NoEntries(heap0, s[k..]);
    }

    /** The second loop, in which no assertion fails. */
    method MapAll(h: nat, ghost heap0: Heap)
      requires h in spaces && SpaceOk(heap0, spaces[h]) && SameButMarks(heap0, heap) && spaces[h][0] == h && host == map[]
      modifies this`heap, this`host
      ensures host == Entries(heap0, spaces[h][1..]) && SameButMarks(heap0, heap)
      ensures MarksSoFar(old(heap), heap, spaces[h], |spaces[h]|, true)
    {
      ghost var s, heap1 := spaces[h], heap;
      assert OncePerPage(heap0, s[1..]) && SpaceOk(heap1, s) by {
        SpaceElsewhere(heap0, heap1, s);
      }
      assert s[1..1] == [] && MarksSoFar(heap1, heap, s, 1, true);
      hide SpaceOk, Entries, OncePerPage, SameNode, SameButMarks, MarksSoFar;
      NodeAt(heap0, heap, s, 0);
      var pp := heap[h].next;
      ghost var k := 1;
      while pp != NULL
        invariant 1 <= k <= |s| && pp == Nth(s, k, NULL) && MarksSoFar(heap1, heap, s, k, true) && SameButMarks(heap0, heap)
        invariant host + Entries(heap0, s[k..]) == Entries(heap0, s[1..]) && OncePerPage(heap0, s[k..])
        decreases |s| - k
      {
        NodeAt(heap0, heap, s, k);
        UnmapOne(heap0, s[k..]);
        MapOne(heap0, s[k..], host);
        VaIs(heap0, heap, pp);
        assert USER_START <= heap[pp].va < USER_END;
        PmemMap(heap[pp].va, heap[pp].pa, heap[pp].prot);
        MarkOne(heap1, heap, s, k, true);
        heap := heap[pp := heap[pp].(isMapped := true)];
        SoFarSame(heap1, heap, s, k + 1, true);
        SameTwice(heap0, heap1, heap);
        pp, k := heap[pp].next, k + 1;
      }
      NoEntries(heap0, s[k..]);
    }

    /** __am_switch to the space of a context, or to none. */
    method Switch(h: nat)
      requires Valid() && (h == NULL || h in spaces)
      modifies this`heap, this`host, this`vmHead
      ensures Valid() && vmHead == h && host == Table(h)
      ensures forall g :: Table(g) == old(Table(g))
    {
      if h == vmHead {
        return;
      }
      ghost var heap0 := heap;
      if vmHead != NULL {
        UnmapAll();
      }
      ghost var heap1 := heap;
      if h != NULL {
        MapAll(h, heap0);
      }
      AllUnmarked(heap0, heap1, spaces, vmHead);
      MarksOnly(heap0, heap1, spaces);
      MarkedAfter(heap1, heap, spaces, h);
      MarksOnly(heap0, heap, spaces);
      vmHead := h;
    }
  }

  lemma {:induction false} SoFarSame(heap0: Heap, heap: Heap, s: seq<nat>, k: nat, b: bool)
    requires 1 <= k <= |s| && MarksSoFar(heap0, heap, s, k, b)
    ensures SameButMarks(heap0, heap)
  {
  }

  lemma {:induction false} SameTwice(a: Heap, b: Heap, c: Heap)
    requires SameButMarks(a, b) && SameButMarks(b, c)
    ensures SameButMarks(a, c)
  {
  }

  lemma {:induction false} HeadApart(heap: Heap, s: seq<nat>, k: nat)
    requires SpaceOk(heap, s) && 1 <= k < |s|
    ensures s[k] != s[0] && Chain(heap, s) && At(heap, s[0]).next == s[1]
  {
  }

  lemma {:induction false} VaIs(heap0: Heap, heap: Heap, x: nat)
    requires x in heap && SameNode(At(heap0, x), heap[x])
    ensures heap[x].va == At(heap0, x).va && heap[x].pa == At(heap0, x).pa && heap[x].prot == At(heap0, x).prot
  {
  }

  lemma {:induction false} NoEntries(heap: Heap, nodes: seq<nat>)
    requires nodes == []
    ensures Entries(heap, nodes) == map[]
  {
  }

  lemma {:induction false} SpacesElsewhere(heap: Heap, spaces: Spaces, p: nat)
    requires AllOk(heap, spaces) && p !in heap
    ensures var heap' := heap[p := PageMap(0, 0, NULL, 0, false)];
            forall g :: g in spaces ==> g != p && p !in spaces[g] && SpaceOk(heap', spaces[g])
                                        && Entries(heap', spaces[g][1..]) == Entries(heap, spaces[g][1..])
  {
    var heap' := heap[p := PageMap(0, 0, NULL, 0, false)];
    forall g | g in spaces
      ensures g != p && p !in spaces[g] && SpaceOk(heap', spaces[g])
              && Entries(heap', spaces[g][1..]) == Entries(heap, spaces[g][1..])
    {
      InHeap(heap, spaces, g);
      forall i | 0 <= i < |spaces[g]| ensures spaces[g][i] in heap {
        assert spaces[g][i] in spaces[g];
      }
      SpaceElsewhere(heap, heap', spaces[g]);
    }
  }

  lemma {:induction false} ProtectMarks(heap: Heap, spaces: Spaces, cur: nat, p: nat)
    requires AllOk(heap, spaces) && Marked(heap, spaces, cur) && p !in heap
    ensures Marked(heap[p := PageMap(0, 0, NULL, 0, false)], spaces[p := [p]], cur)
  {
    forall h, i | h in spaces && 1 <= i < |spaces[h]| ensures spaces[h][i] in heap {
      InHeap(heap, spaces, h);
      assert spaces[h][i] in spaces[h];
    }
    hide AllOk;
  }

  lemma {:induction false} ProtectKeeps(heap: Heap, spaces: Spaces, cur: nat, host: Table, p: nat)
    requires Consistent(heap, spaces, cur, host) && p != NULL && p !in heap
    ensures var heap', spaces' := heap[p := PageMap(0, 0, NULL, 0, false)], spaces[p := [p]];
            && Consistent(heap', spaces', cur, host) && TableOf(heap', spaces', p) == map[]
            && forall g :: g != p ==> TableOf(heap', spaces', g) == TableOf(heap, spaces, g)
  {
    SpacesElsewhere(heap, spaces, p);
    ProtectMarks(heap, spaces, cur, p);
    hide Marked, OncePerPage;
    var heap', spaces' := heap[p := PageMap(0, 0, NULL, 0, false)], spaces[p := [p]];
    assert SpaceOk(heap', [p]) by {
      assert [p][1..] == [] && OncePerPage(heap', []) by { NonePerPage(heap'); }
    }
    hide SpaceOk;
  }

  lemma {:induction false} NonePerPage(heap: Heap)
    ensures OncePerPage(heap, [])
  {
  }
}

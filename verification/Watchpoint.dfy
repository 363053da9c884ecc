/** The watchpoint pool (nemu/src/monitor/debug/watchpoint.c): two lists through one array of nodes. */
module Watchpoint {
  import opened Sequences

  const NR_WP: nat := 32
  const NULL: int := -1

  /** what is a handle of a string on the heap, or 0. */
  datatype WP = WP(no: nat, next: int, what: nat)

  /** The places a WP* is kept in: the targets of a WP**. */
  datatype Place = Head | Free | NextOf(i: nat)

  // ----- the two lists as sequences of node indices --------------------------------------------------------------

  datatype Lists = Lists(active: seq<nat>, free: seq<nat>)

  datatype Request = NewWp | FreeWp(no: int)

  /** Every node is in exactly one of the lists, once. */
  ghost predicate Partition(l: Lists) {
    && Distinct(l.active + l.free)
    && (forall x :: x in l.active + l.free <==> 0 <= x < 32)
  }

  function Initial(): Lists {
    Lists([], seq(NR_WP, i => i))
  }

  function IndexOf(s: seq<nat>, x: int): (k: nat)
    ensures k <= |s| && x !in s[..k] && (k < |s| ==> s[k] == x)
  {
    if s == [] then 0 else if s[0] == x then 0
    else
      var k := IndexOf(s[1..], x);
      assert s[..1 + k] == [s[0]] + s[1..][..k];
      1 + k
  }

  /** new_wp takes the first free node; on an empty free list it stops the program. */
  function AfterNew(l: Lists): Lists
    requires l.free != []
  {
    Lists([l.free[0]] + l.active, l.free[1..])
  }

  /** free_wp takes the first active node with that number out of its place. */
  function AfterFree(l: Lists, no: int): Lists {
    var k := IndexOf(l.active, no);
    if k < |l.active| then Lists(l.active[..k] + l.active[k + 1..], [no] + l.free) else l
  }

  function After(l: Lists, r: Request): Lists {
    match r
    case NewWp => if l.free == [] then l else AfterNew(l)
    case FreeWp(no) => AfterFree(l, no)
  }

  /** A new watchpoint is one that was free, and the first of the active ones. */
  lemma {:induction false} NewMeans(l: Lists, x: nat)
    requires Partition(l) && l.free != []
    ensures var m := AfterNew(l);
      && m.active != [] && m.active[0] in l.free && m.active[1..] == l.active
      && (x in m.free <==> x in l.free && x != m.active[0])
  {
    var m := AfterNew(l);
    var s := l.active + l.free;
    forall k | 1 <= k < |l.free| ensures l.free[k] != l.free[0] {
      assert s[|l.active| + k] != s[|l.active|];
    }
    if x in l.free && x != l.free[0] {
      var k :| 0 <= k < |l.free| && l.free[k] == x;
      assert m.free[k - 1] == x;
    }
  }

  /** Freeing a number takes the watchpoint with that number from the active ones, if it is there, and nothing else. */
  lemma {:induction false} FreeMeans(l: Lists, no: int, x: nat)
    requires Partition(l)
    ensures var m := AfterFree(l, no);
      && (x in m.active <==> x in l.active && x != no)
      && (x in m.free <==> x in l.free || (x in l.active && x == no))
  {
    var k, s := IndexOf(l.active, no), l.active + l.free;
    if k < |l.active| {
      var m := AfterFree(l, no);
      forall j | 0 <= j < |l.active| && j != k ensures l.active[j] != no && l.active[j] in m.active {
        assert s[j] != s[k];
        assert l.active[j] == if j < k then m.active[j] else m.active[j - 1];
      }
    }
  }

  function Run(l: Lists, requests: seq<Request>): Lists
    decreases |requests|
  {
    if requests == [] then l else Run(After(l, requests[0]), requests[1..])
  }

  lemma {:induction false} InitialPartition()
    ensures Partition(Initial())
  {
    var s := Initial().active + Initial().free;
    forall x: int | 0 <= x < NR_WP ensures x in s {
      assert s[x] == x;
    }
  }

  lemma {:induction false} Members(a: seq<nat>, b: seq<nat>)
    requires |a| == |b| && Distinct(a)
    requires multiset(a) == multiset(b)
    ensures Distinct(b) && forall x :: x in a <==> x in b
  {
    forall x ensures x in a <==> x in b {
      assert x in a <==> x in multiset(a);
      assert x in b <==> x in multiset(b);
    }
    forall i, j | 0 <= i < j < |b| && b[i] == b[j] ensures false {
      Twice(b, i, j);
      OnceOnly(a, b[i]);
    }
  }

  lemma {:induction false} Twice(b: seq<nat>, i: nat, j: nat)
    requires i < j < |b| && b[i] == b[j]
    ensures multiset(b)[b[i]] >= 2
  {
    assert b == b[..j] + [b[j]] + b[j + 1..];
    assert b[i] == b[..j][i];
  }

  lemma {:induction false} OnceOnly(a: seq<nat>, x: nat)
    requires Distinct(a)
    ensures multiset(a)[x] <= 1
  {
    if a != [] {
      assert a == [a[0]] + a[1..];
      OnceOnly(a[1..], x);
      if x == a[0] {
        assert x !in a[1..];
      }
    }
  }

  lemma {:induction false} SameNodes(l: Lists, m: Lists)
    requires Partition(l) && multiset(l.active + l.free) == multiset(m.active + m.free)
    ensures Partition(m)
  {
    assert |multiset(l.active + l.free)| == |l.active + l.free|;
    assert |multiset(m.active + m.free)| == |m.active + m.free|;
    Members(l.active + l.free, m.active + m.free);
  }

  lemma {:induction false} NewKeeps(l: Lists)
    requires Partition(l) && l.free != []
    ensures Partition(AfterNew(l))
  {
    assert l.free == [l.free[0]] + l.free[1..];
    SameNodes(l, AfterNew(l));
  }

  lemma {:induction false} FreeKeeps(l: Lists, no: int)
    requires Partition(l)
    ensures Partition(AfterFree(l, no))
  {
    var k := IndexOf(l.active, no);
    if k < |l.active| {
      assert l.active == l.active[..k] + [no] + l.active[k + 1..];
      SameNodes(l, AfterFree(l, no));
    }
  }

  /** After any requests every node is in exactly one of the lists. */
  lemma {:induction false} RunKeeps(l: Lists, requests: seq<Request>)
    requires Partition(l)
    ensures Partition(Run(l, requests))
    decreases |requests|
  {
    if requests != [] {
      match requests[0] {
        case NewWp =>
          if l.free != [] {
            NewKeeps(l);
          }
        case FreeWp(no) => FreeKeeps(l, no);
      }
      RunKeeps(After(l, requests[0]), requests[1..]);
    }
  }

  /** Freeing the watchpoint just made gives both lists back. */
  lemma {:induction false} FreeUndoesNew(l: Lists)
    requires l.free != []
    ensures AfterFree(AfterNew(l), l.free[0]) == l
  {
    var m := AfterNew(l);
    assert m.active[0] == l.free[0];
    assert IndexOf(m.active, l.free[0]) == 0;
    assert m.active[..0] + m.active[1..] == l.active;
  }

  // ----- the lists in the pool -----------------------------------------------------------------------------------

  /** s is the list that starts at first: each node's next is the node after it. */
  ghost predicate Chain(pool: seq<WP>, first: int, s: seq<nat>) {
    && first == Nth(s, 0, NULL)
    && forall i :: 0 <= i < |s| ==> s[i] < |pool| && pool[s[i]].next == Nth(s, i + 1, NULL)
  }

  /** The lists and the numbers of the nodes. */
  ghost predicate Linked(pool: seq<WP>, head: int, free_: int, l: Lists) {
    && |pool| == NR_WP && (forall i :: 0 <= i < NR_WP ==> pool[i].no == i)
    && Partition(l) && Chain(pool, head, l.active) && Chain(pool, free_, l.free)
  }

  /** q is p but for the links of two nodes. */
  ghost predicate SameBut(p: seq<WP>, q: seq<WP>, i: int, j: int) {
    |q| == |p| && forall k :: 0 <= k < |p| ==> q[k].no == p[k].no && (k != i && k != j ==> q[k].next == p[k].next)
  }

  lemma {:induction false} Apart(l: Lists)
    requires Partition(l)
    ensures Distinct(l.active) && Distinct(l.free) && forall x :: x in l.active ==> x !in l.free
    ensures forall i :: 0 <= i < |l.active| ==> l.active[i] < NR_WP
    ensures forall i :: 0 <= i < |l.free| ==> l.free[i] < NR_WP
  {
    var s, n := l.active + l.free, |l.active|;
    forall i, j | 0 <= i < n && 0 <= j < |l.free| ensures l.active[i] != l.free[j] {
      assert s[i] == l.active[i] && s[n + j] == l.free[j];
    }
    forall i, j | 0 <= i < j < n ensures l.active[i] != l.active[j] {
      assert s[i] == l.active[i] && s[j] == l.active[j];
    }
    forall i, j | 0 <= i < j < |l.free| ensures l.free[i] != l.free[j] {
      assert s[n + i] == l.free[i] && s[n + j] == l.free[j];
    }
    forall i | 0 <= i < n ensures l.active[i] < NR_WP {
      assert s[i] in s;
    }
    forall i | 0 <= i < |l.free| ensures l.free[i] < NR_WP {
      assert s[n + i] in s;
    }
  }

  /** A list does not change when only nodes that are not on it do. */
  lemma {:induction false} ChainElsewhere(p: seq<WP>, q: seq<WP>, first: int, s: seq<nat>, i: int, j: int)
    requires Chain(p, first, s) && SameBut(p, q, i, j)
    requires forall k :: 0 <= k < |s| ==> s[k] != i && s[k] != j
    ensures Chain(q, first, s)
  {
  }

  /** The list without its first node. */
  lemma {:induction false} ChainPop(p: seq<WP>, first: int, s: seq<nat>)
    requires Chain(p, first, s) && s != []
    ensures first == s[0] < |p| && Chain(p, p[s[0]].next, s[1..])
  {
    assert forall i :: 0 <= i < |s[1..]| ==> s[1..][i] == s[i + 1];
  }

  /** A node in front of a list. */
  lemma {:induction false} ChainPush(p: seq<WP>, first: int, s: seq<nat>, i: nat)
    requires Chain(p, first, s) && i < |p| && p[i].next == first
    ensures Chain(p, i, [i] + s)
  {
    var t := [i] + s;
    assert forall k :: 1 <= k < |t| ==> t[k] == s[k - 1];
  }

  /** The k-th node taken out by changing the next of the one before. */
  lemma {:induction false} ChainUnlink(p: seq<WP>, q: seq<WP>, first: int, s: seq<nat>, k: nat)
    requires Chain(p, first, s) && Distinct(s) && 0 < k < |s|
    requires SameBut(p, q, s[k - 1], s[k]) && q[s[k - 1]].next == p[s[k]].next
    ensures Chain(q, first, s[..k] + s[k + 1..])
  {
    hide Chain, Distinct;
    var t := s[..k] + s[k + 1..];
    forall i | 0 <= i < |t| ensures t[i] < |q| && q[t[i]].next == Nth(t, i + 1, NULL) {
      var j := if i < k - 1 then i else i + 1;
      LinkAt(p, first, s, j);
      LinkAt(p, first, s, k - 1);
      Differ(s, if i < k then i else j, k - 1);
      Differ(s, if i < k then i else j, k);
    }
    LinkAt(p, first, s, 0);
    ChainIs(q, first, t);
  }

  lemma {:induction false} LinkAt(p: seq<WP>, first: int, s: seq<nat>, i: nat)
    requires Chain(p, first, s) && i < |s|
    ensures first == s[0] && s[i] < |p| && p[s[i]].next == Nth(s, i + 1, NULL)
  {
  }

  lemma {:induction false} ChainIs(p: seq<WP>, first: int, s: seq<nat>)
    requires first == Nth(s, 0, NULL) && forall i :: 0 <= i < |s| ==> s[i] < |p| && p[s[i]].next == Nth(s, i + 1, NULL)
    ensures Chain(p, first, s)
  {
  }

  lemma {:induction false} Differ(s: seq<nat>, i: nat, j: nat)
    requires Distinct(s) && i < |s| && j < |s|
    ensures i != j ==> s[i] != s[j]
  {
  }

  /** The links of new_wp make the lists of AfterNew. */
  lemma {:induction false} NewLinks(p: seq<WP>, head: int, free_: int, l: Lists, q: seq<WP>)
    requires Linked(p, head, free_, l) && l.free != [] && 0 <= free_ < |p|
    requires SameBut(p, q, free_, free_) && q[free_].next == head
    ensures free_ == l.free[0] && Linked(q, free_, p[free_].next, AfterNew(l))
  {
    hide Partition, Chain;
    assert |q| == |p| && forall i :: 0 <= i < NR_WP ==> q[i].no == i;
    hide SameBut;
    NewKeeps(l);
    ChainPop(p, free_, l.free);
    var t := l.free[0];
    forall k | 0 <= k < |l.active| ensures l.active[k] != t {
      Apart(l);
      assert l.active[k] in l.active && t in l.free;
    }
    assert forall k :: 0 <= k < |l.free[1..]| ==> l.free[1..][k] != t by {
      Apart(l);
    }
    hide Distinct;
    ChainElsewhere(p, q, p[t].next, l.free[1..], t, t);
    ChainElsewhere(p, q, head, l.active, t, t);
    ChainPush(q, head, l.active, t);
  }

  /** The links of free_wp, for the k-th active node. */
  lemma {:induction false} FreeLinks(p: seq<WP>, head: int, free_: int, l: Lists, k: nat, q: seq<WP>)
    requires Linked(p, head, free_, l) && k < |l.active| && l.active[k] < |p| && |q| == |p|
    requires var t := l.active[k]; q[t].next == free_ && q[t].no == t
    requires k == 0 ==> SameBut(p, q, l.active[k], l.active[k])
    requires k > 0 ==> l.active[k - 1] < |p| && SameBut(p, q, l.active[k - 1], l.active[k])
                       && q[l.active[k - 1]].next == p[l.active[k]].next
    ensures Linked(q, if k == 0 then p[head].next else head, l.active[k], AfterFree(l, l.active[k]))
  {
    hide Partition, Chain;
    assert |q| == |p| && forall i :: 0 <= i < NR_WP ==> q[i].no == i by {
      assert SameBut(p, q, if k == 0 then l.active[k] else l.active[k - 1], l.active[k]);
    }
    var t := l.active[k];
    FreeKeeps(l, t);
    FirstIs(l, k);
    FreeList(p, free_, l, if k == 0 then t else l.active[k - 1], t, q);
    if k == 0 {
      FirstOut(p, head, l, q);
    } else {
      assert Distinct(l.active) by { Apart(l); }
      hide Distinct, SameBut;
      ChainUnlink(p, q, head, l.active, k);
    }
  }

  lemma {:induction false} FirstIs(l: Lists, k: nat)
    requires Partition(l) && k < |l.active|
    ensures IndexOf(l.active, l.active[k]) == k
  {
    Apart(l);
  }

  lemma {:induction false} FreeList(p: seq<WP>, free_: int, l: Lists, before: nat, t: nat, q: seq<WP>)
    requires Partition(l) && Chain(p, free_, l.free) && before in l.active && t in l.active
    requires SameBut(p, q, before, t) && t < |q| && q[t].next == free_
    ensures Chain(q, t, [t] + l.free)
  {
    Apart(l);
    hide Partition, Distinct;
    ChainElsewhere(p, q, free_, l.free, before, t);
    ChainPush(q, free_, l.free, t);
  }

  lemma {:induction false} FirstOut(p: seq<WP>, head: int, l: Lists, q: seq<WP>)
    requires Partition(l) && Chain(p, head, l.active) && l.active != [] && SameBut(p, q, l.active[0], l.active[0])
    ensures head == l.active[0] < |p| && Chain(q, p[head].next, l.active[..0] + l.active[1..])
  {
    Apart(l);
    ChainPop(p, head, l.active);
    assert l.active[..0] + l.active[1..] == l.active[1..];
    ChainElsewhere(p, q, p[head].next, l.active[1..], l.active[0], l.active[0]);
  }

  class Pool {
    const wpPool: array<WP>
    var head: int
    var free_: int
    ghost var lists: Lists
    ghost var released: seq<nat>

    ghost predicate Valid()
      reads this, wpPool
    {
      Linked(wpPool[..], head, free_, lists)
    }

    /** init_wp_pool */
    constructor ()
      ensures Valid() && fresh(wpPool) && lists == Initial() && released == []
    {
      wpPool := new WP[NR_WP];
      head, free_ := NULL, 0;
      lists, released := Initial(), [];
      new;
      for i := 0 to NR_WP
        invariant fresh(wpPool) && wpPool.Length == NR_WP
        invariant head == NULL && free_ == 0 && lists == Initial() && released == []
        invariant forall j :: 0 <= j < i ==> wpPool[j].no == j && wpPool[j].next == j + 1
      {
        wpPool[i] := WP(i, i + 1, 0);
      }
      wpPool[NR_WP - 1] := wpPool[NR_WP - 1].(next := NULL);
      InitialPartition();
    }

    /** The WP* kept in a place. */
    function At(p: Place): int
      reads this, wpPool
      requires p.NextOf? ==> p.i < wpPool.Length
    {
      match p
      case Head => head
      case Free => free_
      case NextOf(i) => wpPool[i].next
    }

    method Put(p: Place, w: int)
      requires p.NextOf? ==> p.i < wpPool.Length
      modifies this`head, this`free_, wpPool
      ensures head == if p.Head? then w else old(head)
      ensures free_ == if p.Free? then w else old(free_)
      ensures wpPool[..] == if p.NextOf? then old(wpPool[..])[p.i := old(wpPool[p.i]).(next := w)] else old(wpPool[..])
    {
      match p
      case Head => head := w;
      case Free => free_ := w;
      case NextOf(i) => wpPool[i] := wpPool[i].(next := w);
    }

    /** The node that src points to goes in front of the list that dest points to. */
    method ElementExchange(dest: Place, src: Place)
      requires !dest.NextOf? && dest != src && (src.NextOf? ==> src.i < wpPool.Length)
      requires 0 <= At(src) < wpPool.Length && (src.NextOf? ==> At(src) != src.i)
      modifies this`head, this`free_, wpPool
      ensures var t, pool := old(At(src)), old(wpPool[..]);
              var cut := if src.NextOf? then pool[src.i := pool[src.i].(next := pool[t].next)] else pool;
              && wpPool[..] == cut[t := pool[t].(next := old(At(dest)))]
              && head == (if dest.Head? then t else if src.Head? then pool[t].next else old(head))
              && free_ == (if dest.Free? then t else if src.Free? then pool[t].next else old(free_))
    {
      var target := At(src);
      Put(src, wpPool[target].next);
      Put(NextOf(target), At(dest));
      Put(dest, target);
    }

    /** The first free node becomes the first active one, with nothing in it; without a free node the program stops. */
    method NewWp() returns (stopped: bool, w: int)
      requires Valid()
      modifies this`head, this`free_, this`lists, wpPool
      ensures Valid() && stopped == (old(lists).free == [])
      ensures lists == After(old(lists), Request.NewWp)
      ensures stopped ==> wpPool[..] == old(wpPool[..])
      ensures !stopped ==> w == head == old(lists).free[0] && wpPool[w].what == 0
      ensures forall i :: 0 <= i < NR_WP && i != w ==> wpPool[i].what == old(wpPool[i].what)
    {
      stopped, w := free_ == NULL, NULL;
      if stopped {
        return;
      }
      ghost var p, h, f := wpPool[..], head, free_;
      w := free_;
      ElementExchange(Head, Free);
      wpPool[head] := wpPool[head].(what := 0);
      NewLinks(p, h, f, lists, wpPool[..]);
      lists := AfterNew(lists);
    }

    /** The k-th active node, found through front, becomes the first free one. */
    method Release(front: Place, current: int, ghost k: nat)
      requires Valid() && k < |lists.active| && current == lists.active[k]
      requires front == if k == 0 then Head else NextOf(lists.active[k - 1])
      modifies this`head, this`free_, this`lists, wpPool
      ensures Valid() && lists == AfterFree(old(lists), current)
      ensures forall i :: 0 <= i < NR_WP ==> wpPool[i].what == old(wpPool[i].what)
    {
      ghost var l, p, h, f := lists, wpPool[..], head, free_;
      ReleaseFacts(p, h, f, l, k);
      hide Linked, Chain, AfterFree;
      ElementExchange(Free, front);
      FreeLinks(p, h, f, l, k, wpPool[..]);
      lists := AfterFree(l, current);
    }

    /** The first active node with the number leaves its list, its string is released, and it becomes the first free
        one; without such a node nothing changes. */
    method FreeWp(no: int) returns (found: bool)
      requires Valid()
      modifies this`head, this`free_, this`lists, this`released, wpPool
      ensures Valid() && found == (no in old(lists).active) && (found ==> 0 <= no < NR_WP)
      ensures lists == AfterFree(old(lists), no)
      ensures released == old(released) + if found && old(wpPool[no].what) != 0 then [old(wpPool[no].what)] else []
      ensures !found ==> wpPool[..] == old(wpPool[..])
      ensures forall i :: 0 <= i < NR_WP ==> wpPool[i].what == old(wpPool[i].what)
    {
      hide Partition, Distinct, IndexOf;
      var current, front := head, Head;
      ghost var k, l := 0, lists;
      while current != NULL
        invariant k <= |l.active| && no !in l.active[..k]
        invariant current == Nth(l.active, k, NULL)
        invariant front == if k == 0 then Head else NextOf(l.active[k - 1])
        decreases |l.active| - k
      {
        if wpPool[current].no == no {
          if wpPool[current].what != 0 {
            released := released + [wpPool[current].what];
          }
          Release(front, current, k);
          return true;
        }
        assert l.active[..k + 1] == l.active[..k] + [current];
        front, current := NextOf(current), wpPool[current].next;
        k := k + 1;
      }
      assert l.active[..k] == l.active;
      NotThere(l, no);
      return false;
    }
  }

  lemma {:induction false} NotThere(l: Lists, no: int)
    requires no !in l.active
    ensures AfterFree(l, no) == l
  {
  }

  lemma {:induction false} ReleaseFacts(p: seq<WP>, head: int, free_: int, l: Lists, k: nat)
    requires Linked(p, head, free_, l) && k < |l.active|
    ensures l.active[k] < NR_WP && p[l.active[k]].no == l.active[k]
    ensures k == 0 ==> head == l.active[k]
    ensures k > 0 ==> l.active[k - 1] < NR_WP && l.active[k - 1] != l.active[k] && p[l.active[k - 1]].next == l.active[k]
  {
    Apart(l);
    hide Partition;
  }
}

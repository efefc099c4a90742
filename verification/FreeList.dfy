/**
 The allocator's per-class free list: the checker and the validate-then-write repairer of
 src/alloc_invariants.cpp, and the rebuild from block stamps of src/flist_rebuild.cpp. Memory is
 one record per readable block header.
 */
module FreeList {
  const U32: nat := 0x1_0000_0000

  /** Links at +0x18 and +0x20, size and in-use bit at +0x38, class and kind at +0x3c. */
  datatype Node = Node(prev: nat, next: nat, h38: nat, h3c: nat) {
    predicate Free() { h38 % 2 == 0 }
    function Units(): nat { h38 / 2 }
    function Total(): nat { 16 * (h38 / 2) }
    function Class(): nat { h3c / 4 % 32 }
    function Kind(): nat { h3c % 4 }
  }

  /** How a header's two stamp words are made up. */
  lemma StampIs(n: Node)
    ensures n.h38 == 2 * n.Units() + (if n.Free() then 0 else 1) && n.Total() == 16 * n.Units()
    ensures n.h3c % 128 == 4 * n.Class() + n.Kind() && n.Class() < 32 && n.Kind() < 4
  {
  }

  /** The manager's descriptor scalars. */
  datatype Manager = Manager(head: nat, tail: nat, count: nat, sizeSum: nat, classTag: nat)

  type Heap = map<nat, Node>

  /** The primary pool's bounds and the regions donated to the same control. */
  datatype Pool = Pool(lo: nat, hi: nat, donated: seq<(nat, nat)>) {
    predicate Owns(x: nat) {
      || (lo != 0 && lo <= x < hi)
      || exists i :: 0 <= i < |donated| && donated[i].0 <= x < donated[i].0 + donated[i].1
    }

    /** Primary bounds alone; unknown bounds exclude nothing. */
    predicate InPrimary(x: nat) {
      lo == 0 || hi == 0 || lo <= x < hi
    }
  }

  predicate Canon(x: nat) {
    0x10000 <= x < 0x7FFF_FFFF_FFFF
  }

  /** A canonical address in memory the control owns: its primary pool, when the bounds are known, or a
      region donated to it. */
  ghost predicate Placed(pool: Pool, x: nat) {
    && 0x10000 <= x < 0x7FFF_FFFF_FFFF
    && (pool.lo == 0 || pool.hi == 0 || pool.lo <= x < pool.hi
        || exists i :: 0 <= i < |pool.donated| && pool.donated[i].0 <= x < pool.donated[i].0 + pool.donated[i].1)
  }

  lemma PlacedIs(pool: Pool, x: nat)
    ensures Placed(pool, x) <==> Canon(x) && (pool.InPrimary(x) || pool.Owns(x))
  {
  }

  /** A free block at a canonical address of the primary pool. */
  ghost predicate Trusted(heap: Heap, pool: Pool, x: nat) {
    && 0x10000 <= x < 0x7FFF_FFFF_FFFF && (pool.lo == 0 || pool.hi == 0 || pool.lo <= x < pool.hi)
    && x in heap && heap[x].h38 % 2 == 0
  }

  lemma TrustedIs(heap: Heap, pool: Pool, x: nat)
    ensures Trusted(heap, pool, x) <==> Canon(x) && pool.InPrimary(x) && x in heap && heap[x].Free()
    ensures Trusted(heap, pool, x) ==> Placed(pool, x)
  {
  }

  // ---------- chains ----------

  /** Following next from a passes the nodes of w, in order, and arrives at b. */
  ghost predicate Path(heap: Heap, a: nat, w: seq<nat>, b: nat)
    decreases |w|
  {
    if w == [] then a == b else a != 0 && w[0] == a && a in heap && Path(heap, heap[a].next, w[1..], b)
  }

  /** c is the forward chain from x, down to the null link. */
  ghost predicate IsChain(heap: Heap, x: nat, c: seq<nat>) {
    Path(heap, x, c, 0)
  }

  lemma {:induction false} PathJoin(heap: Heap, a: nat, w: seq<nat>, b: nat, v: seq<nat>, c: nat)
    requires Path(heap, a, w, b) && Path(heap, b, v, c)
    ensures Path(heap, a, w + v, c)
    decreases |w|
  {
    if w == [] {
      assert w + v == v;
    } else {
      PathJoin(heap, heap[a].next, w[1..], b, v, c);
      assert (w + v)[1..] == w[1..] + v;
    }
  }

  lemma PathStep(heap: Heap, a: nat, w: seq<nat>, b: nat)
    requires Path(heap, a, w, b) && b != 0 && b in heap
    ensures Path(heap, a, w + [b], heap[b].next)
  {
    assert Path(heap, heap[b].next, [b][1..], heap[b].next);
    PathJoin(heap, a, w, b, [b], heap[b].next);
  }

  /** Any chain from a continues what has been walked. */
  lemma {:induction false} ChainContinues(heap: Heap, a: nat, w: seq<nat>, b: nat, c: seq<nat>)
    requires Path(heap, a, w, b) && IsChain(heap, a, c)
    ensures w <= c && IsChain(heap, b, c[|w|..])
    decreases |w|
  {
    if w == [] {
      assert c[0..] == c;
    } else {
      ChainContinues(heap, heap[a].next, w[1..], b, c[1..]);
      assert c == [a] + c[1..] && w == [a] + w[1..];
      assert c[1..][|w| - 1..] == c[|w|..];
    }
  }

  lemma {:induction false} ChainUnique(heap: Heap, x: nat, c: seq<nat>, c': seq<nat>)
    requires IsChain(heap, x, c) && IsChain(heap, x, c')
    ensures c == c'
    decreases |c|
  {
    if x == 0 {
    } else {
      ChainUnique(heap, heap[x].next, c[1..], c'[1..]);
      assert c == [x] + c[1..] && c' == [x] + c'[1..];
    }
  }

  lemma {:induction false} ChainSuffix(heap: Heap, x: nat, c: seq<nat>, i: nat)
    requires IsChain(heap, x, c) && i < |c|
    ensures c[i] in heap && c[i] != 0 && IsChain(heap, c[i], c[i..])
    ensures heap[c[i]].next == if i + 1 < |c| then c[i + 1] else 0
    decreases i
  {
    if i == 0 {
      assert c[0..] == c;
      assert IsChain(heap, heap[x].next, c[1..]);
    } else {
      ChainSuffix(heap, heap[x].next, c[1..], i - 1);
      assert c[1..][i - 1..] == c[i..];
    }
  }

  /** A chain that ends visits no node twice. */
  lemma ChainDistinct(heap: Heap, x: nat, c: seq<nat>, i: nat, j: nat)
    requires IsChain(heap, x, c) && i < j < |c|
    ensures c[i] != c[j]
  {
    ChainSuffix(heap, x, c, i);
    ChainSuffix(heap, x, c, j);
    if c[i] == c[j] {
      ChainUnique(heap, c[i], c[i..], c[j..]);
    }
  }

  function Prev(c: seq<nat>, i: nat): nat
    requires i < |c|
  {
    if i == 0 then 0 else c[i - 1]
  }

  ghost predicate BackLinked(heap: Heap, c: seq<nat>) {
    forall i :: 0 <= i < |c| ==> c[i] in heap && heap[c[i]].prev == Prev(c, i)
  }

  // ---------- the checker ----------

  datatype Verdict = Pass | Broken | Unreadable

  /** What L_FREE_LIST_DLL asks of a list: its chain ends, stays in memory the control owns, is
      linked back, and has the counted length. */
  ghost predicate WellFormed(heap: Heap, mgr: Manager, pool: Pool, c: seq<nat>) {
    && IsChain(heap, mgr.head, c)
    && (forall i :: 0 <= i < |c| ==> Placed(pool, c[i]))
    && BackLinked(heap, c)
    && |c| == mgr.count
  }

  function Cap(count: nat): nat {
    (count + 2) % U32
  }

  // ---------- the repair, as a function of the old heap ----------

  const REPAIR_LIMIT: nat := 200000

  function RepairCap(count: nat): nat {
    if Cap(count) < 4 then 4 else Cap(count)
  }

  /** A forward chain the repairer trusts: it ends within the cap, in canonical primary-pool memory,
      on free blocks only. */
  ghost predicate Fit(heap: Heap, mgr: Manager, pool: Pool, c: seq<nat>) {
    && c != [] && IsChain(heap, mgr.head, c)
    && (mgr.count + 2) % 0x1_0000_0000 <= 200000
    && (|c| <= 5 || |c| <= (mgr.count + 2) % 0x1_0000_0000 + 1)
    && (forall i :: 0 <= i < |c| ==> Trusted(heap, pool, c[i]))
  }

  /** The first n nodes of c linked back. */
  function Relinked(heap: Heap, c: seq<nat>, n: nat): Heap
    requires n <= |c| && forall i :: 0 <= i < |c| ==> c[i] in heap
  {
    if n == 0 then heap else Relinked(heap, c, n - 1)[c[n - 1] := heap[c[n - 1]].(prev := Prev(c, n - 1))]
  }

  function WrongLinks(heap: Heap, c: seq<nat>, n: nat): nat
    requires n <= |c| && forall i :: 0 <= i < |c| ==> c[i] in heap
  {
    if n == 0 then 0 else WrongLinks(heap, c, n - 1) + if heap[c[n - 1]].prev == Prev(c, n - 1) then 0 else 1
  }

  function UnitSum(heap: Heap, c: seq<nat>, n: nat): nat
    requires n <= |c| && forall i :: 0 <= i < |c| ==> c[i] in heap
  {
    if n == 0 then 0 else UnitSum(heap, c, n - 1) + heap[c[n - 1]].Units()
  }

  /** The descriptor a list of the nodes c should have. */
  function Describe(heap: Heap, c: seq<nat>, classTag: nat): Manager
    requires forall i :: 0 <= i < |c| ==> c[i] in heap
  {
    Manager(if c == [] then 0 else c[0], if c == [] then 0 else c[|c| - 1], |c| % U32,
            UnitSum(heap, c, |c|) % U32, classTag)
  }

  /** How many fields disagree with the forward chain. */
  function Disagreements(heap: Heap, mgr: Manager, c: seq<nat>): nat
    requires forall i :: 0 <= i < |c| ==> c[i] in heap
  {
    var d := Describe(heap, c, mgr.classTag);
    WrongLinks(heap, c, |c|) + (if mgr.tail == d.tail then 0 else 1) + (if mgr.count == d.count then 0 else 1)
    + if mgr.sizeSum == d.sizeSum then 0 else 1
  }

  /** The size words of the first n nodes, added up. */
  function StampSum(heap: Heap, c: seq<nat>, n: nat): nat
    requires n <= |c| && forall i :: 0 <= i < |c| ==> c[i] in heap
  {
    if n == 0 then 0 else StampSum(heap, c, n - 1) + heap[c[n - 1]].h38
  }

  lemma {:induction false} UnitsAreHalf(heap: Heap, c: seq<nat>, n: nat)
    requires n <= |c| && forall i :: 0 <= i < |c| ==> c[i] in heap && heap[c[i]].h38 % 2 == 0
    ensures 2 * UnitSum(heap, c, n) == StampSum(heap, c, n)
    decreases n
  {
    if n == 0 {
    } else {
      UnitsAreHalf(heap, c, n - 1);
    }
  }

  /** The descriptor of a list of free blocks: its ends, its length, and, their in-use bits being clear, half
      the sum of the size words. */
  lemma DescribeIs(heap: Heap, c: seq<nat>, classTag: nat)
    requires forall i :: 0 <= i < |c| ==> c[i] in heap && heap[c[i]].h38 % 2 == 0
    ensures var m := Describe(heap, c, classTag);
      && m.count == |c| % 0x1_0000_0000 && m.sizeSum == StampSum(heap, c, |c|) / 2 % 0x1_0000_0000
      && m.classTag == classTag && if c == [] then m.head == m.tail == 0 else m.head == c[0] && m.tail == c[|c| - 1]
  {
    UnitsAreHalf(heap, c, |c|);
  }

  lemma {:induction false} RelinkedAt(heap: Heap, c: seq<nat>, n: nat, x: nat)
    requires n <= |c| && forall i :: 0 <= i < |c| ==> c[i] in heap
    ensures Relinked(heap, c, n).Keys == heap.Keys
    ensures x !in c[..n] && x in heap ==> Relinked(heap, c, n)[x] == heap[x]
    ensures x in heap ==> Relinked(heap, c, n)[x] == heap[x].(prev := Relinked(heap, c, n)[x].prev)
  {
    if n == 0 {
    } else {
      RelinkedAt(heap, c, n - 1, x);
      assert c[..n] == c[..n - 1] + [c[n - 1]];
    }
  }

  lemma {:induction false} RelinkedPrev(heap: Heap, x: nat, c: seq<nat>, n: nat, i: nat)
    requires i < n <= |c| && IsChain(heap, x, c) && forall i :: 0 <= i < |c| ==> c[i] in heap
    ensures c[i] in Relinked(heap, c, n) && Relinked(heap, c, n)[c[i]].prev == Prev(c, i)
  {
    if i == n - 1 {
    } else {
      RelinkedPrev(heap, x, c, n - 1, i);
      ChainDistinct(heap, x, c, i, n - 1);
    }
  }

  lemma {:induction false} ChainNodes(heap: Heap, x: nat, c: seq<nat>)
    requires IsChain(heap, x, c)
    ensures forall i :: 0 <= i < |c| ==> c[i] in heap && c[i] != 0
  {
    forall i | 0 <= i < |c| ensures c[i] in heap && c[i] != 0 {
      ChainSuffix(heap, x, c, i);
    }
  }

  /** Forward order depends on next alone. */
  lemma {:induction false} PathSame(heap: Heap, heap': Heap, a: nat, w: seq<nat>, b: nat)
    requires Path(heap, a, w, b)
    requires forall x :: x in heap ==> x in heap' && heap'[x].next == heap[x].next
    ensures Path(heap', a, w, b)
    decreases |w|
  {
    if w == [] {
    } else {
      PathSame(heap, heap', heap[a].next, w[1..], b);
    }
  }

  lemma {:induction false} SumSame(heap: Heap, heap': Heap, c: seq<nat>, n: nat)
    requires n <= |c| && forall i :: 0 <= i < |c| ==> c[i] in heap && c[i] in heap' && heap[c[i]].h38 == heap'[c[i]].h38
    ensures UnitSum(heap, c, n) == UnitSum(heap', c, n)
  {
    if n == 0 {
    } else {
      SumSame(heap, heap', c, n - 1);
    }
  }

  lemma {:induction false} NoWrongLinks(heap: Heap, c: seq<nat>, n: nat)
    requires n <= |c| && BackLinked(heap, c)
    ensures WrongLinks(heap, c, n) == 0
  {
    if n == 0 {
    } else {
      NoWrongLinks(heap, c, n - 1);
    }
  }

  /** The nodes whose record changed. */
  ghost function Rewritten(heap: Heap, heap': Heap): set<nat> {
    set x | x in heap && x in heap' && heap'[x] != heap[x]
  }

  /** The wrong links counted are the nodes that relinking changes. */
  lemma {:induction false} WrongLinksIs(heap: Heap, x: nat, c: seq<nat>, n: nat)
    requires n <= |c| && IsChain(heap, x, c) && forall i :: 0 <= i < |c| ==> c[i] in heap
    ensures WrongLinks(heap, c, n) == |Rewritten(heap, Relinked(heap, c, n))|
  {
    if n == 0 {
      assert Rewritten(heap, heap) == {};
    } else {
      WrongLinksIs(heap, x, c, n - 1);
      NotYet(heap, x, c, n - 1);
      RelinkedAt(heap, c, n - 1, x);
      var a, h, h' := c[n - 1], Relinked(heap, c, n - 1), Relinked(heap, c, n);
      if heap[a].prev == Prev(c, n - 1) {
        assert h' == h;
      } else {
        assert Rewritten(heap, h') == Rewritten(heap, h) + {a};
      }
    }
  }

  /** After relinking, the list has the same forward order, its back links are right, and nothing
      but prev fields of its own nodes has changed. */
  lemma RelinkedIsLinked(heap: Heap, x: nat, c: seq<nat>)
    requires IsChain(heap, x, c) && forall i :: 0 <= i < |c| ==> c[i] in heap
    ensures var heap' := Relinked(heap, c, |c|);
      && IsChain(heap', x, c) && BackLinked(heap', c) && heap'.Keys == heap.Keys
      && (forall y :: y in heap && y !in c ==> heap'[y] == heap[y])
      && (forall y :: y in heap ==> heap'[y] == heap[y].(prev := heap'[y].prev))
  {
    var heap' := Relinked(heap, c, |c|);
    assert c[..|c|] == c;
    RelinkedAt(heap, c, |c|, x);
    forall y ensures y in heap && y !in c ==> heap'[y] == heap[y]
    ensures y in heap ==> heap'[y] == heap[y].(prev := heap'[y].prev) {
      RelinkedAt(heap, c, |c|, y);
    }
    forall i | 0 <= i < |c| ensures c[i] in heap' && heap'[c[i]].prev == Prev(c, i) {
      RelinkedPrev(heap, x, c, |c|, i);
    }
    PathSame(heap, heap', x, c, 0);
  }

  /** A linked and described list passes the checker and gives the repairer nothing to do. */
  lemma LinkedIsFixpoint(heap: Heap, c: seq<nat>, classTag: nat, pool: Pool)
    requires |c| < U32 && BackLinked(heap, c) && IsChain(heap, if c == [] then 0 else c[0], c)
    requires forall i :: 0 <= i < |c| ==> Placed(pool, c[i])
    ensures WellFormed(heap, Describe(heap, c, classTag), pool, c)
    ensures Disagreements(heap, Describe(heap, c, classTag), c) == 0
  {
    NoWrongLinks(heap, c, |c|);
  }

  /** Repair meets the checker: the repaired list passes it, in the old forward order, and has no
      field left to fix. */
  lemma RepairMeetsChecker(heap: Heap, mgr: Manager, pool: Pool, c: seq<nat>)
    requires Fit(heap, mgr, pool, c)
    ensures var heap', mgr' := Relinked(heap, c, |c|), Describe(heap, c, mgr.classTag);
      && WellFormed(heap', mgr', pool, c)
      && Disagreements(heap', mgr', c) == 0
  {
    var heap' := Relinked(heap, c, |c|);
    RelinkedIsLinked(heap, mgr.head, c);
    SumSame(heap, heap', c, |c|);
    forall i | 0 <= i < |c| ensures Placed(pool, c[i]) {
      TrustedIs(heap, pool, c[i]);
    }
    LinkedIsFixpoint(heap', c, mgr.classTag, pool);
  }

  lemma CapIs(n: nat)
    requires n + 2 < U32
    ensures Cap(n) == (n + 2) % 0x1_0000_0000 == n + 2
  {
  }

  lemma DescribedEnds(heap: Heap, c: seq<nat>, classTag: nat)
    requires 0 < |c| < U32 && forall i :: 0 <= i < |c| ==> c[i] in heap
    ensures var m := Describe(heap, c, classTag); m.head == c[0] && m.tail == c[|c| - 1] && m.count == |c|
  {
  }

  /** The repaired chain is one the repairer trusts again exactly when it has not outgrown the limit: at
      most 199998 nodes. */
  lemma RepairedIsFit(heap: Heap, mgr: Manager, pool: Pool, c: seq<nat>)
    requires Fit(heap, mgr, pool, c)
    ensures Fit(Relinked(heap, c, |c|), Describe(heap, c, mgr.classTag), pool, c) <==> |c| <= 199998
  {
    var heap' := Relinked(heap, c, |c|);
    var mgr' := Describe(heap, c, mgr.classTag);
    RelinkedIsLinked(heap, mgr.head, c);
    assert c[0] == mgr.head;
    DescribedEnds(heap, c, mgr.classTag);
    CapIs(|c|);
    forall i | 0 <= i < |c| ensures Trusted(heap', pool, c[i]) {
      assert heap'[c[i]] == heap[c[i]].(prev := heap'[c[i]].prev);
    }
  }

  // ---------- a list past the limit ----------

  function Addr(i: nat): nat {
    0x10000 + 0x40 * i
  }

  function LineNode(n: nat, i: nat): Node {
    Node(0, if i + 1 < n then Addr(i + 1) else 0, 0, 0)
  }

  function Index(a: nat): (i: nat)
    requires a >= 0x10000
    ensures Addr(i) <= a < Addr(i + 1)
  {
    (a - 0x10000) / 0x40
  }

  predicate IsAddr(a: nat) {
    a >= 0x10000 && a == Addr(Index(a))
  }

  function Line(n: nat): Heap {
    map a: nat | a < Addr(n) && IsAddr(a) :: LineNode(n, Index(a))
  }

  function Addrs(n: nat): (c: seq<nat>)
    ensures |c| == n && forall i :: 0 <= i < n ==> c[i] == Addr(i)
  {
    seq(n, i requires 0 <= i < n => Addr(i))
  }

  lemma LineAt(n: nat, i: nat)
    requires i < n
    ensures Addr(i) in Line(n) && Line(n)[Addr(i)] == LineNode(n, i)
  {
    assert Index(Addr(i)) == i;
  }

  lemma {:induction false} LineIsChain(n: nat, i: nat)
    requires i <= n
    ensures Path(Line(n), if i < n then Addr(i) else 0, Addrs(n)[i..], 0)
    decreases n - i
  {
    if i == n {
    } else {
      LineAt(n, i);
      LineIsChain(n, i + 1);
      assert Addrs(n)[i..][1..] == Addrs(n)[i + 1..];
    }
  }

  lemma LineNodes(n: nat)
    requires n <= REPAIR_LIMIT + 1
    ensures forall i :: 0 <= i < n ==> Trusted(Line(n), Pool(0, 0, []), Addrs(n)[i])
  {
    forall i: nat | i < n ensures Trusted(Line(n), Pool(0, 0, []), Addr(i)) {
      LineAt(n, i);
    }
  }

  function LineManager(count: nat): Manager {
    Manager(Addr(0), 0, count, 0, 1)
  }

  lemma LineIsFit(n: nat, count: nat)
    requires 0 < n <= count + 3 && n <= REPAIR_LIMIT + 1 && 2 <= count && count + 2 <= REPAIR_LIMIT
    ensures Fit(Line(n), LineManager(count), Pool(0, 0, []), Addrs(n))
  {
    LineIsChain(n, 0);
    LineNodes(n);
    assert Addrs(n)[0..] == Addrs(n);
    FitFrom(Line(n), LineManager(count), Pool(0, 0, []), Addrs(n));
  }

  lemma FitFrom(heap: Heap, mgr: Manager, pool: Pool, c: seq<nat>)
    requires c != [] && IsChain(heap, mgr.head, c) && |c| <= mgr.count + 3 && mgr.count + 2 <= REPAIR_LIMIT
    requires forall i :: 0 <= i < |c| ==> Trusted(heap, pool, c[i])
    ensures Fit(heap, mgr, pool, c)
  {
    CapIs(mgr.count);
  }

  /** Lists the repairer accepts once and declines the second time: 199999 to 200001 nodes whose stored
      count is 199998, so that the first walk is within its cap. */
  lemma SecondRepairDeclines(n: nat) returns (heap: Heap, mgr: Manager, c: seq<nat>)
    requires 199999 <= n <= 200001
    ensures |c| == n && mgr.count == 199998 && Fit(heap, mgr, Pool(0, 0, []), c)
    ensures forall c' :: !Fit(Relinked(heap, c, |c|), Describe(heap, c, mgr.classTag), Pool(0, 0, []), c')
  {
    var count := REPAIR_LIMIT - 2;
    heap, mgr, c := Line(n), LineManager(count), Addrs(n);
    LineIsFit(n, count);
    AfterRepair(heap, mgr, Pool(0, 0, []), c, Relinked(heap, c, |c|), Describe(heap, c, mgr.classTag));
  }

  // ---------- the code ----------

  class FreeLists {
    var nodes: Heap
    var mgr: Manager

    constructor (nodes: Heap, mgr: Manager)
      ensures this.nodes == nodes && this.mgr == mgr
    {
      this.nodes, this.mgr := nodes, mgr;
    }

    /** Reads only. Passes exactly the well-formed lists within the overrun cap. */
    method CheckList(pool: Pool) returns (v: Verdict)
      ensures v.Pass? <==> exists c :: WellFormed(nodes, mgr, pool, c) && |c| <= (mgr.count + 2) % 0x1_0000_0000 + 1
    {
      if mgr.head == 0 {
        assert IsChain(nodes, mgr.head, []);
        assert mgr.count == 0 ==> WellFormed(nodes, mgr, pool, []);
        return if mgr.count != 0 then Broken else Pass;
      }
      if mgr.head !in nodes {
        return Unreadable;
      }
      HeadHasNoPrev(pool);
      if nodes[mgr.head].prev != 0 {
        return Broken;
      }
      var node, prev, walked, cap := mgr.head, 0, 0, Cap(mgr.count);
      ghost var w := [];
      while node != 0
        invariant walked == |w| <= cap + 1 && Path(nodes, mgr.head, w, node)
        invariant prev == if w == [] then 0 else w[|w| - 1]
        invariant BackLinked(nodes, w)
        invariant forall i :: 0 <= i < |w| ==> Placed(pool, w[i])
        decreases cap + 1 - walked
      {
        Continues(pool, w, node);
        if walked > cap {
          return Broken;
        }
        PlacedIs(pool, node);
        if !Canon(node) || (!pool.InPrimary(node) && !pool.Owns(node)) {
          return Broken;
        }
        if node !in nodes {
          return Unreadable;
        }
        if nodes[node].prev != prev {
          return Broken;
        }
        PathStep(nodes, mgr.head, w, node);
        w := w + [node];
        prev, node, walked := node, nodes[node].next, walked + 1;
      }
      forall c | WellFormed(nodes, mgr, pool, c) ensures c == w {
        ChainUnique(nodes, mgr.head, c, w);
      }
      return if walked != mgr.count then Broken else Pass;
    }

    lemma HeadHasNoPrev(pool: Pool)
      requires mgr.head != 0
      ensures forall c :: WellFormed(nodes, mgr, pool, c) ==> mgr.head in nodes && nodes[mgr.head].prev == 0
    {
      forall c | WellFormed(nodes, mgr, pool, c) ensures mgr.head in nodes && nodes[mgr.head].prev == 0 {
        assert c != [] && c[0] == mgr.head;
        assert nodes[c[0]].prev == Prev(c, 0);
      }
    }

    /** Any well-formed chain goes through what has been walked and the node after it. */
    lemma Continues(pool: Pool, w: seq<nat>, node: nat)
      requires Path(nodes, mgr.head, w, node) && node != 0
      ensures forall c :: WellFormed(nodes, mgr, pool, c) ==> w < c && c[|w|] == node
    {
      forall c | WellFormed(nodes, mgr, pool, c) ensures w < c && c[|w|] == node {
        ChainContinues(nodes, mgr.head, w, node, c);
      }
    }

    /** Pass 1: walks the forward chain without writing. */
    method ValidateForward(pool: Pool) returns (ok: bool, ghost c: seq<nat>)
      requires mgr.head != 0 && RepairCap(mgr.count) <= REPAIR_LIMIT
      ensures ok <==> exists c' :: Fit(nodes, mgr, pool, c')
      ensures ok ==> Fit(nodes, mgr, pool, c)
    {
      var node, walked, cap := mgr.head, 0, RepairCap(mgr.count);
      c := [];
      while node != 0
        invariant walked == |c| <= cap + 1 && Path(nodes, mgr.head, c, node)
        invariant forall i :: 0 <= i < |c| ==> Trusted(nodes, pool, c[i])
        decreases cap + 1 - walked
      {
        FitContinues(pool, c, node);
        TrustedIs(nodes, pool, node);
        if walked > cap || !Canon(node) || !pool.InPrimary(node) || node !in nodes || !nodes[node].Free() {
          return false, c;
        }
        PathStep(nodes, mgr.head, c, node);
        c := c + [node];
        node, walked := nodes[node].next, walked + 1;
      }
      assert Fit(nodes, mgr, pool, c);
      return true, c;
    }

    lemma FitContinues(pool: Pool, w: seq<nat>, node: nat)
      requires Path(nodes, mgr.head, w, node) && node != 0
      ensures forall c :: Fit(nodes, mgr, pool, c) ==> w < c && c[|w|] == node
    {
      forall c | Fit(nodes, mgr, pool, c) ensures w < c && c[|w|] == node {
        ChainContinues(nodes, mgr.head, w, node, c);
      }
    }

    /** Returns the number of fields fixed, or -1 with nothing written. */
    method RepairList(pool: Pool) returns (r: int, ghost c: seq<nat>)
      modifies this
      ensures r >= 0 <==>
        (old(mgr).head == 0 && old(mgr).count == 0) || exists c' :: Fit(old(nodes), old(mgr), pool, c')
      ensures r < 0 ==> r == -1
      ensures r == -1 || old(mgr).head == 0 ==> nodes == old(nodes) && mgr == old(mgr)
      ensures r >= 0 && old(mgr).head == 0 ==> r == 0
      ensures r >= 0 && old(mgr).head != 0 ==>
        && Fit(old(nodes), old(mgr), pool, c)
        && nodes == Relinked(old(nodes), c, |c|)
        && mgr == Describe(old(nodes), c, old(mgr).classTag)
        && mgr.head == old(mgr).head == c[0] && mgr.tail == c[|c| - 1] && mgr.count == |c|
        && r == Disagreements(old(nodes), old(mgr), c)
        && r == |Rewritten(old(nodes), nodes)| + (if mgr.tail == old(mgr).tail then 0 else 1)
             + (if mgr.count == old(mgr).count then 0 else 1) + (if mgr.sizeSum == old(mgr).sizeSum then 0 else 1)
    {
      c := [];
      if mgr.head == 0 {
        return if mgr.count == 0 then 0 else -1, c;
      }
      var cap := RepairCap(mgr.count);
      if cap > REPAIR_LIMIT {
        return -1, c;
      }
      var ok;
      ok, c := ValidateForward(pool);
      if !ok {
        return -1, c;
      }
      r := WriteBack(c);
      WrongLinksIs(old(nodes), old(mgr).head, c, |c|);
    }

    /** Pass 2: rebuilds the back links and reconciles the descriptor, counting what it changes. */
    method WriteBack(ghost c: seq<nat>) returns (r: int)
      requires c != [] && |c| < U32 && IsChain(nodes, mgr.head, c)
      requires forall i :: 0 <= i < |c| ==> c[i] in nodes
      modifies this
      ensures nodes == Relinked(old(nodes), c, |c|)
      ensures mgr == Describe(old(nodes), c, old(mgr).classTag)
      ensures r == Disagreements(old(nodes), old(mgr), c)
    {
      ChainNodes(nodes, mgr.head, c);
      var fixes, node, prev, last, walked, ssum := 0, mgr.head, 0, mgr.head, 0, 0;
      while node != 0
        invariant mgr == old(mgr) && walked <= |c| && node == (if walked < |c| then c[walked] else 0)
        invariant prev == (if walked == 0 then 0 else c[walked - 1])
        invariant last == (if walked == 0 then c[0] else c[walked - 1])
        invariant nodes == Relinked(old(nodes), c, walked)
        invariant fixes == WrongLinks(old(nodes), c, walked) && ssum == UnitSum(old(nodes), c, walked)
        decreases |c| - walked
      {
        ChainSuffix(old(nodes), mgr.head, c, walked);
        NotYet(old(nodes), mgr.head, c, walked);
        if nodes[node].prev != prev {
          nodes := nodes[node := nodes[node].(prev := prev)];
          fixes := fixes + 1;
        }
        ssum := ssum + nodes[node].Units();
        last, prev, node, walked := node, node, nodes[node].next, walked + 1;
      }
      if mgr.tail != last {
        mgr := mgr.(tail := last);
        fixes := fixes + 1;
      }
      if mgr.count != walked {
        mgr := mgr.(count := walked);
        fixes := fixes + 1;
      }
      if mgr.sizeSum != ssum % U32 {
        mgr := mgr.(sizeSum := ssum % U32);
        fixes := fixes + 1;
      }
      r := fixes;
    }

    /** What the check and a second repair say after a repair. The second one can decline: above
        199998 nodes the count it has just corrected is past its own limit. */
    method RepairCheckRepair(pool: Pool) returns (r: int, v: Verdict, r': int)
      modifies this
      ensures r >= 0 ==> v.Pass?
      ensures r >= 0 ==> r' == if mgr.head != 0 && mgr.count > 199998 then -1 else 0
      ensures r == -1 && old(mgr).head != 0 ==> r' == -1
    {
      ghost var c, c';
      r, c := RepairList(pool);
      if r >= 0 && mgr.head != 0 {
        AfterRepair(old(nodes), old(mgr), pool, c, nodes, mgr);
      } else if r >= 0 {
        assert WellFormed(nodes, mgr, pool, []) by {
          assert IsChain(nodes, mgr.head, []);
        }
      }
      v := CheckList(pool);
      r', c' := RepairList(pool);
    }
  }

  /** After a repair: the checker's condition, and what a second repair will find. */
  lemma AfterRepair(heap: Heap, mgr: Manager, pool: Pool, c: seq<nat>, heap': Heap, mgr': Manager)
    requires Fit(heap, mgr, pool, c) && heap' == Relinked(heap, c, |c|) && mgr' == Describe(heap, c, mgr.classTag)
    ensures WellFormed(heap', mgr', pool, c) && |c| <= (mgr'.count + 2) % 0x1_0000_0000 + 1
    ensures |c| <= 199998 ==> Fit(heap', mgr', pool, c)
    ensures forall c' :: Fit(heap', mgr', pool, c') ==>
      c' == c && |c| <= 199998 && Disagreements(heap', mgr', c') == 0
    ensures mgr'.count == |c|
  {
    RepairMeetsChecker(heap, mgr, pool, c);
    RepairedIsFit(heap, mgr, pool, c);
    forall c' | Fit(heap', mgr', pool, c') ensures c' == c {
      ChainUnique(heap', mgr'.head, c, c');
    }
  }

  /** Before its turn comes, a node of the chain is as it was. */
  lemma NotYet(heap: Heap, x: nat, c: seq<nat>, n: nat)
    requires n < |c| && IsChain(heap, x, c) && forall i :: 0 <= i < |c| ==> c[i] in heap
    ensures c[n] in Relinked(heap, c, n) && Relinked(heap, c, n)[c[n]] == heap[c[n]]
    ensures heap[c[n]].prev == Prev(c, n) ==> Relinked(heap, c, n + 1) == Relinked(heap, c, n)
  {
    forall i | 0 <= i < n ensures c[i] != c[n] {
      ChainDistinct(heap, x, c, i, n);
    }
    RelinkedAt(heap, c, n, c[n]);
  }
}

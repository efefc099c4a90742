/**
 Re-deriving a broken free chain from the block stamps (src/flist_rebuild.cpp): a sweep by block
 size over the pool, descending into this class's slabs, and an all-or-nothing commit.
 */
module FreeListRebuild {
  import opened Pages
  import opened FreeList

  const REBUILD_MAX: nat := 65536
  const MAX_RANGE: nat := 0x4000_0000
  const SLAB_HEADER: nat := 0x50

  // ---------- the sweep ----------

  /** A readable header whose size leads to a block boundary inside [b, hi]. */
  predicate Strides(heap: Heap, b: nat, hi: nat) {
    b in heap && heap[b].Total() > 0 && b + heap[b].Total() <= hi
  }

  function Prepend(a: seq<nat>, o: Option<seq<nat>>): Option<seq<nat>> {
    if o.Some? then Some(a + o.value) else None
  }

  lemma PrependNil(o: Option<seq<nat>>)
    ensures Prepend([], o) == o
  {
    assert o.Some? ==> [] + o.value == o.value;
  }

  lemma PrependTwice(a: seq<nat>, b: seq<nat>, o: Option<seq<nat>>)
    ensures Prepend(a, Prepend(b, o)) == Prepend(a + b, o)
  {
    assert o.Some? ==> a + (b + o.value) == a + b + o.value;
  }

  predicate Collected(heap: Heap, b: nat, k: nat) {
    b in heap && heap[b].Free() && heap[b].Kind() != 2 && heap[b].Class() == k
  }

  /** The free class-k sub-blocks of a slab from b on; None when the stamps make no sense. */
  function SubSweep(heap: Heap, b: nat, hi: nat, k: nat): Option<seq<nat>>
    decreases hi - b
  {
    if b >= hi then Some([])
    else if !Strides(heap, b, hi) then None
    else Prepend(if Collected(heap, b, k) then [b] else [], SubSweep(heap, b + heap[b].Total(), hi, k))
  }

  /** What one top-level block contributes. */
  function Part(heap: Heap, b: nat, k: nat): Option<seq<nat>>
    requires b in heap
  {
    if heap[b].Kind() != 2 then Some(if Collected(heap, b, k) then [b] else [])
    else if heap[b].Class() == k then SubSweep(heap, b + SLAB_HEADER, b + heap[b].Total(), k)
    else Some([])
  }

  function Sweep(heap: Heap, b: nat, hi: nat, k: nat): Option<seq<nat>>
    decreases hi - b
  {
    if b >= hi then Some([])
    else if !Strides(heap, b, hi) then None
    else
      match Part(heap, b, k)
      case None => None
      case Some(part) => Prepend(part, Sweep(heap, b + heap[b].Total(), hi, k))
  }

  predicate RangeOk(lo: nat, hi: nat) {
    lo >= 0x10000 && lo % 8 == 0 && lo < hi && hi - lo <= MAX_RANGE
  }

  function SweepRange(heap: Heap, lo: nat, hi: nat, k: nat): Option<seq<nat>> {
    if RangeOk(lo, hi) then Sweep(heap, lo, hi, k) else None
  }

  /** The first n donated regions after the primary pool. */
  function Gather(heap: Heap, pool: Pool, k: nat, n: nat): Option<seq<nat>>
    requires n <= |pool.donated|
  {
    if n == 0 then SweepRange(heap, pool.lo, pool.hi, k)
    else
      var (base, size) := pool.donated[n - 1];
      match Gather(heap, pool, k, n - 1)
      case None => None
      case Some(g) => if base == 0 || size == 0 then Some(g) else Prepend(g, SweepRange(heap, base, base + size, k))
  }

  // ---------- what the sweep finds ----------

  /** s tiles [lo, hi): block after block, each of its own stamped size, nothing left over. */
  ghost predicate Tiles(heap: Heap, lo: nat, hi: nat, s: seq<nat>)
    decreases |s|
  {
    if s == [] then lo >= hi
    else lo < hi && s[0] == lo && Strides(heap, lo, hi) && Tiles(heap, lo + heap[lo].Total(), hi, s[1..])
  }

  /** x is a free block of class k in the slab whose blocks tile [lo, hi). */
  ghost predicate InSlab(heap: Heap, lo: nat, hi: nat, k: nat, x: nat) {
    exists s :: Tiles(heap, lo, hi, s) && x in s && Collected(heap, x, k)
  }

  /** x is a free block of class k of the region [lo, hi): a tile of it, or a tile of one of its
      class-k slabs. */
  ghost predicate FreeBlock(heap: Heap, lo: nat, hi: nat, k: nat, x: nat) {
    exists s, b :: Tiles(heap, lo, hi, s) && b in s && TileGives(heap, b, k, x)
  }

  lemma {:induction false} TilesIn(heap: Heap, lo: nat, hi: nat, s: seq<nat>, x: nat)
    requires Tiles(heap, lo, hi, s) && x in s
    ensures lo <= x && Strides(heap, x, hi)
    ensures x == lo || lo + heap[lo].Total() <= x
    decreases |s|
  {
    if x == s[0] {
    } else {
      assert x in s[1..];
      TilesIn(heap, lo + heap[lo].Total(), hi, s[1..], x);
    }
  }

  lemma {:induction false} TilesUnique(heap: Heap, lo: nat, hi: nat, s: seq<nat>, s': seq<nat>)
    requires Tiles(heap, lo, hi, s) && Tiles(heap, lo, hi, s')
    ensures s == s'
    decreases |s|
  {
    if s == [] {
    } else {
      TilesUnique(heap, lo + heap[lo].Total(), hi, s[1..], s'[1..]);
      assert s == [lo] + s[1..] && s' == [lo] + s'[1..];
    }
  }

  /** The sub-sweep succeeds exactly on a tiled slab and lists its free blocks, ascending. */
  lemma {:induction false} SubSweepIs(heap: Heap, b: nat, hi: nat, k: nat) returns (s: seq<nat>)
    ensures SubSweep(heap, b, hi, k).None? ==> forall t :: !Tiles(heap, b, hi, t)
    ensures SubSweep(heap, b, hi, k).Some? ==>
      && Tiles(heap, b, hi, s)
      && (forall x :: x in SubSweep(heap, b, hi, k).value <==> x in s && Collected(heap, x, k))
      && Ascends(SubSweep(heap, b, hi, k).value, b, hi)
    decreases hi - b
  {
    s := [];
    if b >= hi || !Strides(heap, b, hi) {
    } else {
      var next := b + heap[b].Total();
      var rest := SubSweepIs(heap, next, hi, k);
      s := [b] + rest;
      assert s[1..] == rest;
      if SubSweep(heap, b, hi, k).None? {
        forall t ensures !Tiles(heap, b, hi, t) {
          assert t != [] ==> !Tiles(heap, next, hi, t[1..]);
        }
      } else {
        forall x | x in rest ensures x in heap {
          TilesIn(heap, next, hi, rest, x);
        }
      }
    }
  }

  /** Strictly ascending, within [lo, hi). */
  ghost predicate Ascends(c: seq<nat>, lo: nat, hi: nat) {
    && (forall i :: 0 <= i < |c| ==> lo <= c[i] < hi)
    && (forall i, j :: 0 <= i < j < |c| ==> c[i] < c[j])
  }

  lemma AscendJoin(a: seq<nat>, b: seq<nat>, lo: nat, mid: nat, hi: nat)
    requires Ascends(a, lo, mid) && Ascends(b, mid, hi) && lo <= mid <= hi
    ensures Ascends(a + b, lo, hi)
  {
  }

  lemma PartIs(heap: Heap, b: nat, hi: nat, k: nat, x: nat)
    requires Strides(heap, b, hi) && Part(heap, b, k).Some?
    ensures x in Part(heap, b, k).value <==> TileGives(heap, b, k, x)
    ensures Ascends(Part(heap, b, k).value, b, b + heap[b].Total())
  {
    if heap[b].Kind() == 2 && heap[b].Class() == k {
      var from, to := b + SLAB_HEADER, b + heap[b].Total();
      var u := SubSweepIs(heap, from, to, k);
      forall u' | Tiles(heap, from, to, u') ensures u' == u {
        TilesUnique(heap, from, to, u, u');
      }
    }
  }

  /** What the tile b of a region contributes: itself, or the free blocks of a class-k slab. */
  ghost predicate TileGives(heap: Heap, b: nat, k: nat, x: nat) {
    || (b == x && Collected(heap, x, k))
    || (b in heap && heap[b].Kind() == 2 && heap[b].Class() == k
        && InSlab(heap, b + SLAB_HEADER, b + heap[b].Total(), k, x))
  }

  /** A sweep that succeeds has tiled the region, and lists exactly its free class-k blocks, by
      ascending address. */
  lemma {:induction false} SweepIs(heap: Heap, b: nat, hi: nat, k: nat) returns (s: seq<nat>)
    requires Sweep(heap, b, hi, k).Some?
    ensures Tiles(heap, b, hi, s)
    ensures forall x :: x in Sweep(heap, b, hi, k).value <==> exists t :: t in s && TileGives(heap, t, k, x)
    ensures Ascends(Sweep(heap, b, hi, k).value, b, hi)
    decreases hi - b
  {
    s := [];
    if b >= hi {
    } else {
      var next := b + heap[b].Total();
      var rest := SweepIs(heap, next, hi, k);
      s := [b] + rest;
      assert s[1..] == rest;
      var part, more := Part(heap, b, k).value, Sweep(heap, next, hi, k).value;
      forall x ensures x in part + more <==> exists t :: t in s && TileGives(heap, t, k, x) {
        PartIs(heap, b, hi, k, x);
        assert b in s;
        assert forall t :: t in s <==> t == b || t in rest;
      }
      PartIs(heap, b, hi, k, b);
      AscendJoin(part, more, b, next, hi);
    }
  }

  lemma SweepFindsFreeBlocks(heap: Heap, lo: nat, hi: nat, k: nat, x: nat)
    requires Sweep(heap, lo, hi, k).Some?
    ensures x in Sweep(heap, lo, hi, k).value <==> FreeBlock(heap, lo, hi, k, x)
  {
    var s := SweepIs(heap, lo, hi, k);
    if FreeBlock(heap, lo, hi, k, x) {
      var s', b :| Tiles(heap, lo, hi, s') && b in s' && TileGives(heap, b, k, x);
      TilesUnique(heap, lo, hi, s, s');
    }
  }

  ghost predicate SlabTiled(heap: Heap, b: nat, k: nat) {
    b in heap && heap[b].Kind() == 2 && heap[b].Class() == k ==>
      HasTiling(heap, b + SLAB_HEADER, b + heap[b].Total())
  }

  ghost predicate HasTiling(heap: Heap, lo: nat, hi: nat) {
    exists u :: Tiles(heap, lo, hi, u)
  }

  ghost predicate SlabsTiled(heap: Heap, s: seq<nat>, k: nat) {
    forall b :: b in s ==> SlabTiled(heap, b, k)
  }

  lemma PartSucceedsIff(heap: Heap, b: nat, hi: nat, k: nat)
    requires Strides(heap, b, hi)
    ensures Part(heap, b, k).Some? <==> SlabTiled(heap, b, k)
  {
    if heap[b].Kind() == 2 && heap[b].Class() == k {
      var u := SubSweepIs(heap, b + SLAB_HEADER, b + heap[b].Total(), k);
    }
  }

  lemma {:induction false} SweepSucceeds(heap: Heap, lo: nat, hi: nat, k: nat, s: seq<nat>)
    requires Tiles(heap, lo, hi, s) && SlabsTiled(heap, s, k)
    ensures Sweep(heap, lo, hi, k).Some?
    decreases |s|
  {
    if s == [] {
    } else {
      assert s[0] in s && forall b :: b in s[1..] ==> b in s;
      PartSucceedsIff(heap, lo, hi, k);
      SweepSucceeds(heap, lo + heap[lo].Total(), hi, k, s[1..]);
    }
  }

  lemma {:induction false} SweepTiles(heap: Heap, lo: nat, hi: nat, k: nat) returns (s: seq<nat>)
    requires Sweep(heap, lo, hi, k).Some?
    ensures Tiles(heap, lo, hi, s) && SlabsTiled(heap, s, k)
    decreases hi - lo
  {
    s := [];
    if lo >= hi {
    } else {
      PartSucceedsIff(heap, lo, hi, k);
      var rest := SweepTiles(heap, lo + heap[lo].Total(), hi, k);
      s := [lo] + rest;
      assert s[1..] == rest;
    }
  }

  /** The sweep declines exactly when the stamps are no tiling: of the region, or of one of its
      class-k slabs. */
  lemma SweepSucceedsIff(heap: Heap, lo: nat, hi: nat, k: nat)
    ensures Sweep(heap, lo, hi, k).Some? <==> exists s :: Tiles(heap, lo, hi, s) && SlabsTiled(heap, s, k)
  {
    if Sweep(heap, lo, hi, k).Some? {
      var s := SweepTiles(heap, lo, hi, k);
    }
    if s :| Tiles(heap, lo, hi, s) && SlabsTiled(heap, s, k) {
      SweepSucceeds(heap, lo, hi, k, s);
    }
  }

  // ---------- several regions ----------

  /** Region n of the pool: the primary one, then the donated ones. */
  function Region(pool: Pool, n: nat): (nat, nat)
    requires n <= |pool.donated|
  {
    if n == 0 then (pool.lo, pool.hi) else (pool.donated[n - 1].0, pool.donated[n - 1].0 + pool.donated[n - 1].1)
  }

  ghost predicate DisjointRegions(pool: Pool) {
    forall i, j :: 0 <= i < j <= |pool.donated| ==>
      Region(pool, i).1 <= Region(pool, j).0 || Region(pool, j).1 <= Region(pool, i).0
  }

  ghost predicate NoRepeat(c: seq<nat>) {
    forall i, j :: 0 <= i < j < |c| ==> c[i] != c[j]
  }

  /** x lies in one of the first n + 1 regions. */
  ghost predicate InRegions(pool: Pool, n: nat, x: nat)
    requires n <= |pool.donated|
  {
    exists r :: 0 <= r <= n && Region(pool, r).0 <= x < Region(pool, r).1
  }

  lemma NoRepeatJoin(a: seq<nat>, b: seq<nat>)
    requires NoRepeat(a) && NoRepeat(b) && forall x :: x in a ==> x !in b
    ensures NoRepeat(a + b)
  {
    assert forall i :: 0 <= i < |a| ==> (a + b)[i] == a[i] && a[i] in a;
    assert forall j :: |a| <= j < |a + b| ==> (a + b)[j] == b[j - |a|] && b[j - |a|] in b;
  }

  lemma RegionIs(heap: Heap, lo: nat, hi: nat, k: nat)
    requires SweepRange(heap, lo, hi, k).Some?
    ensures NoRepeat(SweepRange(heap, lo, hi, k).value)
    ensures forall x :: x in SweepRange(heap, lo, hi, k).value ==> lo <= x < hi && x != 0 && Collected(heap, x, k)
  {
    var s := SweepIs(heap, lo, hi, k);
  }

  /** Over disjoint regions no block is gathered twice. */
  lemma {:induction false} GatherIs(heap: Heap, pool: Pool, k: nat, n: nat)
    requires n <= |pool.donated| && Gather(heap, pool, k, n).Some? && DisjointRegions(pool)
    ensures NoRepeat(Gather(heap, pool, k, n).value)
    ensures forall x :: x in Gather(heap, pool, k, n).value ==> InRegions(pool, n, x) && Collected(heap, x, k) && x != 0
  {
    var (lo, hi) := Region(pool, n);
    if n == 0 {
      RegionIs(heap, lo, hi, k);
      assert forall x :: lo <= x < hi ==> InRegions(pool, 0, x);
    } else {
      GatherIs(heap, pool, k, n - 1);
      assert forall x :: InRegions(pool, n - 1, x) ==> InRegions(pool, n, x);
      if lo != 0 && hi != lo {
        RegionIs(heap, lo, hi, k);
        assert forall x :: lo <= x < hi ==> InRegions(pool, n, x);
        var before, more := Gather(heap, pool, k, n - 1).value, SweepRange(heap, lo, hi, k).value;
        forall x | x in before ensures x !in more {
          var r :| 0 <= r <= n - 1 && Region(pool, r).0 <= x < Region(pool, r).1;
          assert Region(pool, r).1 <= lo || hi <= Region(pool, r).0;
        }
        NoRepeatJoin(before, more);
      }
    }
  }

  /** Region n is swept at all. */
  predicate Swept(pool: Pool, n: nat)
    requires n <= |pool.donated|
  {
    n == 0 || (pool.donated[n - 1].0 != 0 && pool.donated[n - 1].1 != 0)
  }

  /** What is gathered is what the stamps say: the free class-k blocks of the swept regions. */
  lemma {:induction false} GatherFindsFreeBlocks(heap: Heap, pool: Pool, k: nat, n: nat, x: nat)
    requires n <= |pool.donated| && Gather(heap, pool, k, n).Some?
    ensures x in Gather(heap, pool, k, n).value <==>
      exists r :: 0 <= r <= n && Swept(pool, r) && FreeBlock(heap, Region(pool, r).0, Region(pool, r).1, k, x)
  {
    var (lo, hi) := Region(pool, n);
    if n == 0 {
    } else {
      GatherFindsFreeBlocks(heap, pool, k, n - 1, x);
    }
    if Swept(pool, n) {
      SweepFindsFreeBlocks(heap, lo, hi, k, x);
    }
  }

  // ---------- the same in terms of the stamps ----------

  /** s are the blocks of [lo, hi): each is readable and begins where the one before it ends, by its own
      size, and the last one ends at hi. */
  ghost predicate Blocks(heap: Heap, lo: nat, hi: nat, s: seq<nat>) {
    && (if s == [] then lo >= hi else s[0] == lo)
    && forall i :: 0 <= i < |s| ==>
         s[i] in heap && heap[s[i]].Total() > 0 && s[i] + heap[s[i]].Total() == if i + 1 < |s| then s[i + 1] else hi
  }

  ghost predicate HasBlocks(heap: Heap, lo: nat, hi: nat) {
    exists s :: Blocks(heap, lo, hi, s)
  }

  lemma {:induction false} TilesToBlocks(heap: Heap, lo: nat, hi: nat, s: seq<nat>)
    requires Tiles(heap, lo, hi, s)
    ensures Blocks(heap, lo, hi, s)
    decreases |s|
  {
    if s == [] {
    } else {
      var next, rest := lo + heap[lo].Total(), s[1..];
      TilesToBlocks(heap, next, hi, rest);
      assert if rest == [] then next == hi else rest[0] == next;
      forall i | 0 <= i < |s|
        ensures s[i] in heap && heap[s[i]].Total() > 0
        ensures s[i] + heap[s[i]].Total() == if i + 1 < |s| then s[i + 1] else hi
      {
        if i > 0 {
          assert s[i] == rest[i - 1] && (i + 1 < |s| ==> s[i + 1] == rest[i]);
          assert rest[i - 1] + heap[rest[i - 1]].Total() == if i < |rest| then rest[i] else hi;
        }
      }
    }
  }

  lemma {:induction false} BlocksToTiles(heap: Heap, lo: nat, hi: nat, s: seq<nat>)
    requires Blocks(heap, lo, hi, s)
    ensures Tiles(heap, lo, hi, s)
    decreases |s|
  {
    if s == [] {
    } else {
      var next, rest := lo + heap[lo].Total(), s[1..];
      BlocksFit(heap, lo, hi, s, 0);
      assert s[0] + heap[s[0]].Total() == if 1 < |s| then s[1] else hi;
      forall i | 0 <= i < |rest|
        ensures rest[i] in heap && heap[rest[i]].Total() > 0
        ensures rest[i] + heap[rest[i]].Total() == if i + 1 < |rest| then rest[i + 1] else hi
      {
        var m := i + 1;
        assert s[m] + heap[s[m]].Total() == if m + 1 < |s| then s[m + 1] else hi;
        assert rest[i] == s[m] && (m < |rest| ==> rest[m] == s[m + 1]);
      }
      BlocksToTiles(heap, next, hi, rest);
    }
  }

  lemma TilesAreBlocks(heap: Heap, lo: nat, hi: nat, s: seq<nat>)
    ensures Tiles(heap, lo, hi, s) <==> Blocks(heap, lo, hi, s)
  {
    if Tiles(heap, lo, hi, s) {
      TilesToBlocks(heap, lo, hi, s);
    }
    if Blocks(heap, lo, hi, s) {
      BlocksToTiles(heap, lo, hi, s);
    }
  }

  lemma {:induction false} BlocksFit(heap: Heap, lo: nat, hi: nat, s: seq<nat>, i: nat)
    requires Blocks(heap, lo, hi, s) && i < |s|
    ensures s[i] + heap[s[i]].Total() <= hi
    decreases |s| - i
  {
    if i + 1 == |s| {
    } else {
      BlocksFit(heap, lo, hi, s, i + 1);
      assert s[i] + heap[s[i]].Total() == s[i + 1];
    }
  }

  /** x is a block of [lo, hi), or of a class-k slab in it. */
  ghost predicate Within(heap: Heap, lo: nat, hi: nat, k: nat, x: nat) {
    exists s :: Blocks(heap, lo, hi, s) && (x in s || exists b :: b in s && InSlabOf(heap, b, k, x))
  }

  ghost predicate InSlabOf(heap: Heap, b: nat, k: nat, x: nat) {
    && b in heap && heap[b].Kind() == 2 && heap[b].Class() == k
    && exists u :: Blocks(heap, b + 0x50, b + heap[b].Total(), u) && x in u
  }

  lemma FreeBlockIs(heap: Heap, lo: nat, hi: nat, k: nat, x: nat)
    ensures FreeBlock(heap, lo, hi, k, x) <==>
      Within(heap, lo, hi, k, x) && x in heap && heap[x].Free() && heap[x].Kind() != 2 && heap[x].Class() == k
  {
    if FreeBlock(heap, lo, hi, k, x) {
      var s, b :| Tiles(heap, lo, hi, s) && b in s && TileGives(heap, b, k, x);
      TilesAreBlocks(heap, lo, hi, s);
      if !(b == x && Collected(heap, x, k)) {
        var u :| Tiles(heap, b + SLAB_HEADER, b + heap[b].Total(), u) && x in u && Collected(heap, x, k);
        TilesAreBlocks(heap, b + SLAB_HEADER, b + heap[b].Total(), u);
        assert InSlabOf(heap, b, k, x);
      }
    }
    if Within(heap, lo, hi, k, x) && Collected(heap, x, k) {
      var s :| Blocks(heap, lo, hi, s) && (x in s || exists b :: b in s && InSlabOf(heap, b, k, x));
      TilesAreBlocks(heap, lo, hi, s);
      if x in s {
        assert TileGives(heap, x, k, x);
      } else {
        var b :| b in s && InSlabOf(heap, b, k, x);
        var u :| Blocks(heap, b + 0x50, b + heap[b].Total(), u) && x in u;
        TilesAreBlocks(heap, b + 0x50, b + heap[b].Total(), u);
        assert InSlab(heap, b + SLAB_HEADER, b + heap[b].Total(), k, x);
        assert TileGives(heap, b, k, x);
      }
    }
  }

  /** g holds the free blocks of class k, of a kind other than slab, of the primary pool and of every donated
      region with a base and a size. */
  ghost predicate Harvest(heap: Heap, pool: Pool, k: nat, g: seq<nat>) {
    forall x :: x in g <==>
      && x in heap && heap[x].Free() && heap[x].Kind() != 2 && heap[x].Class() == k
      && (Within(heap, pool.lo, pool.hi, k, x)
          || exists i :: 0 <= i < |pool.donated| && FromDonated(heap, pool.donated[i], k, x))
  }

  ghost predicate FromDonated(heap: Heap, d: (nat, nat), k: nat, x: nat) {
    d.0 != 0 && d.1 != 0 && Within(heap, d.0, d.0 + d.1, k, x)
  }

  lemma GatherIsHarvest(heap: Heap, pool: Pool, k: nat)
    requires Gather(heap, pool, k, |pool.donated|).Some?
    ensures Harvest(heap, pool, k, Gather(heap, pool, k, |pool.donated|).value)
  {
    var g := Gather(heap, pool, k, |pool.donated|).value;
    forall x ensures x in g <==>
      && x in heap && heap[x].Free() && heap[x].Kind() != 2 && heap[x].Class() == k
      && (Within(heap, pool.lo, pool.hi, k, x)
          || exists i :: 0 <= i < |pool.donated| && FromDonated(heap, pool.donated[i], k, x))
    {
      GatherFindsFreeBlocks(heap, pool, k, |pool.donated|, x);
      RegionsGive(heap, pool, k, x);
    }
  }

  lemma RegionsGive(heap: Heap, pool: Pool, k: nat, x: nat)
    ensures (exists r ::
        0 <= r <= |pool.donated| && Swept(pool, r) && FreeBlock(heap, Region(pool, r).0, Region(pool, r).1, k, x))
      <==>
      && x in heap && heap[x].Free() && heap[x].Kind() != 2 && heap[x].Class() == k
      && (Within(heap, pool.lo, pool.hi, k, x)
          || exists i :: 0 <= i < |pool.donated| && FromDonated(heap, pool.donated[i], k, x))
  {
    if r :| 0 <= r <= |pool.donated| && Swept(pool, r) && FreeBlock(heap, Region(pool, r).0, Region(pool, r).1, k, x) {
      FreeBlockIs(heap, Region(pool, r).0, Region(pool, r).1, k, x);
      assert r > 0 ==> FromDonated(heap, pool.donated[r - 1], k, x);
    }
    if x in heap && heap[x].Free() && heap[x].Kind() != 2 && heap[x].Class() == k {
      if Within(heap, pool.lo, pool.hi, k, x) {
        FreeBlockIs(heap, Region(pool, 0).0, Region(pool, 0).1, k, x);
        assert Swept(pool, 0);
      }
      if i :| 0 <= i < |pool.donated| && FromDonated(heap, pool.donated[i], k, x) {
        FreeBlockIs(heap, Region(pool, i + 1).0, Region(pool, i + 1).1, k, x);
        assert Swept(pool, i + 1);
      }
    }
  }

  /** The stamps of [lo, hi) make sense: the range is one, and it and its class-k slabs fall into blocks. */
  ghost predicate Readable(heap: Heap, lo: nat, hi: nat, k: nat) {
    && lo >= 0x10000 && lo % 8 == 0 && lo < hi && hi - lo <= 0x4000_0000
    && exists s :: Blocks(heap, lo, hi, s) && SlabsReadable(heap, s, k)
  }

  ghost predicate SlabsReadable(heap: Heap, s: seq<nat>, k: nat) {
    forall b :: b in s && b in heap && heap[b].Kind() == 2 && heap[b].Class() == k ==>
      HasBlocks(heap, b + 0x50, b + heap[b].Total())
  }

  lemma HasTilingIs(heap: Heap, lo: nat, hi: nat)
    ensures HasTiling(heap, lo, hi) <==> HasBlocks(heap, lo, hi)
  {
    if u :| Tiles(heap, lo, hi, u) {
      TilesToBlocks(heap, lo, hi, u);
    }
    if u :| Blocks(heap, lo, hi, u) {
      BlocksToTiles(heap, lo, hi, u);
    }
  }

  lemma SlabsReadableIs(heap: Heap, s: seq<nat>, k: nat)
    ensures SlabsTiled(heap, s, k) <==> SlabsReadable(heap, s, k)
  {
    forall b | b in heap
      ensures HasTiling(heap, b + SLAB_HEADER, b + heap[b].Total()) <==> HasBlocks(heap, b + 0x50, b + heap[b].Total())
    {
      HasTilingIs(heap, b + SLAB_HEADER, b + heap[b].Total());
    }
    if SlabsReadable(heap, s, k) {
      forall b | b in s ensures SlabTiled(heap, b, k) {
      }
    }
    if SlabsTiled(heap, s, k) {
      forall b | b in s && b in heap && heap[b].Kind() == 2 && heap[b].Class() == k
        ensures HasBlocks(heap, b + 0x50, b + heap[b].Total())
      {
        assert SlabTiled(heap, b, k);
      }
    }
  }

  lemma RangeSucceedsIff(heap: Heap, lo: nat, hi: nat, k: nat)
    ensures SweepRange(heap, lo, hi, k).Some? <==> Readable(heap, lo, hi, k)
  {
    SweepSucceedsIff(heap, lo, hi, k);
    if s :| Tiles(heap, lo, hi, s) && SlabsTiled(heap, s, k) {
      TilesToBlocks(heap, lo, hi, s);
      SlabsReadableIs(heap, s, k);
    }
    if s :| Blocks(heap, lo, hi, s) && SlabsReadable(heap, s, k) {
      BlocksToTiles(heap, lo, hi, s);
      SlabsReadableIs(heap, s, k);
    }
  }

  lemma {:induction false} GatherSucceedsIff(heap: Heap, pool: Pool, k: nat, n: nat)
    requires n <= |pool.donated|
    ensures Gather(heap, pool, k, n).Some? <==>
      && Readable(heap, pool.lo, pool.hi, k)
      && forall i :: 0 <= i < n && pool.donated[i].0 != 0 && pool.donated[i].1 != 0 ==>
           Readable(heap, pool.donated[i].0, pool.donated[i].0 + pool.donated[i].1, k)
  {
    if n == 0 {
      RangeSucceedsIff(heap, pool.lo, pool.hi, k);
    } else {
      GatherSucceedsIff(heap, pool, k, n - 1);
      RangeSucceedsIff(heap, pool.donated[n - 1].0, pool.donated[n - 1].0 + pool.donated[n - 1].1, k);
    }
  }

  // ---------- the commit ----------

  /** The first i gathered blocks chained to their neighbours in g. */
  function Rechained(heap: Heap, g: seq<nat>, i: nat): Heap
    requires i <= |g| && forall j :: 0 <= j < |g| ==> g[j] in heap
  {
    if i == 0 then heap
    else Rechained(heap, g, i - 1)[g[i - 1] := heap[g[i - 1]].(prev := Prev(g, i - 1), next := Next(g, i - 1))]
  }

  function Next(g: seq<nat>, i: nat): nat
    requires i < |g|
  {
    if i + 1 < |g| then g[i + 1] else 0
  }

  lemma {:induction false} RechainedAt(heap: Heap, g: seq<nat>, i: nat, x: nat)
    requires i <= |g| && forall j :: 0 <= j < |g| ==> g[j] in heap
    ensures Rechained(heap, g, i).Keys == heap.Keys
    ensures x in heap && x !in g[..i] ==> Rechained(heap, g, i)[x] == heap[x]
    ensures x in heap ==> Rechained(heap, g, i)[x].h38 == heap[x].h38 && Rechained(heap, g, i)[x].h3c == heap[x].h3c
  {
    if i == 0 {
    } else {
      RechainedAt(heap, g, i - 1, x);
      assert g[..i] == g[..i - 1] + [g[i - 1]];
    }
  }

  lemma {:induction false} RechainedLinks(heap: Heap, g: seq<nat>, i: nat, j: nat)
    requires j < i <= |g| && NoRepeat(g) && forall j :: 0 <= j < |g| ==> g[j] in heap
    ensures g[j] in Rechained(heap, g, i)
    ensures Rechained(heap, g, i)[g[j]].prev == Prev(g, j) && Rechained(heap, g, i)[g[j]].next == Next(g, j)
  {
    if j == i - 1 {
    } else {
      RechainedLinks(heap, g, i - 1, j);
      assert g[j] != g[i - 1];
    }
  }

  lemma {:induction false} PathOfLinks(heap: Heap, g: seq<nat>, i: nat)
    requires i <= |g| && forall j :: 0 <= j < |g| ==> g[j] in heap && g[j] != 0 && heap[g[j]].next == Next(g, j)
    ensures Path(heap, if i < |g| then g[i] else 0, g[i..], 0)
    decreases |g| - i
  {
    if i == |g| {
    } else {
      PathOfLinks(heap, g, i + 1);
      assert g[i..][1..] == g[i + 1..];
      assert heap[g[i]].next == Next(g, i);
    }
  }

  /** The committed list: walking next from head visits exactly the gathered blocks, each once,
      then null; prev goes back the same way; stamps and all other blocks are untouched. */
  lemma RechainedIsList(heap: Heap, g: seq<nat>)
    requires NoRepeat(g) && forall j :: 0 <= j < |g| ==> g[j] in heap && g[j] != 0
    ensures var heap' := Rechained(heap, g, |g|);
      && IsChain(heap', if g == [] then 0 else g[0], g) && BackLinked(heap', g) && heap'.Keys == heap.Keys
      && (forall x :: x in heap && x !in g ==> heap'[x] == heap[x])
      && (forall x :: x in heap ==> heap'[x].h38 == heap[x].h38 && heap'[x].h3c == heap[x].h3c)
  {
    var heap' := Rechained(heap, g, |g|);
    RechainedAt(heap, g, |g|, 0);
    forall j | 0 <= j < |g| ensures g[j] in heap' && heap'[g[j]].next == Next(g, j) && heap'[g[j]].prev == Prev(g, j) {
      RechainedLinks(heap, g, |g|, j);
    }
    PathOfLinks(heap', g, 0);
    assert g[0..] == g && g[..|g|] == g;
    forall x | x in heap
      ensures x !in g ==> heap'[x] == heap[x]
      ensures heap'[x].h38 == heap[x].h38 && heap'[x].h3c == heap[x].h3c
    {
      RechainedAt(heap, g, |g|, x);
    }
  }

  /** Rebuild from ground truth: over disjoint regions, the committed list visits exactly the free
      class-k blocks the stamps show, each once. */
  lemma RebuildIsGroundTruth(heap: Heap, pool: Pool, k: nat, g: seq<nat>)
    requires DisjointRegions(pool) && Gather(heap, pool, k, |pool.donated|) == Some(g)
    ensures forall i :: 0 <= i < |g| ==> g[i] in heap
    ensures IsChain(Rechained(heap, g, |g|), if g == [] then 0 else g[0], g) && BackLinked(Rechained(heap, g, |g|), g)
    ensures NoRepeat(g)
    ensures forall x :: x in g <==>
      exists r ::
        && 0 <= r <= |pool.donated| && Swept(pool, r)
        && FreeBlock(heap, Region(pool, r).0, Region(pool, r).1, k, x)
  {
    GatherIs(heap, pool, k, |pool.donated|);
    forall i | 0 <= i < |g| ensures g[i] in heap && g[i] != 0 {
      assert g[i] in g;
    }
    RechainedIsList(heap, g);
    forall x ensures x in g <==>
      exists r ::
        && 0 <= r <= |pool.donated| && Swept(pool, r)
        && FreeBlock(heap, Region(pool, r).0, Region(pool, r).1, k, x)
    {
      GatherFindsFreeBlocks(heap, pool, k, |pool.donated|, x);
    }
  }

  /** Every region of the pool that is swept makes sense. */
  ghost predicate PoolReadable(heap: Heap, pool: Pool, k: nat) {
    && Readable(heap, pool.lo, pool.hi, k)
    && forall i :: 0 <= i < |pool.donated| && pool.donated[i].0 != 0 && pool.donated[i].1 != 0 ==>
         Readable(heap, pool.donated[i].0, pool.donated[i].0 + pool.donated[i].1, k)
  }

  /** The list from head in heap' holds r blocks: those the stamps of heap show, each once if no two regions
      of the pool overlap, linked both ways. No stamp and no other block has changed. */
  ghost predicate Rebuilt(heap: Heap, pool: Pool, k: nat, heap': Heap, head: nat, r: int) {
    exists g ::
      && |g| == r && Harvest(heap, pool, k, g) && (DisjointRegions(pool) ==> Listed(heap, g, heap', head))
  }

  ghost predicate Listed(heap: Heap, g: seq<nat>, heap': Heap, head: nat) {
    && NoRepeat(g) && IsChain(heap', head, g) && BackLinked(heap', g) && heap'.Keys == heap.Keys
    && (forall x :: x in heap && x !in g ==> heap'[x] == heap[x])
    && (forall x :: x in heap ==> heap'[x].h38 == heap[x].h38 && heap'[x].h3c == heap[x].h3c)
  }

  lemma GatherIsRebuilt(heap: Heap, pool: Pool, k: nat, g: seq<nat>)
    requires Gather(heap, pool, k, |pool.donated|) == Some(g)
    ensures forall i :: 0 <= i < |g| ==> g[i] in heap
    ensures Rebuilt(heap, pool, k, Rechained(heap, g, |g|), if g == [] then 0 else g[0], |g|)
    ensures DisjointRegions(pool) ==> NoRepeat(g)
  {
    GatherIsHarvest(heap, pool, k);
    forall i | 0 <= i < |g| ensures g[i] in heap {
      assert g[i] in g;
    }
    if DisjointRegions(pool) {
      GatherIs(heap, pool, k, |pool.donated|);
      forall i | 0 <= i < |g| ensures g[i] != 0 {
        assert g[i] in g;
      }
      RechainedIsList(heap, g);
    }
  }

  /** At most 65536 blocks, and some if the manager claims any. */
  predicate Listable(mgr: Manager, g: seq<nat>) {
    |g| <= 65536 && (mgr.count > 0 ==> g != [])
  }

  /** What the stamps show cannot be listed. */
  ghost predicate TooMuch(heap: Heap, pool: Pool, mgr: Manager, g: seq<nat>) {
    Harvest(heap, pool, mgr.classTag, g) && (DisjointRegions(pool) ==> NoRepeat(g)) && !Listable(mgr, g)
  }

  ghost predicate Declines(heap: Heap, pool: Pool, mgr: Manager) {
    || mgr.classTag < 1 || mgr.classTag > 8 || !PoolReadable(heap, pool, mgr.classTag)
    || exists g :: TooMuch(heap, pool, mgr, g)
  }

  /** The rebuild as code: gather, then commit all or nothing. */
  ghost predicate Rederived(pool: Pool, heap: Heap, mgr: Manager, heap': Heap, mgr': Manager, r: int) {
    var o := Gather(heap, pool, mgr.classTag, |pool.donated|);
    && (r >= 0 <==> 1 <= mgr.classTag <= 8 && o.Some? && |o.value| <= REBUILD_MAX && (mgr.count > 0 ==> o.value != []))
    && (r < 0 ==> r == -1 && heap' == heap && mgr' == mgr)
    && (r >= 0 ==>
          && r == |o.value| && (forall j :: 0 <= j < |o.value| ==> o.value[j] in heap)
          && heap' == Rechained(heap, o.value, |o.value|) && mgr' == Describe(heap, o.value, mgr.classTag))
  }

  /** What that comes to in terms of the stamps. */
  lemma RederivedIs(pool: Pool, heap: Heap, mgr: Manager, heap': Heap, mgr': Manager, r: int)
    requires Rederived(pool, heap, mgr, heap', mgr', r)
    ensures r >= 0 ==> 1 <= mgr.classTag <= 8 && r <= 65536 && (mgr.count > 0 ==> r > 0)
    ensures r >= 0 ==> Rebuilt(heap, pool, mgr.classTag, heap', mgr'.head, r) && PoolReadable(heap, pool, mgr.classTag)
    ensures r < 0 ==> Declines(heap, pool, mgr)
  {
    var o := Gather(heap, pool, mgr.classTag, |pool.donated|);
    GatherSucceedsIff(heap, pool, mgr.classTag, |pool.donated|);
    if o.Some? {
      GatherIsRebuilt(heap, pool, mgr.classTag, o.value);
      GatherIsHarvest(heap, pool, mgr.classTag);
      assert !Listable(mgr, o.value) ==> TooMuch(heap, pool, mgr, o.value);
    }
  }

  /** Over disjoint regions the rebuild declines only what it has to. */
  lemma RederivedIff(pool: Pool, heap: Heap, mgr: Manager, heap': Heap, mgr': Manager, r: int)
    requires Rederived(pool, heap, mgr, heap', mgr', r) && DisjointRegions(pool) && r >= 0
    ensures !Declines(heap, pool, mgr)
  {
    var o := Gather(heap, pool, mgr.classTag, |pool.donated|);
    GatherSucceedsIff(heap, pool, mgr.classTag, |pool.donated|);
    GatherIs(heap, pool, mgr.classTag, |pool.donated|);
    GatherIsHarvest(heap, pool, mgr.classTag);
    NeverTooMuch(heap, pool, mgr, o.value);
    NotDeclined(heap, pool, mgr);
  }

  lemma NotDeclined(heap: Heap, pool: Pool, mgr: Manager)
    requires 1 <= mgr.classTag <= 8 && PoolReadable(heap, pool, mgr.classTag)
    requires forall g :: !TooMuch(heap, pool, mgr, g)
    ensures !Declines(heap, pool, mgr)
  {
  }

  lemma NeverTooMuch(heap: Heap, pool: Pool, mgr: Manager, b: seq<nat>)
    requires Harvest(heap, pool, mgr.classTag, b) && NoRepeat(b) && DisjointRegions(pool) && Listable(mgr, b)
    ensures forall g :: !TooMuch(heap, pool, mgr, g)
  {
    forall g ensures !TooMuch(heap, pool, mgr, g) {
      NotTooMuch(heap, pool, mgr, g, b);
    }
  }

  lemma NotTooMuch(heap: Heap, pool: Pool, mgr: Manager, a: seq<nat>, b: seq<nat>)
    requires Harvest(heap, pool, mgr.classTag, b) && NoRepeat(b) && DisjointRegions(pool) && Listable(mgr, b)
    ensures !TooMuch(heap, pool, mgr, a)
  {
    if Harvest(heap, pool, mgr.classTag, a) && NoRepeat(a) {
      SameHarvest(heap, pool, mgr.classTag, a, b);
      SameSize(a, b);
    }
  }

  lemma SameHarvest(heap: Heap, pool: Pool, k: nat, a: seq<nat>, b: seq<nat>)
    requires Harvest(heap, pool, k, a) && Harvest(heap, pool, k, b)
    ensures forall x :: x in a <==> x in b
  {
  }

  /** Two lists of the same blocks, each listed once, are equally long. */
  lemma SameSize(a: seq<nat>, b: seq<nat>)
    requires NoRepeat(a) && NoRepeat(b) && forall x :: x in a <==> x in b
    ensures |a| == |b|
  {
    ListSize(a);
    ListSize(b);
    assert Elements(a) == Elements(b);
  }

  ghost function Elements(a: seq<nat>): (s: set<nat>)
    ensures forall x :: x in s <==> x in a
  {
    set x | x in a
  }

  lemma {:induction false} ListSize(a: seq<nat>)
    requires NoRepeat(a)
    ensures |Elements(a)| == |a|
    decreases |a|
  {
    if a == [] {
    } else {
      var d, e := a[..|a| - 1], a[|a| - 1];
      ListSize(d);
      assert a == d + [e] && e !in d;
      assert Elements(a) == Elements(d) + {e};
    }
  }

  /** Blocks a sweep of the primary pool gathers. */
  ghost predicate PrimaryBlocks(heap: Heap, pool: Pool, g: seq<nat>) {
    && NoRepeat(g) && |g| <= REBUILD_MAX
    && (forall i :: 0 <= i < |g| ==> g[i] in heap && heap[g[i]].Free())
    && (forall i :: 0 <= i < |g| ==> g[i] != 0 && Canon(g[i]) && pool.InPrimary(g[i]))
  }

  lemma GatheredArePrimary(heap: Heap, pool: Pool, k: nat, g: seq<nat>)
    requires pool.donated == [] && pool.hi <= 0x7FFF_FFFF_FFFF
    requires Gather(heap, pool, k, 0) == Some(g) && |g| <= REBUILD_MAX
    ensures PrimaryBlocks(heap, pool, g)
  {
    GatherIs(heap, pool, k, 0);
    forall i | 0 <= i < |g| ensures pool.lo <= g[i] < pool.hi && Collected(heap, g[i], k) && g[i] != 0 {
      assert g[i] in g;
    }
  }

  /** A rebuild without donated blocks leaves nothing for the repairer: its checks pass, its chain is
      trusted, and no field disagrees. */
  lemma RebuildIsRepairFixpoint(heap: Heap, pool: Pool, g: seq<nat>, classTag: nat)
    requires PrimaryBlocks(heap, pool, g)
    ensures WellFormed(Rechained(heap, g, |g|), Describe(heap, g, classTag), pool, g)
    ensures forall i :: 0 <= i < |g| ==> g[i] in Rechained(heap, g, |g|)
    ensures Disagreements(Rechained(heap, g, |g|), Describe(heap, g, classTag), g) == 0
    ensures g != [] ==> Fit(Rechained(heap, g, |g|), Describe(heap, g, classTag), pool, g)
  {
    RechainedIsList(heap, g);
    var heap' := Rechained(heap, g, |g|);
    forall i | 0 <= i < |g| ensures g[i] in heap' && heap'[g[i]].h38 == heap[g[i]].h38 {
    }
    SumSame(heap, heap', g, |g|);
    LinkedIsFixpoint(heap', g, classTag, pool);
    if g != [] {
      FitOf(heap', Describe(heap, g, classTag), pool, g);
    }
  }

  /** What the repairer meets after a rebuild: a list it accepts, or an empty one, and either way nothing
      to change. */
  lemma RepairFindsNothing(heap: Heap, pool: Pool, k: nat, g: seq<nat>)
    requires pool.donated == [] && pool.hi <= 0x7FFF_FFFF_FFFF
    requires Gather(heap, pool, k, 0) == Some(g) && |g| <= REBUILD_MAX
    ensures forall i :: 0 <= i < |g| ==> g[i] in heap
    ensures var heap', mgr' := Rechained(heap, g, |g|), Describe(heap, g, k);
      && (if g == [] then mgr'.head == 0 && mgr'.count == 0 else mgr'.head != 0 && Fit(heap', mgr', pool, g))
      && forall c :: Fit(heap', mgr', pool, c) ==>
           Relinked(heap', c, |c|) == heap' && Describe(heap', c, k) == mgr' && Disagreements(heap', mgr', c) == 0
  {
    GatheredArePrimary(heap, pool, k, g);
    RebuildIsRepairFixpoint(heap, pool, g, k);
    RechainedIsList(heap, g);
    var heap', mgr' := Rechained(heap, g, |g|), Describe(heap, g, k);
    SumSame(heap, heap', g, |g|);
    forall c | Fit(heap', mgr', pool, c)
      ensures Relinked(heap', c, |c|) == heap' && Describe(heap', c, k) == mgr' && Disagreements(heap', mgr', c) == 0
    {
      ChainUnique(heap', mgr'.head, g, c);
      RelinkedSame(heap', g, |g|);
    }
  }

  /** Relinking what is linked changes nothing. */
  lemma {:induction false} RelinkedSame(heap: Heap, c: seq<nat>, n: nat)
    requires n <= |c| && BackLinked(heap, c)
    ensures Relinked(heap, c, n) == heap
  {
    if n == 0 {
    } else {
      RelinkedSame(heap, c, n - 1);
      assert heap[c[n - 1]].prev == Prev(c, n - 1);
    }
  }

  lemma FitOf(heap: Heap, mgr: Manager, pool: Pool, c: seq<nat>)
    requires c != [] && |c| <= REBUILD_MAX && mgr.count == |c| && IsChain(heap, mgr.head, c)
    requires forall i :: 0 <= i < |c| ==> c[i] in heap && heap[c[i]].Free() && Canon(c[i]) && pool.InPrimary(c[i])
    ensures Fit(heap, mgr, pool, c)
  {
    assert Cap(|c|) == |c| + 2;
  }

  // ---------- the code ----------

  class Rebuilder {
    var lists: FreeLists
    var scratch: seq<nat>

    constructor (lists: FreeLists)
      ensures this.lists == lists
    {
      this.lists, scratch := lists, [];
    }

    /** Appends the region's free class-k blocks to scratch; false when the stamps make no sense or
        the list grows too long. */
    method SweepInto(lo: nat, hi: nat, k: nat) returns (ok: bool)
      requires |scratch| <= REBUILD_MAX
      modifies this`scratch
      ensures var o := SweepRange(lists.nodes, lo, hi, k);
        ok <==> o.Some? && |old(scratch)| + |o.value| <= REBUILD_MAX
      ensures ok ==> scratch == old(scratch) + SweepRange(lists.nodes, lo, hi, k).value
    {
      if !RangeOk(lo, hi) {
        return false;
      }
      var b := lo;
      ghost var acc: seq<nat> := [];
      PrependNil(Sweep(lists.nodes, lo, hi, k));
      while b < hi
        invariant |scratch| <= REBUILD_MAX && scratch == old(scratch) + acc
        invariant Sweep(lists.nodes, lo, hi, k) == Prepend(acc, Sweep(lists.nodes, b, hi, k))
        decreases hi - b
      {
        if !Strides(lists.nodes, b, hi) {
          return false;
        }
        ok := TakeBlock(b, hi, k);
        if !ok {
          return;
        }
        ghost var part := Part(lists.nodes, b, k).value;
        PrependTwice(acc, part, Sweep(lists.nodes, b + lists.nodes[b].Total(), hi, k));
        acc := acc + part;
        b := b + lists.nodes[b].Total();
      }
      ok := true;
    }

    /** Appends what one top-level block contributes. */
    method TakeBlock(b: nat, hi: nat, k: nat) returns (ok: bool)
      requires |scratch| <= REBUILD_MAX && Strides(lists.nodes, b, hi)
      modifies this`scratch
      ensures var o := Part(lists.nodes, b, k); ok <==> o.Some? && |old(scratch)| + |o.value| <= REBUILD_MAX
      ensures ok ==> scratch == old(scratch) + Part(lists.nodes, b, k).value
    {
      var node := lists.nodes[b];
      if node.Kind() == 2 {
        if node.Class() == k {
          ok := SubSweepInto(b + SLAB_HEADER, b + node.Total(), k);
          return;
        }
      } else if node.Free() && node.Class() == k {
        if |scratch| >= REBUILD_MAX {
          return false;
        }
        scratch := scratch + [b];
      }
      ok := true;
    }

    method SubSweepInto(lo: nat, hi: nat, k: nat) returns (ok: bool)
      requires |scratch| <= REBUILD_MAX
      modifies this`scratch
      ensures var o := SubSweep(lists.nodes, lo, hi, k);
        ok <==> o.Some? && |old(scratch)| + |o.value| <= REBUILD_MAX
      ensures ok ==> scratch == old(scratch) + SubSweep(lists.nodes, lo, hi, k).value
    {
      var b := lo;
      ghost var acc: seq<nat> := [];
      PrependNil(SubSweep(lists.nodes, lo, hi, k));
      while b < hi
        invariant |scratch| <= REBUILD_MAX && scratch == old(scratch) + acc
        invariant SubSweep(lists.nodes, lo, hi, k) == Prepend(acc, SubSweep(lists.nodes, b, hi, k))
        decreases hi - b
      {
        if !Strides(lists.nodes, b, hi) {
          return false;
        }
        ghost var part: seq<nat> := [];
        if Collected(lists.nodes, b, k) {
          if |scratch| >= REBUILD_MAX {
            return false;
          }
          scratch := scratch + [b];
          part := [b];
        }
        PrependTwice(acc, part, SubSweep(lists.nodes, b + lists.nodes[b].Total(), hi, k));
        acc := acc + part;
        b := b + lists.nodes[b].Total();
      }
      ok := true;
    }

    /** Rebuilds class k's list from the stamps of every region of the pool, or declines with
        nothing written: on a class tag outside 1 to 8, on stamps that make no sense, on more blocks
        than the scratch list holds, and on an empty harvest for a manager that claims blocks. */
    method RebuildFromPool(pool: Pool) returns (r: int)
      modifies this`scratch, lists
      ensures Rederived(pool, old(lists.nodes), old(lists.mgr), lists.nodes, lists.mgr, r)
      ensures r < 0 ==> r == -1 && lists.nodes == old(lists.nodes) && lists.mgr == old(lists.mgr)
      ensures r >= 0 ==> Rebuilt(old(lists.nodes), pool, old(lists.mgr).classTag, lists.nodes, lists.mgr.head, r)
      ensures r >= 0 ==> 1 <= old(lists.mgr).classTag <= 8 && r <= 65536 && (old(lists.mgr).count > 0 ==> r > 0)
      ensures r >= 0 ==> PoolReadable(old(lists.nodes), pool, old(lists.mgr).classTag)
      ensures r < 0 ==> Declines(old(lists.nodes), pool, old(lists.mgr))
      ensures DisjointRegions(pool) && r >= 0 ==> !Declines(old(lists.nodes), pool, old(lists.mgr))
    {
      ghost var heap, mgr := lists.nodes, lists.mgr;
      r := Rederive(pool);
      RederivedIs(pool, heap, mgr, lists.nodes, lists.mgr, r);
      if DisjointRegions(pool) && r >= 0 {
        RederivedIff(pool, heap, mgr, lists.nodes, lists.mgr, r);
      }
    }

    method Rederive(pool: Pool) returns (r: int)
      modifies this`scratch, lists
      ensures Rederived(pool, old(lists.nodes), old(lists.mgr), lists.nodes, lists.mgr, r)
    {
      var k := lists.mgr.classTag;
      if k < 1 || k > 8 {
        return -1;
      }
      scratch := [];
      var ok := GatherInto(pool, k);
      if !ok || (lists.mgr.count > 0 && scratch == []) {
        return -1;
      }
      GatheredInHeap(lists.nodes, pool, k, |pool.donated|);
      Commit();
      r := |scratch|;
    }

    /** A rebuild without donated regions, then a repair: the repair accepts the list, counts nothing and
        leaves memory and descriptor as the rebuild made them. */
    method RebuildThenRepair(pool: Pool) returns (r: int, r': int)
      requires pool.donated == [] && pool.hi <= 0x7FFF_FFFF_FFFF
      modifies this`scratch, lists
      ensures r >= 0 ==> r' == 0 && Gather(old(lists.nodes), pool, old(lists.mgr).classTag, 0).Some?
      ensures r >= 0 ==>
        var g := Gather(old(lists.nodes), pool, old(lists.mgr).classTag, 0).value;
        && (forall j :: 0 <= j < |g| ==> g[j] in old(lists.nodes))
        && lists.nodes == Rechained(old(lists.nodes), g, |g|)
        && lists.mgr == Describe(old(lists.nodes), g, old(lists.mgr).classTag)
    {
      ghost var heap, k := lists.nodes, lists.mgr.classTag;
      ghost var c;
      r := RebuildFromPool(pool);
      if r >= 0 {
        RepairFindsNothing(heap, pool, k, Gather(heap, pool, k, 0).value);
      }
      r', c := lists.RepairList(pool);
    }

    method GatherInto(pool: Pool, k: nat) returns (ok: bool)
      requires scratch == []
      modifies this`scratch
      ensures var o := Gather(lists.nodes, pool, k, |pool.donated|); ok <==> o.Some? && |o.value| <= REBUILD_MAX
      ensures ok ==> scratch == Gather(lists.nodes, pool, k, |pool.donated|).value
    {
      ok := SweepInto(pool.lo, pool.hi, k);
      if !ok {
        GatherGrows(lists.nodes, pool, k, 0, |pool.donated|);
        return;
      }
      assert Gather(lists.nodes, pool, k, 0).value == scratch;
      for i := 0 to |pool.donated|
        invariant |scratch| <= REBUILD_MAX && Gather(lists.nodes, pool, k, i) == Some(scratch)
      {
        ok := GatherDonated(pool, k, i);
        if !ok {
          GatherGrows(lists.nodes, pool, k, i + 1, |pool.donated|);
          return;
        }
      }
      ok := true;
    }

    /** One donated region; an empty entry is passed over. */
    method GatherDonated(pool: Pool, k: nat, i: nat) returns (ok: bool)
      requires i < |pool.donated| && |scratch| <= REBUILD_MAX && Gather(lists.nodes, pool, k, i) == Some(scratch)
      modifies this`scratch
      ensures var o := Gather(lists.nodes, pool, k, i + 1);
        (ok <==> o.Some? && |o.value| <= REBUILD_MAX) && (ok ==> o.value == scratch)
    {
      var (base, size) := pool.donated[i];
      if base == 0 || size == 0 {
        return true;
      }
      ok := SweepInto(base, base + size, k);
    }

    method Commit()
      requires forall j :: 0 <= j < |scratch| ==> scratch[j] in lists.nodes
      modifies lists
      ensures lists.nodes == Rechained(old(lists.nodes), scratch, |scratch|)
      ensures lists.mgr == Describe(old(lists.nodes), scratch, old(lists.mgr).classTag)
    {
      var ssum, n := 0, |scratch|;
      ghost var heap := lists.nodes;
      for i := 0 to n
        invariant lists.nodes == Rechained(heap, scratch, i) && lists.mgr == old(lists.mgr)
        invariant ssum == UnitSum(heap, scratch, i)
      {
        RechainedAt(heap, scratch, i, scratch[i]);
        var b := scratch[i];
        var prev, next := if i > 0 then scratch[i - 1] else 0, if i < n - 1 then scratch[i + 1] else 0;
        lists.nodes := lists.nodes[b := lists.nodes[b].(prev := prev, next := next)];
        ssum := ssum + lists.nodes[b].Units();
      }
      lists.mgr := Manager(if n > 0 then scratch[0] else 0, if n > 0 then scratch[n - 1] else 0, n % U32, ssum % U32,
                           lists.mgr.classTag);
    }
  }

  lemma {:induction false} GatheredInHeap(heap: Heap, pool: Pool, k: nat, n: nat)
    requires n <= |pool.donated| && Gather(heap, pool, k, n).Some?
    ensures forall x :: x in Gather(heap, pool, k, n).value ==> x in heap
  {
    var (lo, hi) := Region(pool, n);
    if n == 0 {
    } else {
      GatheredInHeap(heap, pool, k, n - 1);
    }
    if n == 0 || (lo != 0 && hi != lo) {
      RegionIs(heap, lo, hi, k);
    }
  }

  /** A later region neither revives a failed gathering nor shortens a long one. */
  lemma {:induction false} GatherGrows(heap: Heap, pool: Pool, k: nat, i: nat, n: nat)
    requires i <= n <= |pool.donated|
    ensures Gather(heap, pool, k, n).Some? ==>
      Gather(heap, pool, k, i).Some? && |Gather(heap, pool, k, i).value| <= |Gather(heap, pool, k, n).value|
    decreases n
  {
    if i == n {
    } else {
      GatherGrows(heap, pool, k, i, n - 1);
    }
  }
}

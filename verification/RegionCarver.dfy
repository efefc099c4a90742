/** The region carver of src/arena.cpp: reservations carved first-fit from a free list or from a
    watermark, released back, and zeroed on the way. */
module RegionCarver {
  import opened Pages

  const GRAIN: nat := 0x1_0000
  const TABLE: nat := 4096
  const LIMIT: nat := ZONE_START * PAGE_SIZE
  const U64: nat := 0x1_0000_0000_0000_0000

  datatype Region = Region(offset: nat, size: nat) {
    function End(): nat { offset + size }

    predicate Has(page: nat) { offset <= page * PAGE_SIZE < offset + size }
  }

  /** Both tables, and the bytes that a full table has dropped. */
  datatype Books = Books(watermark: nat, resv: seq<Region>, free: seq<Region>, leaked: nat)

  function AlignUp(n: nat, grain: nat): (r: nat)
    requires grain in {GRAIN, PAGE_SIZE}
    ensures r % grain == 0
  {
    (n + grain - 1) % U64 / grain * grain
  }

  lemma AlignUpIs(n: nat, grain: nat)
    requires grain in {GRAIN, PAGE_SIZE} && n + grain <= U64
    ensures n <= AlignUp(n, grain) < n + grain && (n % grain == 0 ==> AlignUp(n, grain) == n)
  {
  }

  // ---------- tables ----------

  function FirstFit(free: seq<Region>, size: nat, i: nat): (k: nat)
    requires i <= |free|
    ensures i <= k <= |free| && (k < |free| ==> free[k].size >= size)
    ensures forall j :: i <= j < k ==> free[j].size < size
    decreases |free| - i
  {
    if i == |free| || free[i].size >= size then i else FirstFit(free, size, i + 1)
  }

  function FindOffset(resv: seq<Region>, offset: nat, i: nat): (k: nat)
    requires i <= |resv|
    ensures i <= k <= |resv| && (k < |resv| ==> resv[k].offset == offset)
    ensures forall j :: i <= j < k ==> resv[j].offset != offset
    decreases |resv| - i
  {
    if i == |resv| || resv[i].offset == offset then i else FindOffset(resv, offset, i + 1)
  }

  /** Element i gone, the last in its place. */
  function SwapRemove(s: seq<Region>, i: nat): (r: seq<Region>)
    requires i < |s|
    ensures |r| == |s| - 1
    ensures forall k :: 0 <= k < |r| ==> r[k] == if k == i then s[|s| - 1] else s[k]
  {
    s[i := s[|s| - 1]][..|s| - 1]
  }

  function Sum(s: seq<Region>): nat {
    if s == [] then 0 else Sum(s[..|s| - 1]) + s[|s| - 1].size
  }

  lemma {:induction false} SumSet(s: seq<Region>, i: nat, x: Region)
    requires i < |s|
    ensures Sum(s[i := x]) == Sum(s) - s[i].size + x.size
    decreases |s|
  {
    var n := |s| - 1;
    if i < n {
      SumSet(s[..n], i, x);
      assert s[i := x][..n] == s[..n][i := x];
    } else {
      assert s[i := x][..n] == s[..n];
    }
  }

  lemma SumSwapRemove(s: seq<Region>, i: nat)
    requires i < |s|
    ensures Sum(SwapRemove(s, i)) == Sum(s) - s[i].size
  {
    var last := s[|s| - 1];
    var t := s[i := last];
    SumSet(s, i, last);
    SumLast(t, |s| - 1);
    assert t[|s| - 1] == last && SwapRemove(s, i) == t[..|s| - 1];
  }

  lemma SumLast(t: seq<Region>, n: nat)
    requires |t| == n + 1
    ensures Sum(t) == Sum(t[..n]) + t[n].size
  {
  }

  lemma SumPush(s: seq<Region>, x: Region)
    ensures Sum(s + [x]) == Sum(s) + x.size
  {
    assert (s + [x])[..|s|] == s;
  }

  // ---------- the steps ----------

  function Pushed(s: seq<Region>, x: Region): seq<Region> {
    if |s| < TABLE then s + [x] else s
  }

  function Dropped(s: seq<Region>, x: Region): nat {
    if |s| < TABLE then 0 else x.size
  }

  /** The offset for a region of the aligned size, if there is room. */
  function Place(b: Books, size: nat): Option<nat> {
    var i := FirstFit(b.free, size, 0);
    if i < |b.free| then Some(b.free[i].offset)
    else if (AlignUp(b.watermark, GRAIN) + size) % U64 > LIMIT then None
    else Some(AlignUp(b.watermark, GRAIN))
  }

  function Carve(b: Books, size: nat): Books {
    match Place(b, size)
    case None => b
    case Some(offset) =>
      var i := FirstFit(b.free, size, 0);
      Took(b, Region(offset, size), FreeAfter(b.free, size),
           if i < |b.free| then b.watermark else (offset + size) % U64)
  }

  /** The 64-bit sum wraps to a value the test against the heap zone lets through. */
  predicate Slips(b: Books, size: nat) {
    && FirstFit(b.free, size, 0) == |b.free|
    && AlignUp(b.watermark, GRAIN) + size >= U64 && (AlignUp(b.watermark, GRAIN) + size) % U64 <= LIMIT
  }

  /** r reserved, or dropped when the table is full. */
  function Took(b: Books, r: Region, free: seq<Region>, watermark: nat): Books {
    Books(watermark, Pushed(b.resv, r), free, b.leaked + Dropped(b.resv, r))
  }

  function FreeAfter(free: seq<Region>, size: nat): seq<Region> {
    var i := FirstFit(free, size, 0);
    if i == |free| then free
    else if free[i].size == size then SwapRemove(free, i)
    else free[i := Region(free[i].offset + size, free[i].size - size)]
  }

  function Release(b: Books, offset: nat): Books {
    var i := FindOffset(b.resv, offset, 0);
    if i == |b.resv| then b else Freed(b, i)
  }

  /** Reservation i on the free list, or dropped when that is full. */
  function Freed(b: Books, i: nat): Books
    requires i < |b.resv|
  {
    Books(b.watermark, SwapRemove(b.resv, i), Pushed(b.free, b.resv[i]), b.leaked + Dropped(b.free, b.resv[i]))
  }

  // ---------- soundness of the books ----------

  ghost predicate Apart(a: Region, c: Region) {
    a.End() <= c.offset || c.End() <= a.offset
  }

  ghost predicate AllApart(s: seq<Region>) {
    forall i, j {:trigger Apart(s[i], s[j])} :: 0 <= i < j < |s| ==> Apart(s[i], s[j])
  }

  ghost predicate FarFrom(x: Region, s: seq<Region>) {
    forall i {:trigger Apart(x, s[i])} :: 0 <= i < |s| ==> Apart(x, s[i])
  }

  ghost predicate CrossApart(s: seq<Region>, t: seq<Region>) {
    forall i {:trigger FarFrom(s[i], t)} :: 0 <= i < |s| ==> FarFrom(s[i], t)
  }

  ghost predicate AllBelow(s: seq<Region>, watermark: nat) {
    forall i :: 0 <= i < |s| ==> s[i].End() <= watermark
  }

  ghost predicate Grained(x: Region) {
    x.offset % 0x1_0000 == 0 && x.size % 0x1_0000 == 0
  }

  ghost predicate AllGrained(s: seq<Region>) {
    forall i {:trigger Grained(s[i])} :: 0 <= i < |s| ==> Grained(s[i])
  }

  ghost predicate Aligned(b: Books) {
    b.watermark % GRAIN == 0 && AllGrained(b.resv) && AllGrained(b.free)
  }

  ghost predicate Disjoint(b: Books) {
    && AllBelow(b.resv, b.watermark) && AllBelow(b.free, b.watermark)
    && AllApart(b.resv) && AllApart(b.free) && CrossApart(b.resv, b.free)
  }

  /** Every byte below the watermark is reserved, free or dropped. */
  ghost predicate Balanced(b: Books) {
    Sum(b.resv) + Sum(b.free) + b.leaked == b.watermark
  }

  /** Live reservations and free blocks are 64 KB aligned, pairwise disjoint and below the watermark,
      which is below the heap zone, and they account for every byte. */
  ghost predicate Sound(b: Books) {
    b.watermark <= 0x7000_0000 && Aligned(b) && Disjoint(b) && Balanced(b)
  }

  lemma SwapRemoveApart(s: seq<Region>, i: nat)
    requires i < |s| && AllApart(s)
    ensures AllApart(SwapRemove(s, i)) && FarFrom(s[i], SwapRemove(s, i))
  {
    var r, last := SwapRemove(s, i), |s| - 1;
    forall j, k | 0 <= j < k < |r| ensures Apart(r[j], r[k]) {
      assert Apart(s[j], s[k]);
      assert k == i ==> Apart(s[j], s[last]);
      assert j == i ==> Apart(s[k], s[last]);
    }
    forall k | 0 <= k < |r| ensures Apart(s[i], r[k]) {
      assert k < i ==> Apart(s[k], s[i]);
      assert k > i ==> Apart(s[i], s[k]);
      assert k == i ==> Apart(s[i], s[last]);
    }
  }

  /** The carved part taken out of the free list: nothing that is left overlaps it. */
  lemma FreeAfterApart(free: seq<Region>, size: nat, watermark: nat)
    requires AllApart(free) && AllBelow(free, watermark) && FirstFit(free, size, 0) < |free|
    ensures var f, x := FreeAfter(free, size), Region(free[FirstFit(free, size, 0)].offset, size);
      AllApart(f) && AllBelow(f, watermark) && FarFrom(x, f) && x.End() <= watermark
  {
    var i := FirstFit(free, size, 0);
    if free[i].size == size {
      SwapRemoveApart(free, i);
      assert free[i] == Region(free[i].offset, size);
    } else {
      var f := FreeAfter(free, size);
      forall j, k | 0 <= j < k < |f| ensures Apart(f[j], f[k]) {
        assert Apart(free[j], free[k]);
      }
      forall k | 0 <= k < |f| ensures Apart(Region(free[i].offset, size), f[k]) {
        assert k < i ==> Apart(free[k], free[i]);
        assert k > i ==> Apart(free[i], free[k]);
      }
    }
  }

  /** What was apart from the free list is apart from what is left, and from the carved part. */
  lemma FreeAfterFar(free: seq<Region>, size: nat, z: Region)
    requires FirstFit(free, size, 0) < |free| && FarFrom(z, free)
    ensures FarFrom(z, FreeAfter(free, size)) && Apart(Region(free[FirstFit(free, size, 0)].offset, size), z)
  {
    var i, f := FirstFit(free, size, 0), FreeAfter(free, size);
    assert Apart(z, free[i]);
    forall k | 0 <= k < |f| ensures Apart(z, f[k]) {
      assert Apart(z, free[k]) && Apart(z, free[|free| - 1]);
    }
  }

  lemma FreeAfterSum(free: seq<Region>, size: nat)
    requires FirstFit(free, size, 0) < |free|
    ensures Sum(FreeAfter(free, size)) + size == Sum(free)
  {
    var i := FirstFit(free, size, 0);
    if free[i].size == size {
      SumSwapRemove(free, i);
    } else {
      SumSet(free, i, Region(free[i].offset + size, free[i].size - size));
    }
  }

  lemma PushApart(s: seq<Region>, x: Region, watermark: nat)
    requires AllApart(s) && AllBelow(s, watermark) && FarFrom(x, s) && x.End() <= watermark
    ensures AllApart(Pushed(s, x)) && AllBelow(Pushed(s, x), watermark)
  {
    forall i, j | 0 <= i < j < |Pushed(s, x)| ensures Apart(Pushed(s, x)[i], Pushed(s, x)[j]) {
      if j == |s| {
        assert Apart(x, s[i]);
      }
    }
  }

  lemma PushCross(s: seq<Region>, x: Region, t: seq<Region>)
    requires CrossApart(s, t) && FarFrom(x, t)
    ensures CrossApart(Pushed(s, x), t)
  {
  }

  lemma PushSum(s: seq<Region>, x: Region)
    ensures Sum(Pushed(s, x)) + Dropped(s, x) == Sum(s) + x.size
  {
    SumPush(s, x);
  }

  lemma TookSound(b: Books, x: Region, free: seq<Region>, watermark: nat)
    requires Disjoint(b) && b.watermark <= watermark && x.End() <= watermark && FarFrom(x, b.resv)
    requires AllApart(free) && AllBelow(free, watermark) && CrossApart(b.resv, free) && FarFrom(x, free)
    ensures Disjoint(Took(b, x, free, watermark))
  {
    PushApart(b.resv, x, watermark);
    PushCross(b.resv, x, free);
  }

  lemma TookBalanced(b: Books, x: Region, free: seq<Region>, watermark: nat)
    requires Balanced(b) && Sum(free) + x.size + b.watermark == Sum(b.free) + watermark
    ensures Balanced(Took(b, x, free, watermark))
  {
    PushSum(b.resv, x);
  }

  lemma TookAligned(b: Books, x: Region, free: seq<Region>, watermark: nat)
    requires Aligned(b) && Grained(x) && AllGrained(free) && watermark % GRAIN == 0
    ensures Aligned(Took(b, x, free, watermark))
  {
  }

  lemma FreeAfterGrained(free: seq<Region>, size: nat)
    requires AllGrained(free) && size % GRAIN == 0 && FirstFit(free, size, 0) < |free|
    ensures AllGrained(FreeAfter(free, size)) && Grained(Region(free[FirstFit(free, size, 0)].offset, size))
  {
    var i := FirstFit(free, size, 0);
    assert Grained(free[i]);
    if free[i].size != size {
      assert Grained(Region(free[i].offset + size, free[i].size - size));
    }
  }

  lemma CarveFromFree(b: Books, size: nat, offset: nat)
    requires Sound(b) && size % GRAIN == 0 && FirstFit(b.free, size, 0) < |b.free|
    requires offset == b.free[FirstFit(b.free, size, 0)].offset
    ensures var x, f := Region(offset, size), FreeAfter(b.free, size);
      Sound(Took(b, x, f, b.watermark)) && Grained(x) && x.End() <= b.watermark && FarFrom(x, b.resv) && FarFrom(x, f)
  {
    var x, f := Region(offset, size), FreeAfter(b.free, size);
    FreeAfterApart(b.free, size, b.watermark);
    FreeAfterSum(b.free, size);
    FreeAfterGrained(b.free, size);
    forall k | 0 <= k < |b.resv| ensures FarFrom(b.resv[k], f) && Apart(x, b.resv[k]) {
      FreeAfterFar(b.free, size, b.resv[k]);
    }
    TookSound(b, x, f, b.watermark);
    TookBalanced(b, x, f, b.watermark);
    TookAligned(b, x, f, b.watermark);
  }

  lemma GrainSum(a: nat, c: nat)
    requires a % GRAIN == 0 && c % GRAIN == 0
    ensures (a + c) % GRAIN == 0
  {
  }

  lemma AboveAll(s: seq<Region>, x: Region)
    requires AllBelow(s, x.offset)
    ensures FarFrom(x, s) && AllBelow(s, x.End())
  {
  }

  lemma CarveFromTop(b: Books, size: nat)
    requires Sound(b) && size % GRAIN == 0 && b.watermark + size <= LIMIT
    ensures var x := Region(b.watermark, size);
      Sound(Took(b, x, b.free, b.watermark + size)) && Grained(x) && FarFrom(x, b.resv) && FarFrom(x, b.free)
  {
    var x := Region(b.watermark, size);
    AboveAll(b.resv, x);
    AboveAll(b.free, x);
    GrainSum(b.watermark, size);
    TopSound(b, x, b.watermark + size);
  }

  lemma TopSound(b: Books, x: Region, watermark: nat)
    requires Sound(b) && x.offset == b.watermark && x.End() == watermark <= LIMIT
    requires Grained(x) && watermark % GRAIN == 0 && FarFrom(x, b.resv) && FarFrom(x, b.free)
    ensures Sound(Took(b, x, b.free, watermark))
  {
    TookSound(b, x, b.free, watermark);
    TookBalanced(b, x, b.free, watermark);
    TookAligned(b, x, b.free, watermark);
  }

  /** Unless it slips, a carve takes from the first block that fits, or else from the watermark. */
  lemma CarveIs(b: Books, size: nat)
    requires b.watermark % GRAIN == 0 && b.watermark <= LIMIT && size < U64 && !Slips(b, size)
    ensures var i := FirstFit(b.free, size, 0);
      && (i < |b.free| ==>
            && Place(b, size) == Some(b.free[i].offset)
            && Carve(b, size) == Took(b, Region(b.free[i].offset, size), FreeAfter(b.free, size), b.watermark))
      && (i == |b.free| && b.watermark + size <= LIMIT ==>
            && Place(b, size) == Some(b.watermark)
            && Carve(b, size) == Took(b, Region(b.watermark, size), b.free, b.watermark + size))
      && (i == |b.free| && b.watermark + size > LIMIT ==> Place(b, size) == None && Carve(b, size) == b)
  {
    AlignUpIs(b.watermark, GRAIN);
    WrapIs(b.watermark, size);
  }

  lemma WrapIs(a: nat, c: nat)
    requires a < U64 && c < U64
    ensures (a + c) % U64 == if a + c < U64 then a + c else a + c - U64
  {
  }

  /** A region carved is aligned, below the heap zone, and apart from everything reserved before and
      everything left free. */
  lemma CarveSound(b: Books, size: nat)
    requires Sound(b) && size % GRAIN == 0 && size < U64 && !Slips(b, size)
    ensures Sound(Carve(b, size))
    ensures Place(b, size).Some? ==>
      var x := Region(Place(b, size).value, size);
      Grained(x) && x.End() <= LIMIT && FarFrom(x, b.resv) && FarFrom(x, Carve(b, size).free)
  {
    var i := FirstFit(b.free, size, 0);
    CarveIs(b, size);
    if i < |b.free| {
      CarveFromFree(b, size, b.free[i].offset);
    } else if Place(b, size).Some? {
      CarveFromTop(b, size);
    }
  }

  /** What a request for size bytes gets: a 64 KB aligned place below the heap zone, with size bytes that share
      none with what was reserved before. */
  ghost predicate Fresh(resv: seq<Region>, offset: nat, size: nat) {
    && offset % 0x1_0000 == 0 && offset + size <= 0x7000_0000
    && forall i :: 0 <= i < |resv| ==> resv[i].offset + resv[i].size <= offset || offset + size <= resv[i].offset
  }

  lemma PlaceIsFresh(b: Books, size: nat)
    requires Sound(b) && size <= 0x7000_0000 && !Slips(b, AlignUp(size, GRAIN))
    ensures Place(b, AlignUp(size, GRAIN)).Some? ==> Fresh(b.resv, Place(b, AlignUp(size, GRAIN)).value, size)
  {
    AlignUpIs(size, GRAIN);
    CarveSound(b, AlignUp(size, GRAIN));
    if Place(b, AlignUp(size, GRAIN)).Some? {
      var x := Region(Place(b, AlignUp(size, GRAIN)).value, AlignUp(size, GRAIN));
      forall i | 0 <= i < |b.resv|
        ensures b.resv[i].offset + b.resv[i].size <= x.offset || x.offset + size <= b.resv[i].offset
      {
        assert Apart(x, b.resv[i]);
      }
    }
  }

  /** The first free block, by table index, that is large enough. */
  ghost predicate FirstThatFits(free: seq<Region>, size: nat, i: nat) {
    i < |free| && free[i].size >= size && forall j :: 0 <= j < i ==> free[j].size < size
  }

  /** A carve in full: the first free block that fits is split or taken out, else the watermark rises, else
      there is no room; the region is recorded, or lost to the books when the table has 4096 entries. */
  lemma CarveCases(b: Books, size: nat)
    requires Sound(b) && size % GRAIN == 0 && size < U64 && !Slips(b, size)
    ensures var b', r := Carve(b, size), Place(b, size); var fits := exists i: nat :: FirstThatFits(b.free, size, i);
      && (forall i: nat :: FirstThatFits(b.free, size, i) ==>
            && r == Some(b.free[i].offset) && b'.watermark == b.watermark
            && if b.free[i].size == size then multiset(b'.free) == multiset(b.free) - multiset{b.free[i]}
               else b'.free == b.free[i := Region(b.free[i].offset + size, b.free[i].size - size)])
      && (!fits && b.watermark + size <= LIMIT ==>
            r == Some(b.watermark) && b'.watermark == b.watermark + size && b'.free == b.free)
      && (!fits && b.watermark + size > LIMIT ==> r == None && b' == b)
      && (r.Some? ==> if |b.resv| < 4096 then b'.resv == b.resv + [Region(r.value, size)] && b'.leaked == b.leaked
                      else b'.resv == b.resv && b'.leaked == b.leaked + size)
  {
    forall i: nat | FirstThatFits(b.free, size, i)
      ensures Place(b, size) == Some(b.free[i].offset) && Carve(b, size).watermark == b.watermark
      ensures if b.free[i].size == size then multiset(Carve(b, size).free) == multiset(b.free) - multiset{b.free[i]}
              else Carve(b, size).free == b.free[i := Region(b.free[i].offset + size, b.free[i].size - size)]
    {
      CarveFitting(b, size, i);
    }
    if !exists i: nat :: FirstThatFits(b.free, size, i) {
      CarveOnTop(b, size);
    }
    CarveRecords(b, size);
  }

  lemma CarveFitting(b: Books, size: nat, i: nat)
    requires FirstThatFits(b.free, size, i)
    ensures Place(b, size) == Some(b.free[i].offset) && Carve(b, size).watermark == b.watermark
    ensures if b.free[i].size == size then multiset(Carve(b, size).free) == multiset(b.free) - multiset{b.free[i]}
            else Carve(b, size).free == b.free[i := Region(b.free[i].offset + size, b.free[i].size - size)]
  {
    var k := FirstFit(b.free, size, 0);
    assert !(k < i) && !(i < k);
    SwapRemoveTakes(b.free, i);
  }

  lemma CarveOnTop(b: Books, size: nat)
    requires Sound(b) && size % GRAIN == 0 && size < U64 && !Slips(b, size)
    requires forall i: nat :: !FirstThatFits(b.free, size, i)
    ensures var b', r := Carve(b, size), Place(b, size);
      if b.watermark + size <= LIMIT
      then r == Some(b.watermark) && b'.watermark == b.watermark + size && b'.free == b.free
      else r == None && b' == b
  {
    CarveIs(b, size);
    var k := FirstFit(b.free, size, 0);
    assert k < |b.free| ==> FirstThatFits(b.free, size, k);
  }

  lemma CarveRecords(b: Books, size: nat)
    ensures var b', r := Carve(b, size), Place(b, size);
      r.Some? ==> if |b.resv| < 4096 then b'.resv == b.resv + [Region(r.value, size)] && b'.leaked == b.leaked
                  else b'.resv == b.resv && b'.leaked == b.leaked + size
  {
  }

  lemma SwapRemoveTakes(s: seq<Region>, i: nat)
    requires i < |s|
    ensures multiset(SwapRemove(s, i)) == multiset(s) - multiset{s[i]}
  {
    var last := s[|s| - 1];
    SetTakes(s, i, last);
    DropTakes(s[i := last]);
  }

  lemma SetTakes(s: seq<Region>, i: nat, x: Region)
    requires i < |s|
    ensures multiset(s[i := x]) == multiset(s) - multiset{s[i]} + multiset{x}
  {
  }

  lemma DropTakes(s: seq<Region>)
    requires s != []
    ensures multiset(s[..|s| - 1]) == multiset(s) - multiset{s[|s| - 1]}
  {
    assert s == s[..|s| - 1] + [s[|s| - 1]];
  }

  /** A carve keeps the books sound exactly when it does not slip. */
  lemma CarveSoundIff(b: Books, size: nat)
    requires Sound(b) && size % GRAIN == 0 && size < U64
    ensures Sound(Carve(b, size)) <==> !Slips(b, size)
  {
    if Slips(b, size) {
      AlignUpIs(b.watermark, GRAIN);
      WrapIs(b.watermark, size);
      SlippedBooks(b, size);
    } else {
      CarveSound(b, size);
    }
  }

  /** A slipped region ends above the watermark, and its bytes are not accounted for. */
  lemma SlippedBooks(b: Books, size: nat)
    requires Sound(b) && size < U64 && Slips(b, size) && AlignUp(b.watermark, GRAIN) == b.watermark
    requires (b.watermark + size) % U64 == b.watermark + size - U64
    ensures !Balanced(Carve(b, size))
  {
    PushSum(b.resv, Region(b.watermark, size));
  }

  /** Inputs that slip: with nothing free and the watermark above zero, a request for all the rest of the 64-bit
      range is placed at the watermark and sends the watermark back to zero, below the live reservations. */
  lemma CarveThatSlips(b: Books, size: nat)
    requires Sound(b) && b.free == [] && 0 < b.watermark && size == 0x1_0000_0000_0000_0000 - b.watermark
    ensures size % GRAIN == 0 && Slips(b, size) && Place(b, size) == Some(b.watermark)
    ensures Carve(b, size).watermark == 0 && !Sound(Carve(b, size))
  {
    AlignUpIs(b.watermark, GRAIN);
    WrapIs(b.watermark, size);
    RestIsGrained(b.watermark);
    CarveSoundIff(b, size);
  }

  /** The first carve from unused books leads to such books. */
  lemma FirstCarve(b: Books, size: nat)
    requires Sound(b) && b.free == [] && b.resv == [] && size % GRAIN == 0 && b.watermark + size <= LIMIT
    ensures Carve(b, size) == Books(b.watermark + size, [Region(b.watermark, size)], [], b.leaked)
    ensures Sound(Carve(b, size))
  {
    AlignUpIs(b.watermark, GRAIN);
    CarveIs(b, size);
    CarveSound(b, size);
  }

  lemma RestIsGrained(watermark: nat)
    requires watermark % GRAIN == 0 && watermark <= U64
    ensures (U64 - watermark) % GRAIN == 0
  {
  }

  lemma FreedDisjoint(b: Books, i: nat)
    requires Disjoint(b) && i < |b.resv|
    ensures Disjoint(Freed(b, i))
  {
    var x, resv := b.resv[i], SwapRemove(b.resv, i);
    SwapRemoveApart(b.resv, i);
    PushApart(b.free, x, b.watermark);
    forall k | 0 <= k < |resv| ensures FarFrom(resv[k], Pushed(b.free, x)) {
      assert FarFrom(b.resv[if k == i then |b.resv| - 1 else k], b.free) && Apart(x, resv[k]);
    }
  }

  lemma FreedBalanced(b: Books, i: nat)
    requires Balanced(b) && i < |b.resv|
    ensures Balanced(Freed(b, i))
  {
    SumSwapRemove(b.resv, i);
    PushSum(b.free, b.resv[i]);
  }

  lemma FreedAligned(b: Books, i: nat)
    requires Aligned(b) && i < |b.resv|
    ensures Aligned(Freed(b, i))
  {
    var resv := SwapRemove(b.resv, i);
    forall k | 0 <= k < |resv| ensures Grained(resv[k]) {
      assert Grained(b.resv[if k == i then |b.resv| - 1 else k]);
    }
  }

  lemma ReleaseSound(b: Books, offset: nat)
    requires Sound(b)
    ensures Sound(Release(b, offset))
  {
    var i := FindOffset(b.resv, offset, 0);
    if i < |b.resv| {
      FreedDisjoint(b, i);
      FreedBalanced(b, i);
      FreedAligned(b, i);
    }
  }

  /** The test against the heap zone, done in 64 bits, is right exactly when the sum does not wrap;
      a request large enough to wrap it is always let through. */
  lemma LimitTestRightIff(offset: nat, size: nat)
    requires offset <= LIMIT && size < 0x1_0000_0000_0000_0000
    ensures ((offset + size) % U64 <= LIMIT <==> offset + size <= LIMIT) <==>
      offset + size < 0x1_0000_0000_0000_0000
  {
    if offset + size >= U64 {
      assert (offset + size) % U64 == offset + size - U64;
    }
  }

  // ---------- runs ----------

  datatype Op = DoCarve(size: nat) | DoRelease(offset: nat)

  function Next(b: Books, op: Op): Books {
    match op
    case DoCarve(size) => Carve(b, AlignUp(size, GRAIN))
    case DoRelease(offset) => Release(b, offset)
  }

  function Run(b: Books, ops: seq<Op>): Books
    decreases |ops|
  {
    if ops == [] then b
    else
      Next(Run(b, ops[..|ops| - 1]), ops[|ops| - 1])
  }

  /** Step i of the run is a carve of 64-bit size that does not slip, or a release. */
  predicate Holds(b: Books, ops: seq<Op>, i: nat)
    requires i < |ops|
  {
    ops[i].DoCarve? ==> ops[i].size < U64 && !Slips(Run(b, ops[..i]), AlignUp(ops[i].size, GRAIN))
  }

  /** Every run of carves and releases, from an empty arena on, keeps the books sound as long as no
      carve slips. */
  lemma {:induction false} AlwaysSound(ops: seq<Op>)
    requires forall i :: 0 <= i < |ops| ==> Holds(Books(0, [], [], 0), ops, i)
    ensures Sound(Run(Books(0, [], [], 0), ops))
    decreases |ops|
  {
    if ops == [] {
    } else {
      var n := |ops| - 1;
      forall i | 0 <= i < n ensures Holds(Books(0, [], [], 0), ops[..n], i) {
        assert Holds(Books(0, [], [], 0), ops, i) && ops[..n][..i] == ops[..i];
      }
      AlwaysSound(ops[..n]);
      assert Holds(Books(0, [], [], 0), ops, n);
      NextSound(Run(Books(0, [], [], 0), ops[..n]), ops[n]);
    }
  }

  lemma NextSound(a: Books, op: Op)
    requires Sound(a) && (op.DoCarve? ==> op.size < U64 && !Slips(a, AlignUp(op.size, GRAIN)))
    ensures Sound(Next(a, op))
  {
    if op.DoCarve? {
      AlignedFits(op.size);
      CarveSound(a, AlignUp(op.size, GRAIN));
    } else {
      ReleaseSound(a, op.offset);
    }
  }

  lemma AlignedFits(size: nat)
    ensures AlignUp(size, GRAIN) < U64
  {
  }

  // ---------- pages ----------

  predicate Between(p: nat, first: nat, end: nat) {
    first <= p < end
  }

  function Span(first: nat, end: nat): (s: set<nat>)
    ensures forall p :: p in s <==> first <= p < end
  {
    set p: nat | first <= p < end && Between(p, first, end)
  }

  /** The pages that the operating system commits for a byte range. */
  function Touched(offset: nat, size: nat): set<nat> {
    if size == 0 then {} else Span(offset / PAGE_SIZE, (offset + size + PAGE_SIZE - 1) / PAGE_SIZE)
  }

  /** The pages that the hook marks for it. */
  function Marked(offset: nat, size: nat): set<nat> {
    Span(offset / PAGE_SIZE, offset / PAGE_SIZE + (size + PAGE_SIZE - 1) / PAGE_SIZE)
  }

  /** From an aligned start on, each byte of the range lies in a marked page. */
  lemma MarksCover(offset: nat, size: nat)
    requires offset % 0x1_0000 == 0
    ensures forall a: nat :: offset <= a < offset + size ==> a / 4096 in Marked(offset, size)
  {
    var first, n := offset / 4096, (size + 4095) / 4096;
    WholePages(offset, size);
    forall a: nat | offset <= a < offset + size ensures a / 4096 in Marked(offset, size) {
      PageWithin(first, n, a);
    }
  }

  lemma WholePages(offset: nat, size: nat)
    requires offset % 0x1_0000 == 0
    ensures offset == offset / 4096 * 4096 && size <= (size + 4095) / 4096 * 4096
  {
    PageSplit(offset);
    PageSplit(size + 4095);
    var k := offset / 0x1_0000;
    assert offset == 4096 * (16 * k);
    PageOf(offset, 16 * k);
  }

  lemma PageSplit(n: nat)
    ensures n / 4096 * 4096 <= n < n / 4096 * 4096 + 4096
  {
  }

  lemma PageOf(n: nat, k: nat)
    requires n == 4096 * k
    ensures n / 4096 == k
  {
  }

  lemma PageWithin(first: nat, n: nat, a: nat)
    requires first * 4096 <= a < first * 4096 + n * 4096
    ensures first <= a / 4096 < first + n
  {
    var q := a / 4096;
    assert q * 4096 <= a < q * 4096 + 4096;
  }

  /** Touched are the pages that share a byte with the range. */
  lemma TouchedIs(offset: nat, size: nat, p: nat)
    ensures p in Touched(offset, size) <==> exists a: nat :: offset <= a < offset + size && a / PAGE_SIZE == p
  {
    if p in Touched(offset, size) {
      var a := if p * PAGE_SIZE < offset then offset else p * PAGE_SIZE;
      assert offset <= a < offset + size && a / PAGE_SIZE == p;
    }
  }

  /** The marks are complete exactly when the range does not run past the pages its length alone would
      fill, which is always so for a page-aligned start. */
  lemma MarksCompleteIff(offset: nat, size: nat)
    requires size > 0
    ensures Touched(offset, size) == Marked(offset, size) <==> offset % PAGE_SIZE + (size - 1) % PAGE_SIZE < PAGE_SIZE
    ensures Marked(offset, size) <= Touched(offset, size)
    ensures offset % PAGE_SIZE == 0 ==> Touched(offset, size) == Marked(offset, size)
  {
    var first, count := offset / PAGE_SIZE, (size + PAGE_SIZE - 1) / PAGE_SIZE;
    PagesOf(offset, size);
    if offset % PAGE_SIZE + (size - 1) % PAGE_SIZE >= PAGE_SIZE {
      assert first + count in Touched(offset, size) && first + count !in Marked(offset, size);
    }
  }

  /** A concrete commit that spills: two bytes across a page boundary, of which only the first page is marked. */
  lemma CommitThatSpills()
    ensures Touched(PAGE_SIZE - 1, 2) == {0, 1} && Marked(PAGE_SIZE - 1, 2) == {0}
  {
    assert (PAGE_SIZE - 1) / PAGE_SIZE == 0;
  }

  lemma PagesOf(offset: nat, size: nat)
    requires size > 0
    ensures var end, count := (offset + size + PAGE_SIZE - 1) / PAGE_SIZE, (size + PAGE_SIZE - 1) / PAGE_SIZE;
      end == offset / PAGE_SIZE + count + if offset % PAGE_SIZE + (size - 1) % PAGE_SIZE < PAGE_SIZE then 0 else 1
  {
    var q, m, k, n := offset / PAGE_SIZE, offset % PAGE_SIZE, (size - 1) / PAGE_SIZE, (size - 1) % PAGE_SIZE;
    assert offset == q * PAGE_SIZE + m && size - 1 == k * PAGE_SIZE + n;
    assert (size + PAGE_SIZE - 1) / PAGE_SIZE == k + 1;
    if m + n < PAGE_SIZE {
      assert offset + size + PAGE_SIZE - 1 == (q + k + 1) * PAGE_SIZE + (m + n);
    } else {
      assert offset + size + PAGE_SIZE - 1 == (q + k + 2) * PAGE_SIZE + (m + n - PAGE_SIZE);
    }
  }

  /** The page is in no region anyone can hold. */
  ghost predicate Vacant(b: Books, p: nat) {
    p < ZONE_START && (b.watermark <= p * PAGE_SIZE || exists i :: 0 <= i < |b.free| && b.free[i].Has(p))
  }

  ghost predicate IsZero(mem: Memory, p: nat) {
    p < MAX_PAGES && mem[p] == ZeroPage()
  }

  /** Pages never committed read zero. */
  ghost predicate UnusedZero(mem: Memory, os: set<nat>) {
    forall p: nat :: p < MAX_PAGES && p !in os ==> IsZero(mem, p)
  }

  /** What nobody holds reads zero. */
  ghost predicate VacantZero(mem: Memory, b: Books) {
    forall p: nat :: Vacant(b, p) ==> IsZero(mem, p)
  }

  ghost predicate ReadsZero(mem: Memory, x: Region) {
    forall p: nat :: x.Has(p) ==> IsZero(mem, p)
  }

  /** A carved region reads zero, and what is left vacant still does. */
  lemma CarveZero(mem: Memory, b: Books, size: nat)
    requires Sound(b) && size % GRAIN == 0 && size < U64 && !Slips(b, size) && VacantZero(mem, b)
    ensures VacantZero(mem, Carve(b, size))
    ensures Place(b, size).Some? ==> ReadsZero(mem, Region(Place(b, size).value, size))
  {
    StillVacant(b, size);
    CarveSound(b, size);
    if Place(b, size).Some? {
      var x := Region(Place(b, size).value, size);
      forall p: nat | x.Has(p) ensures IsZero(mem, p) {
        assert p < ZONE_START && Vacant(b, p);
      }
    }
  }

  lemma ReleaseZero(mem: Memory, mem': Memory, os: set<nat>, committed: set<nat>, b: Books, offset: nat)
    requires Sound(b) && VacantZero(mem, b) && UnusedZero(mem, os) && os <= committed
    requires Scrubbed(mem, mem', committed, b, offset)
    ensures VacantZero(mem', Release(b, offset)) && UnusedZero(mem', os)
  {
    var i := FindOffset(b.resv, offset, 0);
    ReleasedVacant(b, offset);
    forall p: nat | p < MAX_PAGES ensures IsZero(mem, p) ==> IsZero(mem', p) {
    }
    forall p: nat | Vacant(Release(b, offset), p) ensures IsZero(mem', p) {
      if !Vacant(b, p) {
        assert p !in committed ==> IsZero(mem, p);
      }
    }
  }

  /** The committed pages of region x zeroed, and nothing else touched. */
  ghost predicate Zeroed(mem: Memory, mem': Memory, committed: set<nat>, x: Region) {
    forall p: nat :: p < MAX_PAGES ==> mem'[p] == if x.Has(p) && p in committed then ZeroPage() else mem[p]
  }

  /** The first reservation, by table index, at offset. */
  ghost predicate FirstAt(resv: seq<Region>, offset: nat, i: nat) {
    i < |resv| && resv[i].offset == offset && forall j :: 0 <= j < i ==> resv[j].offset != offset
  }

  /** The same of the reservation at offset, if there is one. */
  ghost predicate Scrubbed(mem: Memory, mem': Memory, committed: set<nat>, b: Books, offset: nat) {
    var i := FindOffset(b.resv, offset, 0);
    if i < |b.resv| then Zeroed(mem, mem', committed, b.resv[i]) else mem' == mem
  }

  lemma ResvFits(b: Books, i: nat)
    requires Sound(b) && i < |b.resv|
    ensures Grained(b.resv[i]) && b.resv[i].End() <= LIMIT
  {
  }

  predicate Empty(b: Books) {
    b.watermark == 0 && |b.resv| == |b.free| == 0 && b.leaked == 0
  }

  lemma EmptyIsSound(b: Books)
    requires Empty(b)
    ensures Sound(b)
  {
  }

  lemma EmptyIsZero(m: Memory, b: Books)
    requires UnusedZero(m, {})
    ensures VacantZero(m, b)
  {
    forall p: nat | Vacant(b, p) ensures IsZero(m, p) {
      assert p !in {};
    }
  }

  class Carver {
    var watermark: nat
    var resv: seq<Region>
    var free: seq<Region>
    var committed: set<nat>
    var committedCount: nat
    var mem: Memory
    ghost var leaked: nat
    ghost var os: set<nat>

    ghost function Now(): Books
      reads `watermark, `resv, `free, `leaked
    {
      Books(watermark, resv, free, leaked)
    }

    ghost predicate Valid()
      reads `watermark, `resv, `free, `leaked, `committed, `committedCount, `os
    {
      && Sound(Now()) && |resv| <= TABLE && |free| <= TABLE
      && committedCount == |committed| && forall p :: p in os ==> p < MAX_PAGES
    }

    /** Every committed page is marked, and what nobody holds reads zero. */
    ghost predicate Clean()
      reads this
    {
      os <= committed && UnusedZero(mem, os) && VacantZero(mem, Now())
    }

    /** m is the arena as the operating system first reserves it. */
    constructor (m: Memory)
      requires UnusedZero(m, {})
      ensures Valid() && Clean()
      ensures Empty(Now()) && committed == os == {} && mem == m
    {
      watermark, leaked, mem := 0, 0, m;
      resv, free := seq(0, _ => Region(0, 0)), seq(0, _ => Region(0, 0));
      committed, committedCount, os := {}, 0, {};
      new;
      EmptyIsSound(Now());
      EmptyIsZero(m, Now());
    }

    method AllocFromFreeList(size: nat) returns (r: Option<nat>)
      modifies `free
      ensures var i := FirstFit(old(free), size, 0);
        r == (if i < |old(free)| then Some(old(free)[i].offset) else None) && free == FreeAfter(old(free), size)
    {
      var i := 0;
      while i < |free|
        invariant i <= |free| && free == old(free) && FirstFit(free, size, 0) == FirstFit(free, size, i)
      {
        if free[i].size >= size {
          var offset := free[i].offset;
          if free[i].size == size {
            var last := free[|free| - 1];
            free := free[i := last];
            free := free[..|free| - 1];
          } else {
            free := free[i := Region(free[i].offset + size, free[i].size - size)];
          }
          return Some(offset);
        }
        i := i + 1;
      }
      r := None;
    }

    /** The part that both entry points share. */
    method CarveRegion(size: nat) returns (r: Option<nat>)
      modifies `watermark, `resv, `free, `leaked
      ensures Now() == Carve(old(Now()), size) && r == Place(old(Now()), size)
    {
      r := AllocFromFreeList(size);
      if r == None {
        var offset := AlignUp(watermark, GRAIN);
        if (offset + size) % U64 > LIMIT {
          return None;
        }
        watermark := (offset + size) % U64;
        r := Some(offset);
      }
      if |resv| < TABLE {
        resv := resv + [Region(r.value, size)];
      } else {
        leaked := leaked + size;
      }
    }

    /** Marks the pages of a range that was just committed. */
    method MarkCommitted(offset: nat, size: nat)
      requires committedCount == |committed|
      modifies `committed, `committedCount
      ensures committed == old(committed) + Marked(offset, size) && committedCount == |committed|
    {
      MarkPages(offset / PAGE_SIZE, (size + PAGE_SIZE - 1) / PAGE_SIZE);
    }

    method MarkPages(first: nat, count: nat)
      requires committedCount == |committed|
      modifies `committed, `committedCount
      ensures committed == old(committed) + Span(first, first + count) && committedCount == |committed|
    {
      for p := 0 to count
        invariant forall q :: q in committed <==> q in old(committed) || Between(q, first, first + p)
        invariant committedCount == |committed|
      {
        MarkPage(first + p);
      }
    }

    method MarkPage(page: nat)
      requires committedCount == |committed|
      modifies `committed, `committedCount
      ensures committed == old(committed) + {page} && committedCount == |committed|
    {
      if page !in committed {
        committed := committed + {page};
        committedCount := committedCount + 1;
      }
    }

    /** A carve under the invariants: the region is aligned, within bounds, and reads zero. */
    method CarveZeroed(size: nat) returns (r: Option<nat>)
      requires Valid() && size % GRAIN == 0 && size < U64 && !Slips(Now(), size)
      modifies `watermark, `resv, `free, `leaked
      ensures Valid() && Now() == Carve(old(Now()), size) && r == Place(old(Now()), size)
      ensures r.Some? ==> Grained(Region(r.value, size)) && r.value + size <= LIMIT
      ensures old(Clean()) ==> Clean() && (r.Some? ==> ReadsZero(mem, Region(r.value, size)))
    {
      CarveSound(Now(), size);
      if Clean() {
        CarveZero(mem, Now(), size);
      }
      r := CarveRegion(size);
    }

    /** Commits the start of a region just carved. */
    method CommitFresh(offset: nat, size: nat, ghost x: Region)
      requires Valid() && 0 < size <= x.size && offset == x.offset && Grained(x) && x.End() <= LIMIT
      modifies `committed, `committedCount, `os
      ensures Valid() && (old(Clean()) ==> Clean())
      ensures committed == old(committed) + Marked(offset, size)
      ensures os == old(os) + Touched(offset, size)
    {
      MarksCompleteIff(offset, size);
      TouchedInside(offset, size, x.size);
      os := os + Touched(offset, size);
      MarkCommitted(offset, size);
    }

    /** A carve of the aligned size, with its first size bytes committed if asked for. */
    method ReserveAndCommit(aligned: nat, size: nat, commit: bool, osOk: bool) returns (r: Option<nat>)
      requires Valid() && aligned % GRAIN == 0 && aligned < U64 && !Slips(Now(), aligned)
      requires commit && osOk ==> 0 < size <= aligned
      modifies `watermark, `resv, `free, `leaked, `committed, `committedCount, `os
      ensures Valid() && Now() == Carve(old(Now()), aligned)
      ensures r == if commit && !osOk then None else Place(old(Now()), aligned)
      ensures committed == if commit && r.Some? then old(committed) + Marked(r.value, size) else old(committed)
      ensures os == if commit && r.Some? then old(os) + Touched(r.value, size) else old(os)
      ensures old(Clean()) ==> Clean()
      ensures r.Some? && old(Clean()) ==> ReadsZero(mem, Region(r.value, aligned))
    {
      r := CarveZeroed(aligned);
      if commit {
        if r.Some? && osOk {
          CommitFresh(r.value, size, Region(r.value, aligned));
        } else {
          r := None;
        }
      }
    }

    /** A new allocation, committed if asked for; osOk is the outcome of that commit, which can succeed
        only within the arena. When there is no room the request goes to the operating system. */
    method VirtualAlloc(size: nat, commit: bool, osOk: bool) returns (r: Option<nat>)
      requires Valid() && size < U64 && !Slips(Now(), AlignUp(size, GRAIN)) && (osOk ==> 0 < size <= LIMIT)
      modifies `watermark, `resv, `free, `leaked, `committed, `committedCount, `os
      ensures Valid() && Now() == Carve(old(Now()), AlignUp(size, GRAIN))
      ensures r == if commit && !osOk then None else Place(old(Now()), AlignUp(size, GRAIN))
      ensures committed == if commit && r.Some? then old(committed) + Marked(r.value, size) else old(committed)
      ensures os == if commit && r.Some? then old(os) + Touched(r.value, size) else old(os)
      ensures old(Clean()) ==> Clean()
      ensures r.Some? && old(Clean()) ==> ReadsZero(mem, Region(r.value, AlignUp(size, GRAIN)))
      ensures r.Some? && size <= 0x7000_0000 ==> Fresh(old(resv), r.value, size)
      ensures r.Some? && commit && 0 < size <= 0x7000_0000 ==>
        forall a: nat :: r.value <= a < r.value + size ==> a / 4096 in committed
    {
      AlignedFits(size);
      if size <= 0x7000_0000 {
        PlaceIsFresh(Now(), size);
      }
      if osOk {
        AlignUpIs(size, GRAIN);
      }
      r := ReserveAndCommit(AlignUp(size, GRAIN), size, commit, osOk);
      if r.Some? && commit && 0 < size <= 0x7000_0000 {
        MarksCover(r.value, size);
      }
    }

    /** A region for the allocator, committed in full. */
    method CarveDonation(size: nat, osOk: bool) returns (r: Option<nat>)
      requires Valid() && size < U64 && !Slips(Now(), AlignUp(size, GRAIN)) && (osOk ==> size <= LIMIT)
      modifies `watermark, `resv, `free, `leaked, `committed, `committedCount, `os
      ensures Valid() && Now() == if size == 0 then old(Now()) else Carve(old(Now()), AlignUp(size, GRAIN))
      ensures r == if size == 0 || !osOk then None else Place(old(Now()), AlignUp(size, GRAIN))
      ensures committed == if r.Some? then old(committed) + Marked(r.value, AlignUp(size, GRAIN)) else old(committed)
      ensures os == if r.Some? then old(os) + Touched(r.value, AlignUp(size, GRAIN)) else old(os)
      ensures old(Clean()) ==> Clean()
      ensures r.Some? && old(Clean()) ==> ReadsZero(mem, Region(r.value, AlignUp(size, GRAIN)))
      ensures r.Some? ==> Fresh(old(resv), r.value, size)
      ensures r.Some? ==> forall a: nat :: r.value <= a < r.value + size ==> a / 4096 in committed
    {
      r := None;
      if size != 0 {
        AlignedFits(size);
        if osOk {
          AlignUpIs(size, GRAIN);
          PlaceIsFresh(Now(), size);
        }
        r := ReserveAndCommit(AlignUp(size, GRAIN), AlignUp(size, GRAIN), true, osOk);
        if r.Some? {
          MarksCover(r.value, AlignUp(size, GRAIN));
        }
      }
    }

    /** A commit inside the arena. It leaves every committed page marked exactly when the range starts
        early enough in its first page. */
    method CommitRange(offset: nat, size: nat, osOk: bool)
      requires Valid() && (osOk ==> size > 0 && offset + size <= MAX_PAGES * PAGE_SIZE)
      modifies `committed, `committedCount, `os
      ensures Valid()
      ensures committed == old(committed) + if osOk then Marked(offset, size) else {}
      ensures os == old(os) + if osOk then Touched(offset, size) else {}
      ensures old(Clean()) && osOk && offset % PAGE_SIZE + (size - 1) % PAGE_SIZE < PAGE_SIZE ==> Clean()
    {
      if osOk {
        MarksCompleteIff(offset, size);
        os := os + Touched(offset, size);
        MarkCommitted(offset, size);
      }
    }

    method ZeroPages(first: nat, end: nat)
      requires end <= MAX_PAGES
      modifies `mem
      ensures forall p :: 0 <= p < MAX_PAGES ==>
        mem[p] == if first <= p < end && p in committed then ZeroPage() else old(mem)[p]
    {
      var p := first;
      while p < end
        invariant first <= p && (first <= end ==> p <= end)
        invariant forall q :: 0 <= q < MAX_PAGES ==>
          mem[q] == if first <= q < p && q < end && q in committed then ZeroPage() else old(mem)[q]
      {
        if p in committed {
          mem := mem[p := ZeroPage()];
        }
        p := p + 1;
      }
    }

    /** A decommit keeps the pages committed and zeroes them. */
    method Decommit(offset: nat, size: nat)
      requires Valid() && offset + size <= MAX_PAGES * PAGE_SIZE
      modifies `mem
      ensures Valid() && (old(Clean()) ==> Clean())
      ensures forall p :: 0 <= p < MAX_PAGES ==>
        mem[p] == if p in Marked(offset, size) && p in committed then ZeroPage() else old(mem)[p]
    {
      MarkedInside(offset, size);
      ZeroPages(offset / PAGE_SIZE, offset / PAGE_SIZE + (size + PAGE_SIZE - 1) / PAGE_SIZE);
    }

    method FindReservation(offset: nat) returns (i: nat)
      ensures i == FindOffset(resv, offset, 0)
    {
      i := 0;
      while i < |resv| && resv[i].offset != offset
        invariant i <= |resv| && FindOffset(resv, offset, 0) == FindOffset(resv, offset, i)
      {
        i := i + 1;
      }
    }

    method MoveToFreeList(i: nat, offset: nat)
      requires i < |resv| && i == FindOffset(resv, offset, 0)
      modifies `resv, `free, `leaked
      ensures Now() == Release(old(Now()), offset)
    {
      var r := resv[i];
      if |free| < TABLE {
        free := free + [Region(offset, r.size)];
      } else {
        leaked := leaked + r.size;
      }
      var last := resv[|resv| - 1];
      resv := resv[i := last];
      resv := resv[..|resv| - 1];
      assert Region(offset, r.size) == r;
    }

    /** A release zeroes the region and puts it on the free list; an unknown offset is ignored. */
    method VirtualRelease(offset: nat)
      requires Valid()
      modifies `mem, `resv, `free, `leaked
      ensures Valid() && Now() == Release(old(Now()), offset)
      ensures old(Clean()) ==> Clean()
      ensures Scrubbed(old(mem), mem, committed, old(Now()), offset)
      ensures watermark == old(watermark)
      ensures (forall i :: 0 <= i < |old(resv)| ==> old(resv)[i].offset != offset) ==>
        resv == old(resv) && free == old(free) && leaked == old(leaked) && mem == old(mem)
      ensures forall i: nat :: FirstAt(old(resv), offset, i) ==> var x := old(resv)[i];
        && multiset(resv) == multiset(old(resv)) - multiset{x}
        && (if |old(free)| < 4096 then free == old(free) + [x] && leaked == old(leaked)
            else free == old(free) && leaked == old(leaked) + x.size)
        && forall p :: 0 <= p < MAX_PAGES ==>
             mem[p] == if x.offset <= p * PAGE_SIZE < x.offset + x.size && p in committed then ZeroPage()
                      else old(mem)[p]
    {
      var i := FindReservation(offset);
      if i < |resv| {
        SwapRemoveTakes(resv, i);
        ReleaseFound(i, offset);
      }
    }

    /** A region released while the free list has room, and no free block is as large, is handed out again
        by the next request for its size. */
    method ReleaseThenAlloc(offset: nat, ghost i: nat, size: nat) returns (r: Option<nat>)
      requires Valid() && FirstAt(resv, offset, i) && size == resv[i].size
      requires |free| < 4096 && forall k :: 0 <= k < |free| ==> free[k].size < size
      modifies this
      ensures Valid() && r == Some(offset) && watermark == old(watermark)
      ensures free == old(free) && multiset(resv) == multiset(old(resv)) && leaked == old(leaked)
    {
      Reused(Now(), i);
      AlignUpIs(size, GRAIN);
      VirtualRelease(offset);
      r := VirtualAlloc(size, false, false);
    }

    method ReleaseFound(i: nat, offset: nat)
      requires Valid() && i < |resv| && i == FindOffset(resv, offset, 0)
      modifies `mem, `resv, `free, `leaked
      ensures Valid() && Now() == Release(old(Now()), offset)
      ensures old(Clean()) ==> Clean()
      ensures Scrubbed(old(mem), mem, committed, old(Now()), offset)
    {
      ghost var b, m := Now(), mem;
      ScrubReservation(i);
      if old(Clean()) {
        ReleaseZero(m, mem, os, committed, b, offset);
      }
      ReleaseSound(b, offset);
      MoveToFreeList(i, offset);
      assert Now() == Release(b, offset);
    }

    method ScrubReservation(i: nat)
      requires Valid() && i < |resv|
      modifies `mem
      ensures Zeroed(old(mem), mem, committed, resv[i])
    {
      ResvFits(Now(), i);
      ScrubRegion(resv[i]);
    }

    method ScrubRegion(r: Region)
      requires Grained(r) && r.End() <= LIMIT
      modifies `mem
      ensures Zeroed(old(mem), mem, committed, r)
    {
      forall p: nat ensures r.Has(p) <==> r.offset / PAGE_SIZE <= p < (r.offset + r.size) / PAGE_SIZE {
        RegionPage(r, p);
      }
      RegionPage(r, 0);
      ZeroPages(r.offset / PAGE_SIZE, (r.offset + r.size) / PAGE_SIZE);
    }

    /** A holder writes a page of what it holds. */
    method WritePage(p: nat, data: Page)
      requires Valid() && p in os && !Vacant(Now(), p)
      modifies `mem
      ensures Valid() && mem == old(mem)[p := data] && (old(Clean()) ==> Clean())
    {
      mem := mem[p := data];
    }
  }

  /** After the release of reservation i, and a carve of its size. */
  lemma Reused(b: Books, i: nat)
    requires Sound(b) && i < |b.resv| <= TABLE && |b.free| < TABLE && FirstAt(b.resv, b.resv[i].offset, i)
    requires forall k :: 0 <= k < |b.free| ==> b.free[k].size < b.resv[i].size
    ensures var x := b.resv[i]; var b1 := Release(b, x.offset); var b2 := Carve(b1, x.size);
      && x.size < U64 && x.size % GRAIN == 0 && !Slips(b1, x.size) && Place(b1, x.size) == Some(x.offset)
      && b2.watermark == b.watermark && b2.leaked == b.leaked
      && b2.free == b.free && b2.resv == b1.resv + [x]
  {
    var x := b.resv[i];
    var b1 := Release(b, x.offset);
    ResvFits(b, i);
    ReleaseSound(b, x.offset);
    assert FindOffset(b.resv, x.offset, 0) == i;
    assert b1.free == b.free + [x] && FirstFit(b1.free, x.size, 0) == |b.free|;
    CarveIs(b1, x.size);
  }

  /** What is vacant after a carve was vacant before, and so was all of the region carved. */
  lemma StillVacant(b: Books, size: nat)
    requires Sound(b) && size % GRAIN == 0 && size < U64 && !Slips(b, size)
    ensures forall p :: Vacant(Carve(b, size), p) ==> Vacant(b, p)
    ensures Place(b, size).Some? ==>
      forall p: nat :: p < ZONE_START && Region(Place(b, size).value, size).Has(p) ==> Vacant(b, p)
  {
    CarveIs(b, size);
    var i := FirstFit(b.free, size, 0);
    if i < |b.free| {
      var x, f := Region(b.free[i].offset, size), FreeAfter(b.free, size);
      forall p: nat | Vacant(Took(b, x, f, b.watermark), p) ensures Vacant(b, p) {
        if k :| 0 <= k < |f| && f[k].Has(p) {
          WasFree(b.free, size, k, p);
        }
      }
      forall p: nat | p < ZONE_START && x.Has(p) ensures Vacant(b, p) {
        assert b.free[i].Has(p);
      }
    }
  }

  lemma WasFree(free: seq<Region>, size: nat, k: nat, p: nat)
    requires FirstFit(free, size, 0) < |free| && k < |FreeAfter(free, size)| && FreeAfter(free, size)[k].Has(p)
    ensures exists m :: 0 <= m < |free| && free[m].Has(p)
  {
    var i := FirstFit(free, size, 0);
    var m := if k == i && free[i].size == size then |free| - 1 else k;
    assert free[m].Has(p);
  }

  lemma ReleasedVacant(b: Books, offset: nat)
    requires Sound(b)
    ensures var i := FindOffset(b.resv, offset, 0);
      forall p :: Vacant(Release(b, offset), p) ==> Vacant(b, p) || (i < |b.resv| && b.resv[i].Has(p))
  {
    var i, b' := FindOffset(b.resv, offset, 0), Release(b, offset);
    forall p | Vacant(b', p) ensures Vacant(b, p) || (i < |b.resv| && b.resv[i].Has(p)) {
      if k :| 0 <= k < |b'.free| && b'.free[k].Has(p) {
        if k < |b.free| {
          assert b.free[k].Has(p);
        }
      }
    }
  }

  lemma RegionPage(r: Region, p: nat)
    requires Grained(r) && r.End() <= LIMIT
    ensures r.Has(p) <==> r.offset / PAGE_SIZE <= p < (r.offset + r.size) / PAGE_SIZE
    ensures (r.offset + r.size) / PAGE_SIZE <= MAX_PAGES
  {
    var a, n := r.offset / GRAIN * 16, r.size / GRAIN * 16;
    assert r.offset == a * PAGE_SIZE && r.size == n * PAGE_SIZE;
    assert r.offset / PAGE_SIZE == a && (r.offset + r.size) / PAGE_SIZE == a + n;
  }

  lemma GrainIsPages(offset: nat)
    requires offset % GRAIN == 0
    ensures offset % PAGE_SIZE == 0
  {
    assert offset == offset / GRAIN * 16 * PAGE_SIZE;
  }

  lemma LastPage(end: nat)
    requires end <= LIMIT
    ensures (end + PAGE_SIZE - 1) / PAGE_SIZE <= ZONE_START
  {
  }

  lemma TouchedInside(offset: nat, size: nat, aligned: nat)
    requires size <= aligned && Grained(Region(offset, aligned)) && offset + aligned <= LIMIT
    ensures forall p :: p in Touched(offset, size) ==> p < MAX_PAGES
    ensures offset % PAGE_SIZE == 0
  {
    GrainIsPages(offset);
    LastPage(offset + size);
  }

  lemma MarkedInside(offset: nat, size: nat)
    requires offset + size <= MAX_PAGES * PAGE_SIZE
    ensures offset / PAGE_SIZE + (size + PAGE_SIZE - 1) / PAGE_SIZE <= MAX_PAGES
  {
    if size > 0 {
      PagesOf(offset, size);
    }
  }
}

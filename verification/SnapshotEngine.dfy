/**
 The snapshot engine of src/arena.cpp: memory pages, ring slots, page maps and baseline buffers,
 all updated in place. Every operation is tied to its transition on DeltaStore values.
 Bitmaps are sets of page numbers. The kernel's write watch is the set of pages written since the
 last reset.
 */
module SnapshotEngine {
  import opened Pages
  import opened DeltaStore
  import opened EdgeDiff

  /** A ring slot. pageMap is never cleared, so entries of pages outside dirtyBits are stale. */
  datatype Slot = Slot(frame: int, dirtyBits: set<nat>, pageData: seq<Page>, pageMap: map<nat, nat>,
                       dirtyList: seq<nat>, valid: bool)

  /** Where a page's baseline copy lives: the captured buffer or the supplemental area. */
  datatype Loc = Base(i: nat) | Supp(i: nat)

  /** Range r starts in the arena and shares a byte with page p. */
  predicate Touches(base: nat, r: (nat, nat), p: nat) {
    && r.0 != 0 && base <= r.0 < base + ARENA_SIZE
    && r.0 < base + (p + 1) * PAGE_SIZE && base + p * PAGE_SIZE < r.0 + r.1
    && r.1 > 0
  }

  predicate TouchedBy(base: nat, ranges: seq<(nat, nat)>, p: nat) {
    exists k :: 0 <= k < |ranges| && Touches(base, ranges[k], p)
  }

  function Touched(base: nat, ranges: seq<(nat, nat)>): set<nat> {
    set p: nat | p < MAX_PAGES && TouchedBy(base, ranges, p)
  }

  lemma TouchedNext(base: nat, ranges: seq<(nat, nat)>, i: nat)
    requires i < |ranges|
    ensures forall p ::
      TouchedBy(base, ranges[..i + 1], p) <==> TouchedBy(base, ranges[..i], p) || Touches(base, ranges[i], p)
  {
    forall p | Touches(base, ranges[i], p) ensures TouchedBy(base, ranges[..i + 1], p) {
      assert ranges[..i + 1][i] == ranges[i];
    }
    forall p | TouchedBy(base, ranges[..i], p) ensures TouchedBy(base, ranges[..i + 1], p) {
      var k :| 0 <= k < i && Touches(base, ranges[..i][k], p);
      assert ranges[..i + 1][k] == ranges[..i][k];
    }
  }

  datatype PageSrc = Live | FromRing(img: Page) | FromBaseline(img: Page) | Absent

  const ARENA_SIZE: nat := MAX_PAGES * PAGE_SIZE

  function PageOf(a: nat): nat {
    a / PAGE_SIZE
  }

  function ByteAt(m: Memory, a: nat): Byte
    requires a < ARENA_SIZE
  {
    m[PageOf(a)][a % PAGE_SIZE]
  }

  /** The byte range [addr, addr + len) touches page p. */
  predicate Covers(addr: nat, len: nat, p: nat) {
    addr < (p + 1) * PAGE_SIZE && p * PAGE_SIZE < addr + len && len > 0
  }

  /** One chunk of a read stays on one page. */
  lemma ChunkIs(addr: nat, done: nat, chunk: nat, i: nat)
    requires done <= i < done + chunk && chunk <= PAGE_SIZE - (addr + done) % PAGE_SIZE
    ensures PageOf(addr + i) == PageOf(addr + done)
    ensures (addr + i) % PAGE_SIZE == (addr + done) % PAGE_SIZE + (i - done)
  {
    assert addr + i == PageOf(addr + done) * PAGE_SIZE + ((addr + done) % PAGE_SIZE + (i - done));
  }

  /** Where a read may stop between chunks. */
  predicate Boundary(addr: nat, done: nat, len: nat) {
    done == 0 || done == len || (addr + done) % PAGE_SIZE == 0
  }

  /** To the end of the page or of the read, whichever comes first. */
  function ChunkLen(addr: nat, done: nat, len: nat): (chunk: nat)
    requires done < len
    ensures 0 < chunk && done + chunk <= len && chunk <= PAGE_SIZE - (addr + done) % PAGE_SIZE
    ensures Boundary(addr, done + chunk, len)
  {
    var off := (addr + done) % PAGE_SIZE;
    assert addr + done == (addr + done) / PAGE_SIZE * PAGE_SIZE + off;
    assert addr + (done + (PAGE_SIZE - off)) == ((addr + done) / PAGE_SIZE + 1) * PAGE_SIZE;
    if PAGE_SIZE - off > len - done then len - done else PAGE_SIZE - off
  }

  lemma ChunkCovers(addr: nat, done: nat, chunk: nat, p: nat)
    requires 0 < chunk <= PAGE_SIZE - (addr + done) % PAGE_SIZE
    requires done == 0 || (addr + done) % PAGE_SIZE == 0
    ensures Covers(addr, done + chunk, p) <==> Covers(addr, done, p) || p == PageOf(addr + done)
  {
    var q := PageOf(addr + done);
    assert addr + done == q * PAGE_SIZE + (addr + done) % PAGE_SIZE;
    if p < q {
      assert (p + 1) * PAGE_SIZE <= q * PAGE_SIZE;
    } else if p > q {
      assert (q + 1) * PAGE_SIZE <= p * PAGE_SIZE;
    }
  }

  /** out holds the bytes of m from addr on, except perhaps on skipped pages. */
  ghost predicate Agrees(out: seq<Byte>, addr: nat, m: Memory, skip: set<nat>)
    requires addr + |out| <= ARENA_SIZE
  {
    forall i :: 0 <= i < |out| && PageOf(addr + i) !in skip ==> out[i] == ByteAt(m, addr + i)
  }

  lemma AgreesMore(out: seq<Byte>, addr: nat, m: Memory, skip: set<nat>, page: Page, chunk: nat)
    requires addr + |out| + chunk <= ARENA_SIZE && Agrees(out, addr, m, skip)
    requires 0 < chunk <= PAGE_SIZE - (addr + |out|) % PAGE_SIZE
    requires PageOf(addr + |out|) !in skip ==> page == m[PageOf(addr + |out|)]
    ensures Agrees(Extended(out, page, (addr + |out|) % PAGE_SIZE, chunk), addr, m, skip)
  {
    var off := (addr + |out|) % PAGE_SIZE;
    var out' := Extended(out, page, off, chunk);
    forall i | 0 <= i < |out'| && PageOf(addr + i) !in skip ensures out'[i] == ByteAt(m, addr + i) {
      if i >= |out| {
        ChunkIs(addr, |out|, chunk, i);
        assert out'[i] == page[off + (i - |out|)];
      }
    }
  }

  function Extended(out: seq<Byte>, page: Page, off: nat, chunk: nat): (r: seq<Byte>)
    requires off + chunk <= PAGE_SIZE
    ensures |r| == |out| + chunk
  {
    out + page[off..off + chunk]
  }

  ghost predicate Distinct(s: seq<nat>) {
    forall i, j :: 0 <= i < j < |s| ==> s[i] != s[j]
  }

  ghost predicate SlotOk(s: Slot) {
    s.valid ==>
      && Distinct(s.dirtyList)
      && (forall p :: p in s.dirtyList <==> p in s.dirtyBits)
      && (forall p :: p in s.dirtyBits ==> p in s.pageMap && s.pageMap[p] < |s.pageData|)
  }

  ghost function DeltaOf(s: Slot): (o: Option<Delta>)
    requires SlotOk(s)
    ensures o.Some? ==> o.value.Wf()
  {
    if s.valid then Some(Delta(s.frame, map p | p in s.dirtyBits :: s.pageData[s.pageMap[p]], s.dirtyList)) else None
  }

  /** The ring read from the slot that is evicted next. */
  ghost function Slots(ring: seq<Slot>, head: nat): (r: seq<Option<Delta>>)
    requires |ring| == RING_SLOTS && head < RING_SLOTS && forall i :: 0 <= i < RING_SLOTS ==> SlotOk(ring[i])
    ensures |r| == RING_SLOTS && forall j :: 0 <= j < |r| && r[j].Some? ==> r[j].value.Wf()
  {
    var r := seq(RING_SLOTS, j requires 0 <= j < RING_SLOTS => DeltaOf(ring[(head + j) % RING_SLOTS]));
    assert forall j :: 0 <= j < |r| ==> r[j] == DeltaOf(ring[(head + j) % RING_SLOTS]);
    r
  }

  ghost predicate LocOk(l: Loc, baseline: seq<Page>, supplemental: seq<Page>) {
    match l case Base(i) => i < |baseline| case Supp(i) => i < |supplemental|
  }

  function At(l: Loc, baseline: seq<Page>, supplemental: seq<Page>): Page
    requires LocOk(l, baseline, supplemental)
  {
    match l case Base(i) => baseline[i] case Supp(i) => supplemental[i]
  }

  ghost predicate MapOk(m: map<nat, Loc>, baseline: seq<Page>, supplemental: seq<Page>) {
    && (forall p :: p in m ==> LocOk(m[p], baseline, supplemental))
    && (forall p, q :: p in m && q in m && p != q ==> m[p] != m[q])
  }

  ghost function BaseOf(m: map<nat, Loc>, baseline: seq<Page>, supplemental: seq<Page>): map<nat, Page>
    requires MapOk(m, baseline, supplemental)
  {
    map p | p in m :: At(m[p], baseline, supplemental)
  }

  /** Overwriting one copy changes that page's copy only, since no two pages share one. */
  lemma PutIs(m: map<nat, Loc>, baseline: seq<Page>, supplemental: seq<Page>, p: nat, c: Page)
    requires MapOk(m, baseline, supplemental) && p in m
    ensures match m[p]
      case Base(i) => (
        && MapOk(m, baseline[i := c], supplemental)
        && BaseOf(m, baseline[i := c], supplemental) == BaseOf(m, baseline, supplemental)[p := c])
      case Supp(i) => (
        && MapOk(m, baseline, supplemental[i := c])
        && BaseOf(m, baseline, supplemental[i := c]) == BaseOf(m, baseline, supplemental)[p := c])
  {
    assert forall q :: q in m && q != p ==> m[q] != m[p];
  }

  lemma TwicePut(base: map<nat, Page>, p: nat, c: Page)
    ensures base[p := ZeroPage()][p := c] == base[p := c]
  {
  }

  lemma ExtendIs(m: map<nat, Loc>, baseline: seq<Page>, supplemental: seq<Page>, p: nat)
    requires MapOk(m, baseline, supplemental) && p !in m
    ensures var (m', s') := (m[p := Supp(|supplemental|)], supplemental + [ZeroPage()]);
      MapOk(m', baseline, s') && BaseOf(m', baseline, s') == BaseOf(m, baseline, supplemental)[p := ZeroPage()]
  {
  }

  function PagesIn(bytes: nat): nat {
    (bytes + PAGE_SIZE - 1) / PAGE_SIZE
  }

  class Arena {
    const base: nat          // address of the arena
    const mem: array<Page>
    const ring: array<Slot>
    var head: nat
    var watch: set<nat>
    var committed: set<nat>
    var committedCount: nat
    var watermark: nat
    var dirtyBits: set<nat>
    var rebuildCountdown: int
    var hasBaseline: bool
    var baseline: seq<Page>
    var supplemental: seq<Page>
    var baselineMap: map<nat, Loc>
    var baselineBits: set<nat>
    var windowedRestore: bool
    var haveExclusions: bool
    var rederiveExcluded: set<nat>
    var haveCfull: bool
    var coherentFull: set<nat>

    /** The store without the live pages. */
    ghost predicate StoreOk()
      reads this, ring
    {
      && ring.Length == RING_SLOTS
      && head < RING_SLOTS
      && (forall i :: 0 <= i < RING_SLOTS ==> SlotOk(ring[i]))
      && watch <= committed && dirtyBits <= committed
      && (forall p :: p in committed ==> p < MAX_PAGES)
      && (forall i, p :: 0 <= i < RING_SLOTS && p in ring[i].dirtyBits ==> p in committed)
      && committedCount == |committed|
      && MapOk(baselineMap, baseline, supplemental)
      && baselineBits == baselineMap.Keys && baselineBits <= committed
      && |supplemental| <= SUPPLEMENTAL_MAX
    }

    ghost predicate Valid()
      reads this, mem, ring
    {
      StoreOk() && MemOk()
    }

    ghost predicate MemOk()
      reads this, mem
    {
      && mem.Length == MAX_PAGES
      && (forall p :: 0 <= p < MAX_PAGES && p !in committed ==> mem[p] == ZeroPage())
    }

    /** A load is under way: the slots are ordered and only committed pages are reverted. Nothing
        here depends on memory. */
    ghost predicate Loading(ordered: seq<nat>, eff: set<nat>)
      reads this, ring
    {
      StoreOk() && Ordered(ring[..], ordered) && eff <= committed
    }

    /** What the walk over the ordered slots, then the baseline, answers for page p of a frame. */
    ghost function Recall(ordered: seq<nat>, frame: int, p: nat): Page
      reads this, ring
      requires StoreOk() && Ordered(ring[..], ordered)
    {
      RecallFrom(ring[..], BaseOf(baselineMap, baseline, supplemental), ordered, frame, p)
    }

    ghost function Recalled(ordered: seq<nat>, eff: set<nat>, frame: int): (m: Memory)
      reads this, mem, ring
      requires MemOk() && Loading(ordered, eff)
    {
      var rs, base, live, skip := ring[..], BaseOf(baselineMap, baseline, supplemental), mem[..], Skipped();
      seq(MAX_PAGES, p requires 0 <= p < MAX_PAGES =>
        if p in eff && p !in skip then RecallFrom(rs, base, ordered, frame, p) else live[p])
    }

    /** The walk answers with a latest content, and so, when frames ascend, as the delta store does. */
    lemma RecalledIs(ordered: seq<nat>, eff: set<nat>, frame: int)
      requires Valid() && Loading(ordered, eff)
      ensures Reverted(Abs(), eff, Skipped(), frame, Recalled(ordered, eff, frame))
    {
      var s := Abs();
      forall p: nat | p < MAX_PAGES ensures Latest(s, frame, p, RecallFrom(ring[..], s.base, ordered, frame, p)) {
        WalkIsLatest(ring[..], head, ordered, frame, p, s);
      }
    }

    /** The first page a save does not scan. A watermark of zero means the whole arena. */
    function ScanLimit(): nat
      reads this
    {
      if watermark == 0 || PagesIn(watermark) > MAX_PAGES then MAX_PAGES else PagesIn(watermark)
    }

    /** The scan covers exactly the pages that begin below the watermark. */
    lemma ScanLimitIs()
      ensures forall p: nat :: p < ScanLimit() <==> p < 524288 && (watermark == 0 || p * 4096 < watermark)
    {
    }

    ghost function Abs(): (s: Store)
      reads this, mem, ring
      requires Valid()
      ensures s.Wf()
    {
      Store(mem[..], watch, Slots(ring[..], head), BaseOf(baselineMap, baseline, supplemental),
            SUPPLEMENTAL_MAX - |supplemental|, dirtyBits, rebuildCountdown, ScanLimit())
    }

    function CoherentFull(): set<nat>
      reads this
    {
      if haveCfull then coherentFull else {}
    }

    /** Pages load leaves live: excluded, and not in a coherent-full range that overrides it. */
    function Skipped(): set<nat>
      reads this
    {
      if !haveExclusions then {} else rederiveExcluded - CoherentFull()
    }

    /** A store to memory by the game: the page is committed and the kernel notes it. */
    method WritePage(p: nat, c: Page)
      requires Valid() && p in committed
      modifies mem, this`watch
      ensures Valid() && Abs() == Write(old(Abs()), p, c)
    {
      mem[p] := c;
      watch := watch + {p};
    }

    /** A committed page is zero until written, so committing changes nothing the store records. */
    method CommitPage(p: nat)
      requires Valid() && p < MAX_PAGES
      modifies this`committed, this`committedCount
      ensures Valid() && committed == old(committed) + {p} && Abs() == old(Abs())
    {
      if p !in committed {
        committed := committed + {p};
        committedCount := committedCount + 1;
      }
    }

    /** One byte stored over live memory. */
    method WriteByte(x: nat, b: Byte)
      requires Valid() && x < ARENA_SIZE && PageOf(x) in committed
      modifies mem, this`watch
      ensures Valid() && watch == old(watch) + {PageOf(x)}
      ensures Abs() == Write(old(Abs()), PageOf(x), mem[PageOf(x)])
      ensures forall y :: 0 <= y < ARENA_SIZE ==> ByteAt(mem[..], y) == if y == x then b else ByteAt(old(mem[..]), y)
    {
      var p := PageOf(x);
      WritePage(p, mem[p][x % PAGE_SIZE := b]);
      forall y | 0 <= y < ARENA_SIZE ensures ByteAt(mem[..], y) == if y == x then b else ByteAt(old(mem[..]), y) {
        assert PageOf(y) == p && y % PAGE_SIZE == x % PAGE_SIZE ==> y == x;
      }
    }

    // ---------- capture ----------

    /** Copies every committed page into a new baseline, which also empties the ring, the watch
        set and the dirty bits. With no page committed only the flag is set. */
    /** Fails only when the write watch cannot be queried. */
    method CaptureBaseline(watchOk: bool) returns (ok: bool)
      requires Valid()
      modifies this`head, this`watch, this`dirtyBits, this`hasBaseline, this`baselineMap, this`baselineBits,
               this`supplemental, this`baseline, ring
      ensures Valid() && ok == watchOk && hasBaseline == (ok || old(hasBaseline))
      ensures ok && committed != {} ==> Abs() == Baseline(mem[..], committed, rebuildCountdown, ScanLimit())
      ensures !ok || committed == {} ==> Abs() == old(Abs())
    {
      if !watchOk {
        return false;
      }
      if committedCount == 0 {
        watch, baseline, baselineBits := {}, [], {};
        hasBaseline := true;
        return true;
      }
      CaptureCommitted();
      ok := true;
    }

    method CaptureCommitted()
      requires Valid()
      modifies this`head, this`watch, this`dirtyBits, this`hasBaseline, this`baselineMap, this`baselineBits,
               this`supplemental, this`baseline, ring
      ensures Valid() && hasBaseline
      ensures Abs() == Baseline(mem[..], committed, rebuildCountdown, ScanLimit())
    {
      NewBaseline();
      InvalidateSlots();
      hasBaseline := true;
      BaselineIs(Abs(), committed);
    }

    method NewBaseline()
      requires Valid()
      modifies this`watch, this`dirtyBits, this`baselineMap, this`baselineBits, this`supplemental, this`baseline
      ensures Valid() && watch == dirtyBits == {}
      ensures BaseAndRoom().1 == 200000 && BaseAndRoom().0.Keys == committed
      ensures forall p :: p in committed ==> BaseAndRoom().0[p] == mem[p]
    {
      watch, dirtyBits := {}, {};
      supplemental := [];
      CopyCommitted();
      CopyIsBase(baselineMap, baseline, mem[..], committed);
    }

    method InvalidateSlots()
      requires Valid()
      modifies ring, this`head
      ensures Valid() && forall j :: 0 <= j < RING_SLOTS ==> Slots(ring[..], head)[j] == None
    {
      for i := 0 to RING_SLOTS
        invariant Valid()
        invariant forall j :: 0 <= j < i ==> !ring[j].valid
      {
        ring[i] := ring[i].(valid := false, frame := -1);
      }
      head := 0;
      NoSlots(ring[..], head);
    }

    /** The scan stops early once committedCount pages are copied: none is left by then. */
    method CopyCommitted()
      requires mem.Length == MAX_PAGES && committedCount == |committed|
      requires forall p :: p in committed ==> p < MAX_PAGES
      modifies this`baseline, this`baselineMap, this`baselineBits
      ensures baselineBits == committed && CopyOk(baselineMap, baseline, mem[..], committed)
    {
      baseline, baselineMap, baselineBits := [], map[], {};
      NothingCopied(mem[..], committed);
      var blIdx, p := 0, 0;
      while p < MAX_PAGES && blIdx < committedCount
        invariant p <= MAX_PAGES && blIdx == |baseline| == |baselineBits|
        invariant baselineBits == Below(committed, p) && CopyOk(baselineMap, baseline, mem[..], baselineBits)
      {
        BelowNext(committed, p);
        if p in committed {
          CopyPage(p, blIdx);
          blIdx := blIdx + 1;
        }
        p := p + 1;
        assert baselineBits == Below(committed, p);
      }
      AllBelow(committed, p);
    }

    method CopyPage(p: nat, blIdx: nat)
      requires mem.Length == MAX_PAGES && p < MAX_PAGES && p !in baselineBits && blIdx == |baseline|
      requires CopyOk(baselineMap, baseline, mem[..], baselineBits)
      modifies this`baseline, this`baselineMap, this`baselineBits
      ensures CopyOk(baselineMap, baseline, mem[..], baselineBits)
      ensures baselineBits == old(baselineBits) + {p} && |baseline| == blIdx + 1
      ensures |baselineBits| == |old(baselineBits)| + 1
    {
      CopyStep(baselineMap, baseline, mem[..], baselineBits, p);
      baseline := baseline + [mem[p]];
      baselineBits := baselineBits + {p};
      baselineMap := baselineMap[p := Base(blIdx)];
    }

    // ---------- page ranges a load treats specially ----------

    /** The pages of all in-arena ranges, and how many ranges those were. */
    method MarkRanges(ranges: seq<(nat, nat)>) returns (bits: set<nat>, regions: nat)
      ensures bits == Touched(base, ranges)
      ensures regions == 0 ==> bits == {}
    {
      bits, regions := {}, 0;
      for i := 0 to |ranges|
        invariant forall p: nat :: p in bits <==> p < MAX_PAGES && TouchedBy(base, ranges[..i], p)
        invariant regions == 0 ==> bits == {}
      {
        var (lo, size) := ranges[i];
        TouchedNext(base, ranges, i);
        if lo == 0 || size == 0 || lo < base || lo >= base + ARENA_SIZE {
          continue;
        }
        var end := if lo + size > base + ARENA_SIZE then base + ARENA_SIZE else lo + size;
        var p0, p1 := (lo - base) / PAGE_SIZE, (end - base + PAGE_SIZE - 1) / PAGE_SIZE;
        ghost var before := bits;
        for p := p0 to p1
          invariant forall q :: q in bits <==> q in before || p0 <= q < p
        {
          bits := bits + {p};
        }
        regions := regions + 1;
        assert forall p: nat :: p < MAX_PAGES ==> (Touches(base, ranges[i], p) <==> p0 <= p < p1);
      }
      assert ranges[..|ranges|] == ranges;
    }

    method SetRederiveExclusions(ranges: seq<(nat, nat)>)
      modifies this`rederiveExcluded, this`haveExclusions
      ensures Skipped() == Touched(base, ranges) - CoherentFull()
    {
      var regions;
      rederiveExcluded, regions := MarkRanges(ranges);
      haveExclusions := regions > 0;
    }

    method SetCoherentFullRanges(ranges: seq<(nat, nat)>)
      modifies this`coherentFull, this`haveCfull
      ensures CoherentFull() == Touched(base, ranges)
    {
      var regions;
      coherentFull, regions := MarkRanges(ranges);
      haveCfull := regions > 0;
    }

    // ---------- save ----------

    /** The kernel's list of written pages below limit, each once, in address order. */
    method GetWriteWatch(limit: nat) returns (buf: seq<nat>)
      requires forall p :: p in watch ==> p < MAX_PAGES
      requires limit <= MAX_PAGES
      ensures Distinct(buf)
      ensures forall p :: p in buf <==> p in watch && p < limit
      ensures forall k :: 0 <= k < |buf| ==> buf[k] < limit
    {
      buf := [];
      for p := 0 to limit
        invariant forall i, j :: 0 <= i < j < |buf| ==> buf[i] < buf[j]
        invariant forall i :: 0 <= i < |buf| ==> buf[i] < p
        invariant forall q :: q in buf <==> q in watch && q < p
      {
        if p in watch {
          buf := buf + [p];
        }
      }
    }

    ghost predicate BaselineOk()
      reads this
    {
      && MapOk(baselineMap, baseline, supplemental)
      && baselineBits == baselineMap.Keys
      && |supplemental| <= SUPPLEMENTAL_MAX
    }

    ghost function BaseAndRoom(): (map<nat, Page>, nat)
      reads this
      requires BaselineOk()
    {
      (BaseOf(baselineMap, baseline, supplemental), SUPPLEMENTAL_MAX - |supplemental|)
    }

    /** Where page p's baseline copy goes: its present place, or a fresh supplemental page. */
    method ResolveFoldDst(p: nat) returns (dst: Option<Loc>)
      requires BaselineOk()
      modifies this`baselineMap, this`baselineBits, this`supplemental
      ensures BaselineOk()
      ensures dst.Some? <==> p in old(baselineMap) || |old(supplemental)| < 200000
      ensures dst.Some? ==> p in baselineMap && baselineMap[p] == dst.value
      ensures dst.Some? && p !in old(baselineMap) ==> dst.value == Supp(|old(supplemental)|)
      ensures baselineMap.Keys == old(baselineMap).Keys + (if dst.Some? then {p} else {})
      ensures forall q :: q in old(baselineMap) ==> baselineMap[q] == old(baselineMap)[q]
      ensures supplemental == old(supplemental) + (if dst.Some? && p !in old(baselineMap) then [ZeroPage()] else [])
    {
      if p in baselineMap {
        return Some(baselineMap[p]);
      }
      if |supplemental| < SUPPLEMENTAL_MAX {
        baselineMap := baselineMap[p := Supp(|supplemental|)];
        baselineBits := baselineBits + {p};
        supplemental := supplemental + [ZeroPage()];
        return Some(baselineMap[p]);
      }
      return None;
    }

    method FoldPage(p: nat, c: Page)
      requires BaselineOk()
      modifies this`baselineMap, this`baselineBits, this`supplemental, this`baseline
      ensures BaselineOk()
      ensures BaseAndRoom() == FoldOne(old(BaseAndRoom()).0, old(BaseAndRoom()).1, p, c)
    {
      ghost var base := BaseAndRoom().0;
      var dst := PlacePage(p);
      if dst.Some? {
        TwicePut(base, p, c);
        CopyTo(dst.value, p, c);
      }
    }

    /** Finds the place of page p's baseline copy; a new one reads zero. */
    method PlacePage(p: nat) returns (dst: Option<Loc>)
      requires BaselineOk()
      modifies this`baselineMap, this`baselineBits, this`supplemental
      ensures BaselineOk() && (dst.Some? ==> p in baselineMap && baselineMap[p] == dst.value)
      ensures var (base, room) := old(BaseAndRoom());
        && (dst.Some? <==> p in base || room > 0)
        && BaseAndRoom() == if p in base || room == 0 then (base, room) else (base[p := ZeroPage()], room - 1)
    {
      dst := ResolveFoldDst(p);
      if dst.None? || p in old(baselineMap) {
        assert supplemental == old(supplemental) && baselineMap == old(baselineMap);
      } else {
        ExtendIs(old(baselineMap), baseline, old(supplemental), p);
        assert baselineMap == old(baselineMap)[p := dst.value];
      }
    }

    method CopyTo(dst: Loc, ghost p: nat, c: Page)
      requires BaselineOk() && p in baselineMap && baselineMap[p] == dst
      modifies this`supplemental, this`baseline
      ensures BaselineOk()
      ensures BaseAndRoom() == (old(BaseAndRoom()).0[p := c], old(BaseAndRoom()).1)
    {
      PutIs(baselineMap, baseline, supplemental, p, c);
      match dst
      case Base(i) => baseline := baseline[i := c];
      case Supp(i) => supplemental := supplemental[i := c];
    }

    method FoldIntoBaseline(slot: Slot)
      requires BaselineOk() && SlotOk(slot)
      modifies this`baselineMap, this`baselineBits, this`supplemental, this`baseline
      ensures BaselineOk()
      ensures BaseAndRoom() == Fold(old(BaseAndRoom()).0, old(BaseAndRoom()).1, DeltaOf(slot))
    {
      if !slot.valid {
        return;
      }
      ghost var d := DeltaOf(slot).value;
      for k := 0 to |slot.dirtyList|
        invariant BaselineOk()
        invariant BaseAndRoom() == FoldFirst(old(BaseAndRoom()).0, old(BaseAndRoom()).1, d, k)
      {
        var p := slot.dirtyList[k];
        FoldPage(p, slot.pageData[slot.pageMap[p]]);
      }
    }

    /** Evicts the oldest slot into the baseline and captures every page written since the last
        save. Without a baseline, or when the write watch cannot be queried, nothing happens. When
        the page buffer cannot grow the save fails with the slot already folded and the write-watch
        bits already consumed. */
    method Save(frame: int, watchOk: bool, allocOk: bool) returns (ok: bool, ghost order: seq<nat>)
      requires Valid()
      modifies this`head, this`watch, this`baselineMap, this`baselineBits, this`supplemental, this`baseline,
               this`dirtyBits, this`rebuildCountdown, ring
      ensures Valid()
      ensures ok == (hasBaseline && watchOk && (allocOk || |order| <= |old(ring[head]).pageData|))
      ensures hasBaseline && watchOk ==>
        Distinct(order) && forall p :: p in order <==> p in old(watch) && p < old(ScanLimit())
      ensures hasBaseline && watchOk ==>
        forall p: nat :: p in order <==> p in old(watch) && p < 524288 && (watermark == 0 || p * 4096 < watermark)
      ensures hasBaseline && watchOk ==> forall p: nat :: p in watch <==> p in old(watch) && p !in order
      ensures !(hasBaseline && watchOk) ==> Abs() == old(Abs())
      ensures hasBaseline && watchOk ==>
        Abs() == if ok then DeltaStore.Save(old(Abs()), frame, order) else FailedSave(old(Abs()))
    {
      if !hasBaseline || !watchOk {
        return false, [];
      }
      var buf := GetWriteWatch(ScanLimit());
      ScanLimitIs();
      ok := SaveHarvested(frame, buf, allocOk);
      order := buf;
    }

    method SaveHarvested(frame: int, buf: seq<nat>, allocOk: bool) returns (ok: bool)
      requires Valid() && Distinct(buf) && forall p :: p in buf <==> p in watch && p < ScanLimit()
      modifies this`head, this`watch, this`baselineMap, this`baselineBits, this`supplemental, this`baseline,
               this`dirtyBits, this`rebuildCountdown, ring
      ensures Valid()
      ensures ok == (allocOk || |buf| <= |old(ring[head]).pageData|)
      ensures Abs() == if ok then DeltaStore.Save(old(Abs()), frame, buf) else FailedSave(old(Abs()))
    {
      ghost var s := Abs();
      Evict(buf);
      assert forall k :: 0 <= k < |buf| ==> buf[k] in committed;
      ok := CaptureHarvest(frame, buf, allocOk);
      ghost var s' := Abs();
      SaveIs(s, s', ok, frame, buf);
    }

    method CaptureHarvest(frame: int, buf: seq<nat>, allocOk: bool) returns (ok: bool)
      requires Valid() && Distinct(buf) && forall k :: 0 <= k < |buf| ==> buf[k] in committed
      modifies this`head, this`dirtyBits, this`rebuildCountdown, ring
      ensures Valid()
      ensures ok == (allocOk || |buf| <= |old(ring[head]).pageData|)
      ensures Slots(ring[..], head) ==
        Slots(old(ring[..]), old(head))[1..] + [if ok then Some(Capture(mem[..], buf, frame)) else None]
      ensures Abs() == old(Abs()).(slots := Slots(ring[..], head), dirty := dirtyBits, countdown := rebuildCountdown)
      ensures !ok ==> dirtyBits == old(dirtyBits) && rebuildCountdown == old(rebuildCountdown)
      ensures ok ==> var rebuild := old(rebuildCountdown) - 1 <= 0;
        && dirtyBits == (if rebuild then AllWritten(Slots(ring[..], head)) else old(dirtyBits) + (set p | p in buf))
        && rebuildCountdown == if rebuild then RING_SLOTS else old(rebuildCountdown) - 1
    {
      ok := Refill(frame, buf, allocOk);
      if ok {
        NoteDirty(buf);
      }
    }

    /** Consumes the write-watch bits of buf and folds the slot at the head. */
    method Evict(buf: seq<nat>)
      requires Valid()
      modifies this`watch, this`baselineMap, this`baselineBits, this`supplemental, this`baseline
      ensures Valid()
      ensures watch == old(watch) - set p | p in buf
      ensures BaseAndRoom() == Fold(old(BaseAndRoom()).0, old(BaseAndRoom()).1, Slots(ring[..], head)[0])
      ensures Abs() == old(Abs()).(watch := watch, base := BaseAndRoom().0, room := BaseAndRoom().1)
    {
      watch := watch - set p | p in buf;
      FoldHead();
    }

    method FoldHead()
      requires Valid()
      modifies this`baselineMap, this`baselineBits, this`supplemental, this`baseline
      ensures Valid()
      ensures BaseAndRoom() == Fold(old(BaseAndRoom()).0, old(BaseAndRoom()).1, Slots(ring[..], head)[0])
    {
      FoldKeys(BaseAndRoom().0, BaseAndRoom().1, DeltaOf(ring[head]));
      assert Slots(ring[..], head)[0] == DeltaOf(ring[head]);
      FoldIntoBaseline(ring[head]);
      assert baselineBits == BaseAndRoom().0.Keys;
    }

    /** Takes over the evicted slot for a new frame and advances the head. */
    method Refill(frame: int, buf: seq<nat>, allocOk: bool) returns (ok: bool)
      requires Valid() && Distinct(buf) && forall k :: 0 <= k < |buf| ==> buf[k] in committed
      modifies ring, this`head
      ensures Valid()
      ensures ok == (allocOk || |buf| <= |old(ring[head]).pageData|)
      ensures Slots(ring[..], head) ==
        Slots(old(ring[..]), old(head))[1..] + [if ok then Some(Capture(mem[..], buf, frame)) else None]
    {
      ghost var slots0 := ring[..];
      var rs';
      ok, rs' := FillSlot(ring[head], frame, buf, allocOk);
      ring[head] := rs';
      Rotate(slots0, head, rs');
      assert ring[..] == slots0[head := rs'];
      head := (head + 1) % RING_SLOTS;
    }

    method NoteDirty(buf: seq<nat>)
      requires Valid() && forall k :: 0 <= k < |buf| ==> buf[k] in committed
      modifies this`dirtyBits, this`rebuildCountdown
      ensures Valid()
      ensures var rebuild := old(rebuildCountdown) - 1 <= 0;
        && dirtyBits == (if rebuild then AllWritten(Slots(ring[..], head)) else old(dirtyBits) + (set p | p in buf))
        && rebuildCountdown == if rebuild then 60 else old(rebuildCountdown) - 1
    {
      dirtyBits := dirtyBits + set p | p in buf;
      rebuildCountdown := rebuildCountdown - 1;
      if rebuildCountdown <= 0 {
        RebuildDirtyBits();
        rebuildCountdown := RING_SLOTS;
      }
    }

    method RebuildDirtyBits()
      requires Valid()
      modifies this`dirtyBits
      ensures Valid() && dirtyBits == AllWritten(Slots(ring[..], head))
      ensures forall p :: p in dirtyBits <==> exists k :: 0 <= k < 60 && ring[k].valid && p in ring[k].dirtyBits
    {
      dirtyBits := {};
      for i := 0 to RING_SLOTS
        invariant Valid()
        invariant forall p :: p in dirtyBits <==> exists k :: 0 <= k < i && ring[k].valid && p in ring[k].dirtyBits
      {
        if ring[i].valid {
          dirtyBits := dirtyBits + ring[i].dirtyBits;
        }
      }
      AllWrittenIs(ring[..], head, dirtyBits);
    }

    /** The new content of the evicted slot. Its page buffer is kept unless it is too small; only
        then can the save fail. */
    method FillSlot(rs: Slot, frame: int, buf: seq<nat>, allocOk: bool) returns (ok: bool, rs': Slot)
      requires Valid() && Distinct(buf) && forall k :: 0 <= k < |buf| ==> buf[k] < MAX_PAGES
      ensures ok == (allocOk || |buf| <= |rs.pageData|)
      ensures SlotOk(rs') && rs'.valid == ok
      ensures ok ==> DeltaOf(rs') == Some(Capture(mem[..], buf, frame)) && forall p :: p in rs'.dirtyBits <==> p in buf
      ensures !ok ==> rs'.dirtyBits == {}
    {
      rs' := rs.(frame := frame, valid := false, dirtyBits := {});
      if |buf| > |rs'.pageData| {
        if !allocOk {
          return false, rs'.(pageData := []);
        }
        rs' := rs'.(pageData := seq(|buf| + |buf| / 4 + 64, _ => ZeroPage()));
      }
      rs' := CopyPages(rs', buf);
      CopiedIs(rs', mem[..], buf);
      rs' := rs'.(valid := true);
      ok := true;
    }

    method CopyPages(rs: Slot, buf: seq<nat>) returns (rs': Slot)
      requires mem.Length == MAX_PAGES && |buf| <= |rs.pageData| && rs.dirtyBits == {}
      requires Distinct(buf) && forall k :: 0 <= k < |buf| ==> buf[k] < MAX_PAGES
      ensures rs'.frame == rs.frame && rs'.valid == rs.valid
      ensures |rs'.pageData| == |rs.pageData| && Copied(rs', mem[..], buf, |buf|)
    {
      rs' := rs.(dirtyList := []);
      for i := 0 to |buf|
        invariant rs'.frame == rs.frame && rs'.valid == rs.valid && |rs'.pageData| == |rs.pageData|
        invariant Copied(rs', mem[..], buf, i)
      {
        var p := buf[i];
        rs' := rs'.(dirtyBits := rs'.dirtyBits + {p}, pageData := rs'.pageData[i := mem[p]],
                    pageMap := rs'.pageMap[p := i], dirtyList := rs'.dirtyList + [p]);
      }
    }

    // ---------- load ----------

    method ListSlots() returns (ordered: seq<nat>)
      requires ring.Length == RING_SLOTS
      ensures Lists(ring[..], ordered)
    {
      ordered := [];
      for i := 0 to RING_SLOTS
        invariant forall a :: 0 <= a < |ordered| ==> ordered[a] < i && ring[ordered[a]].valid
        invariant forall k :: 0 <= k < i && ring[k].valid ==> k in ordered
      {
        if ring[i].valid {
          ordered := ordered + [i];
        }
      }
    }

    /** The valid slots, exchanged into ascending frame order. */
    method OrderSlots() returns (ordered: seq<nat>)
      requires ring.Length == RING_SLOTS
      ensures Ordered(ring[..], ordered)
    {
      ordered := ListSlots();
      var n := |ordered|;
      for i := 0 to if n > 0 then n - 1 else 0
        invariant |ordered| == n && Lists(ring[..], ordered) && SortedTo(ring[..], ordered, i)
      {
        ordered := LeastTo(ordered, i);
      }
    }

    /** Exchanges the least of the remaining slots to place i. */
    method LeastTo(s: seq<nat>, i: nat) returns (ordered: seq<nat>)
      requires ring.Length == RING_SLOTS && i < |s| && Lists(ring[..], s) && SortedTo(ring[..], s, i)
      ensures |ordered| == |s| && Lists(ring[..], ordered) && SortedTo(ring[..], ordered, i + 1)
    {
      ordered := s;
      for j := i + 1 to |s|
        invariant |ordered| == |s| && Lists(ring[..], ordered) && SortedTo(ring[..], ordered, i)
        invariant forall b :: i <= b < j ==> ring[ordered[i]].frame <= ring[ordered[b]].frame
      {
        if ring[ordered[j]].frame < ring[ordered[i]].frame {
          ordered := Exchange(ring[..], ordered, i, j);
        }
      }
    }

    function LoadMode(watchOk: bool): Mode
      reads this
    {
      if windowedRestore then InWindow(CoherentFull(), watchOk) else Full
    }

    ghost function RevertSpec(frame: int, watchOk: bool): set<nat>
      reads this, mem, ring
      requires Valid()
    {
      Undone(Abs(), frame, LoadMode(watchOk))
    }

    /** What that comes to: with the windowed restore the writes since the last save, if the write watch
        answers, the pages of every valid slot after the frame, and what a coherent-full range adds;
        else the dirty set. */
    lemma RevertSpecIs(frame: int, watchOk: bool)
      requires Valid()
      ensures forall p :: p in RevertSpec(frame, watchOk) <==>
        if windowedRestore then
          || (watchOk && p in watch)
          || (exists j :: 0 <= j < RING_SLOTS && ring[j].valid && ring[j].frame > frame && p in ring[j].dirtyBits)
          || (haveCfull && p in coherentFull && p in dirtyBits)
        else p in dirtyBits
    {
      var after := set j, p |
        0 <= j < RING_SLOTS && ring[j].valid && ring[j].frame > frame && p in ring[j].dirtyBits :: p;
      WrittenAfterIs(ring[..], head, frame, after);
    }

    /** The pages to undo. */
    method RevertSet(frame: int, ordered: seq<nat>, watchOk: bool) returns (eff: set<nat>)
      requires Valid() && Ordered(ring[..], ordered)
      ensures eff == RevertSpec(frame, watchOk) && eff <= committed
      ensures !windowedRestore ==> eff == dirtyBits
      ensures windowedRestore ==> forall p :: p in eff <==>
        || (watchOk && p in watch)
        || (exists j :: 0 <= j < RING_SLOTS && ring[j].valid && ring[j].frame > frame && p in ring[j].dirtyBits)
        || (haveCfull && p in coherentFull && p in dirtyBits)
    {
      if !windowedRestore {
        return dirtyBits;
      }
      eff := {};
      for i := 0 to |ordered|
        invariant eff <= committed
        invariant forall p :: p in eff <==> exists a :: 0 <= a < i && After(ring[ordered[a]], frame, p)
      {
        var s := ring[ordered[i]];
        if s.frame > frame {
          eff := eff + s.dirtyBits;
        }
      }
      AfterInOrder(ring[..], head, ordered, frame, eff);
      if watchOk {
        eff := eff + watch;
      }
      if haveCfull {
        eff := eff + (coherentFull * dirtyBits);
      }
    }

    /** Reverts one page: newest slot at or before frame, else the baseline, else zero. */
    method RevertPage(p: nat, frame: int, ordered: seq<nat>)
      requires MemOk() && Loading(ordered, {p})
      modifies mem
      ensures MemOk() && mem[..] == old(mem[..])[p := Recall(ordered, frame, p)]
    {
      var si, found := |ordered|, false;
      while si > 0 && !found
        invariant 0 <= si <= |ordered|
        invariant !found ==> mem[..] == old(mem[..])
        invariant !found ==>
          WalkBack(ring[..], ordered, frame, p, si) == WalkBack(ring[..], ordered, frame, p, |ordered|)
        invariant found ==> mem[..] == old(mem[..])[p := Recall(ordered, frame, p)]
      {
        si := si - 1;
        var s := ring[ordered[si]];
        if s.frame <= frame && p in s.dirtyBits {
          mem[p] := s.pageData[s.pageMap[p]];
          found := true;
        }
      }
      if !found {
        mem[p] := Fallback(p);
      }
    }

    /** Page p's baseline copy, or zero. */
    method Fallback(p: nat) returns (c: Page)
      requires StoreOk()
      ensures c == BasePage(BaseOf(baselineMap, baseline, supplemental), p)
    {
      c := ZeroPage();
      if p in baselineBits {
        match baselineMap[p]
        case Base(i) => c := baseline[i];
        case Supp(i) => c := supplemental[i];
      }
    }

    /** The loop over all pages, with every reverted page handed to the edge diff. */
    method RevertPages(frame: int, ordered: seq<nat>, eff: set<nat>, eb: EdgeBreak)
      requires MemOk() && Loading(ordered, eff)
      modifies mem, eb`tally, eb`pages
      ensures Valid() && mem[..] == old(Recalled(ordered, eff, frame))
      ensures eb.on ==> eb.tally == old(eb.tally).Plus(ArenaCounts(eb.ranges, old(mem[..]), mem[..], |mem[..]|))
    {
      ghost var live: Memory, target := mem[..], Recalled(ordered, eff, frame);
      for p := 0 to MAX_PAGES
        invariant MemOk() && Loading(ordered, eff)
        invariant Frontier(mem[..], target, live, p)
        invariant eb.on ==> eb.tally == old(eb.tally).Plus(ArenaCounts(eb.ranges, live, target, p))
      {
        ghost var c := eb.tally;
        VisitPage(p, frame, ordered, eff, eb, target[p]);
        if eb.on {
          OnePageMore(eb.ranges, live, target, p, old(eb.tally), c, eb.tally);
        }
      }
      assert mem[..] == target;
    }

    method VisitPage(p: nat, frame: int, ordered: seq<nat>, eff: set<nat>, eb: EdgeBreak, ghost target: Page)
      requires MemOk() && Loading(ordered, eff)
      requires p < MAX_PAGES && target == if p in eff && p !in Skipped() then Recall(ordered, frame, p) else mem[p]
      modifies mem, eb`tally, eb`pages
      ensures MemOk()
      ensures mem[..] == old(mem[..])[p := target]
      ensures eb.on ==> eb.tally == old(eb.tally).Plus(PageCounts(eb.ranges, old(mem[p]), target, |old(mem[p])| / 8))
    {
      SamePageCountsNothing(eb.ranges, mem[p], |mem[p]| / 8);
      if p !in eff {
        return;
      }
      if haveExclusions && p in rederiveExcluded {
        var coherent := haveCfull && p in coherentFull;
        if !coherent {
          return;
        }
      }
      var shadow := mem[p];
      RevertPage(p, frame, ordered);
      if eb.on {
        eb.DiffPage(shadow, mem[p], |shadow|);
      }
    }

    /** The dirty set of the target: the union stops at the first slot past it. */
    method RebuildUpTo(frame: int, ordered: seq<nat>)
      requires Valid() && Ordered(ring[..], ordered)
      modifies this`dirtyBits
      ensures Valid() && dirtyBits == WrittenUpTo(Slots(ring[..], head), frame)
    {
      dirtyBits := {};
      var i := 0;
      while i < |ordered| && ring[ordered[i]].frame <= frame
        invariant i <= |ordered| && Valid()
        invariant Gathered(ring[..], ordered, frame, i, dirtyBits)
      {
        GatherNext(ring[..], ordered, frame, i, dirtyBits);
        dirtyBits := dirtyBits + ring[ordered[i]].dirtyBits;
        i := i + 1;
      }
      UpToInOrder(ring[..], head, ordered, frame, i, dirtyBits);
    }

    /** Restores frame: reverts the revert set page by page, leaves skipped pages live, and resets
        the write watch. A reverted page gets its content from a slot with the greatest frame at or
        before the target's that has it, else from the baseline, else zero; when frames ascend that is
        the delta store's load. The edge diff sees every reverted page. */
    method Load(frame: int, watchOk: bool, eb: EdgeBreak) returns (ok: bool)
      requires Valid()
      modifies mem, this`watch, this`dirtyBits, eb`tally, eb`pages
      ensures Valid() && ok == hasBaseline && (ok ==> watch == {})
      ensures !ok ==> Abs() == old(Abs())
      ensures ok ==> Loads(old(Abs()), old(RevertSpec(frame, watchOk)), Skipped(), frame, Abs())
      ensures ok && Ascending(old(Abs().slots)) ==>
        Abs() == DeltaStore.Load(old(Abs()), old(RevertSpec(frame, watchOk)), Skipped(), frame)
      ensures ok && windowedRestore ==> forall p: nat :: p < MAX_PAGES ==>
        if old(
          || (watchOk && p in watch)
          || (exists j :: 0 <= j < RING_SLOTS && ring[j].valid && ring[j].frame > frame && p in ring[j].dirtyBits)
          || (haveCfull && p in coherentFull && p in dirtyBits))
          && !(haveExclusions && p in rederiveExcluded && !(haveCfull && p in coherentFull))
        then Latest(old(Abs()), frame, p, mem[p]) else mem[p] == old(mem[p])
      ensures ok && !windowedRestore ==> forall p: nat :: p < MAX_PAGES ==>
        if p in old(dirtyBits) && !(haveExclusions && p in rederiveExcluded && !(haveCfull && p in coherentFull))
        then Latest(old(Abs()), frame, p, mem[p]) else mem[p] == old(mem[p])
      ensures ok && eb.on ==> eb.tally == ArenaCounts(eb.ranges, old(mem[..]), mem[..], |mem[..]|)
    {
      ghost var s, eff, skip := Abs(), RevertSpec(frame, watchOk), Skipped();
      RevertSpecIs(frame, watchOk);
      ok := hasBaseline;
      if ok {
        LoadFrame(frame, watchOk, eb);
        LoadsIsLoad(s, eff, skip, frame, Abs());
      }
    }

    method LoadFrame(frame: int, watchOk: bool, eb: EdgeBreak)
      requires Valid() && hasBaseline
      modifies mem, this`watch, this`dirtyBits, eb`tally, eb`pages
      ensures Valid()
      ensures Loads(old(Abs()), old(RevertSpec(frame, watchOk)), Skipped(), frame, Abs())
      ensures eb.on ==> eb.tally == ArenaCounts(eb.ranges, old(mem[..]), mem[..], |mem[..]|)
    {
      ghost var s, eff := Abs(), RevertSpec(frame, watchOk);
      var ordered := OrderSlots();
      Revert(frame, ordered, watchOk, eb);
      ghost var reverted := Abs();
      EndLoad(frame, ordered);
      LoadsFrom(s, eff, Skipped(), frame, reverted.live, Abs());
    }

    method EndLoad(frame: int, ordered: seq<nat>)
      requires Valid() && Ordered(ring[..], ordered)
      modifies this`dirtyBits, this`watch
      ensures Valid()
      ensures Abs() == old(Abs()).(dirty := WrittenUpTo(old(Abs()).slots, frame), watch := {})
    {
      RebuildUpTo(frame, ordered);
      watch := {};
    }

    method Revert(frame: int, ordered: seq<nat>, watchOk: bool, eb: EdgeBreak)
      requires Valid() && Ordered(ring[..], ordered)
      modifies mem, eb`tally, eb`pages
      ensures Valid() && Abs() == old(Abs()).(live := mem[..])
      ensures Reverted(old(Abs()), old(RevertSpec(frame, watchOk)), Skipped(), frame, mem[..])
      ensures eb.on ==> eb.tally == ArenaCounts(eb.ranges, old(mem[..]), mem[..], |mem[..]|)
    {
      var eff := RevertSet(frame, ordered, watchOk);
      RecalledIs(ordered, eff, frame);
      RevertAndDiff(frame, ordered, eff, eb);
    }

    method RevertAndDiff(frame: int, ordered: seq<nat>, eff: set<nat>, eb: EdgeBreak)
      requires MemOk() && Loading(ordered, eff)
      modifies mem, eb`tally, eb`pages
      ensures Valid() && mem[..] == old(Recalled(ordered, eff, frame))
      ensures eb.on ==> eb.tally == ArenaCounts(eb.ranges, old(mem[..]), mem[..], |mem[..]|)
    {
      eb.Begin();
      RevertPages(frame, ordered, eff, eb);
    }

    // ---------- the frame-n reader ----------

    /** Where page p's content of frame n is: its own walk, independent of the load's. */
    method ResolveSource(p: nat, n: int, ordered: seq<nat>, eff: set<nat>) returns (src: PageSrc)
      requires Loading(ordered, eff)
      ensures src.Live? <==> p !in eff
      ensures src.Absent? <==> p in eff && NoSource(n, p)
      ensures p in eff ==>
        Recall(ordered, n, p) == match src case FromRing(c) => c case FromBaseline(c) => c case _ => ZeroPage()
    {
      if p !in eff {
        return Live;
      }
      for si := |ordered| downto 0
        invariant WalkBack(ring[..], ordered, n, p, si) == WalkBack(ring[..], ordered, n, p, |ordered|)
        invariant forall a :: si <= a < |ordered| ==> !Holds(ring[ordered[a]], n, p)
      {
        var s := ring[ordered[si]];
        if s.frame <= n && p in s.dirtyBits {
          return FromRing(s.pageData[s.pageMap[p]]);
        }
      }
      if p in baselineBits {
        return FromBaseline(At(baselineMap[p], baseline, supplemental));
      }
      return Absent;
    }

    method PageAsOf(p: nat, n: int, ordered: seq<nat>, eff: set<nat>) returns (page: Page, none: bool)
      requires Loading(ordered, eff) && p < mem.Length
      ensures page == if p in eff then Recall(ordered, n, p) else mem[p]
      ensures none <==> p in eff && NoSource(n, p)
    {
      var src := ResolveSource(p, n, ordered, eff);
      none := src.Absent?;
      match src {
        case Live => page := mem[p];
        case FromRing(c) => page := c;
        case FromBaseline(c) => page := c;
        case Absent => page := ZeroPage();
      }
    }

    ghost predicate NoSource(n: int, p: nat)
      reads this, ring
      requires StoreOk()
    {
      (forall k :: 0 <= k < RING_SLOTS ==> !Holds(ring[k], n, p)) && p !in baselineMap
    }

    ghost predicate AnyAbsent(addr: nat, len: nat, n: int, eff: set<nat>)
      reads this, ring
      requires StoreOk()
    {
      exists p :: p in eff && Covers(addr, len, p) && NoSource(n, p)
    }

    lemma AbsentMore(addr: nat, done: nat, chunk: nat, len: nat, n: int, eff: set<nat>)
      requires StoreOk() && done < len && Boundary(addr, done, len) && chunk == ChunkLen(addr, done, len)
      ensures var p := PageOf(addr + done);
        AnyAbsent(addr, done + chunk, n, eff) <==> AnyAbsent(addr, done, n, eff) || (p in eff && NoSource(n, p))
    {
      forall q ensures Covers(addr, done + chunk, q) <==> Covers(addr, done, q) || q == PageOf(addr + done) {
        ChunkCovers(addr, done, chunk, q);
      }
    }

    /** A load of n, towards memory target, is at page f of its loop. */
    ghost predicate Reading(
        ordered: seq<nat>, eff: set<nat>, n: int, target: Memory, live: Memory, skip: set<nat>, f: nat)
      reads this, ring, mem
    {
      && Loading(ordered, eff) && mem.Length == MAX_PAGES && Frontier(mem[..], target, live, f)
      && forall p :: 0 <= p < MAX_PAGES ==>
           target[p] == if p in eff && p !in skip then Recall(ordered, n, p) else live[p]
    }

    ghost predicate ReadSoFar(
        out: seq<Byte>, absent: bool, addr: nat, len: nat, n: int, eff: set<nat>, target: Memory, skip: set<nat>)
      reads this, ring
      requires StoreOk()
    {
      && |out| <= len && addr + len <= ARENA_SIZE && Boundary(addr, |out|, len)
      && Agrees(out, addr, target, skip) && (absent <==> AnyAbsent(addr, |out|, n, eff))
    }

    method PageToward(p: nat, n: int, ordered: seq<nat>, eff: set<nat>,
                      ghost target: Memory, ghost live: Memory, ghost skip: set<nat>, ghost f: nat)
      returns (page: Page, none: bool)
      requires Reading(ordered, eff, n, target, live, skip, f) && p < MAX_PAGES
      ensures p !in skip ==> page == target[p]
      ensures none <==> p in eff && NoSource(n, p)
    {
      page, none := PageAsOf(p, n, ordered, eff);
    }

    method ReadChunk(sofar: seq<Byte>, was: bool, addr: nat, len: nat, n: int, ordered: seq<nat>, eff: set<nat>,
                     ghost target: Memory, ghost live: Memory, ghost skip: set<nat>, ghost f: nat)
      returns (out: seq<Byte>, absent: bool)
      requires Reading(ordered, eff, n, target, live, skip, f)
      requires ReadSoFar(sofar, was, addr, len, n, eff, target, skip) && |sofar| < len
      ensures ReadSoFar(out, absent, addr, len, n, eff, target, skip) && |out| > |sofar|
    {
      var done := |sofar|;
      var p, off, chunk := PageOf(addr + done), (addr + done) % PAGE_SIZE, ChunkLen(addr, done, len);
      var page, none := PageToward(p, n, ordered, eff, target, live, skip, f);
      AbsentMore(addr, done, chunk, len, n, eff);
      AgreesMore(sofar, addr, target, skip, page, chunk);
      absent := was || none;
      out := Extended(sofar, page, off, chunk);
    }

    /** Reads len bytes at arena offset addr as of frame n, while a load of n is at page f of its
        loop: on pages the load does not skip these are the bytes the finished load leaves there.
        absent says that some page had no source. */
    method SnapReadBytes(addr: nat, len: nat, n: int, ordered: seq<nat>, eff: set<nat>,
                         ghost target: Memory, ghost live: Memory, ghost skip: set<nat>, ghost f: nat)
      returns (ok: bool, out: seq<Byte>, absent: bool)
      requires Reading(ordered, eff, n, target, live, skip, f)
      ensures ok <==> len > 0 && addr + len <= ARENA_SIZE
      ensures ok ==> |out| == len
      ensures ok ==> Agrees(out, addr, target, skip)
      ensures ok ==> (absent <==> AnyAbsent(addr, len, n, eff))
    {
      absent, out := false, [];
      if len == 0 || addr + len > ARENA_SIZE {
        return false, out, absent;
      }
      while |out| < len
        invariant ReadSoFar(out, absent, addr, len, n, eff, target, skip)
        decreases len - |out|
      {
        out, absent := ReadChunk(out, absent, addr, len, n, ordered, eff, target, live, skip, f);
      }
      ok := true;
    }
  }

  /** The pages of done have their copies in the baseline buffer, each its own. */
  ghost predicate CopyOk(m: map<nat, Loc>, baseline: seq<Page>, mem: seq<Page>, done: set<nat>) {
    && m.Keys == done
    && (forall q :: q in m ==> q < |mem| && m[q].Base? && m[q].i < |baseline| && baseline[m[q].i] == mem[q])
    && (forall q, r :: q in m && r in m && q != r ==> m[q] != m[r])
  }

  lemma NothingCopied(mem: seq<Page>, committed: set<nat>)
    ensures CopyOk(map[], [], mem, {}) && Below(committed, 0) == {}
  {
  }

  lemma CopyStep(m: map<nat, Loc>, baseline: seq<Page>, mem: seq<Page>, done: set<nat>, p: nat)
    requires CopyOk(m, baseline, mem, done) && p !in done && p < |mem|
    ensures CopyOk(m[p := Base(|baseline|)], baseline + [mem[p]], mem, done + {p})
  {
  }

  lemma CopyIsBase(m: map<nat, Loc>, baseline: seq<Page>, mem: Memory, committed: set<nat>)
    requires CopyOk(m, baseline, mem, committed)
    ensures MapOk(m, baseline, [])
    ensures BaseOf(m, baseline, []).Keys == committed
    ensures forall p :: p in committed ==> p < MAX_PAGES && BaseOf(m, baseline, [])[p] == mem[p]
  {
  }

  lemma BaselineIs(s: Store, committed: set<nat>)
    requires s.watch == s.dirty == {} && s.room == SUPPLEMENTAL_MAX
    requires |s.slots| == RING_SLOTS && forall j :: 0 <= j < RING_SLOTS ==> s.slots[j] == None
    requires s.base.Keys == committed && forall p :: p in committed ==> p < MAX_PAGES && s.base[p] == s.live[p]
    ensures s == Baseline(s.live, committed, s.countdown, s.limit)
  {
    var b := Baseline(s.live, committed, s.countdown, s.limit);
    assert s.slots == b.slots;
    assert s.base == b.base;
  }

  ghost function Below(committed: set<nat>, p: nat): set<nat> {
    set q | q in committed && q < p
  }

  lemma BelowNext(committed: set<nat>, p: nat)
    ensures p !in Below(committed, p)
    ensures p in committed ==> Below(committed, p + 1) == Below(committed, p) + {p}
    ensures p !in committed ==> Below(committed, p + 1) == Below(committed, p)
  {
  }

  /** Below p there are all committed pages once there are as many, or once p is past the arena. */
  lemma AllBelow(committed: set<nat>, p: nat)
    requires |Below(committed, p)| >= |committed| || forall q :: q in committed ==> q < p
    ensures Below(committed, p) == committed
  {
    if Below(committed, p) != committed {
      assert Below(committed, p) < committed;
      var q :| q in committed && q !in Below(committed, p);
      assert Below(committed, p) <= committed - {q};
      SubsetSize(Below(committed, p), committed - {q});
    }
  }

  lemma {:induction false} SubsetSize(a: set<nat>, b: set<nat>)
    requires a <= b
    ensures |a| <= |b|
  {
    if a == {} {
    } else {
      var x :| x in a;
      SubsetSize(a - {x}, b - {x});
    }
  }

  /** A fold adds no pages but those of its slot. */
  lemma FoldKeys(base: map<nat, Page>, room: nat, o: Option<Delta>)
    requires o.Some? ==> o.value.Wf()
    ensures forall p :: p in Fold(base, room, o).0 ==> p in base || (o.Some? && p in o.value.pages)
  {
    if o.Some? {
      var d := o.value;
      assert d.order[..|d.order|] == d.order;
      forall p | p in Fold(base, room, o).0 ensures p in base || p in d.pages {
        FoldFirstIs(base, room, d, |d.order|, p);
      }
    }
  }

  lemma SaveIs(s: Store, s': Store, ok: bool, frame: int, buf: seq<nat>)
    requires s.Wf() && forall p :: p in buf <==> p in s.watch && p < s.limit
    requires s'.live == s.live && s'.limit == s.limit
    requires s'.watch == s.watch - set p | p in buf
    requires (s'.base, s'.room) == Fold(s.base, s.room, s.slots[0])
    requires s'.slots == s.slots[1..] + [if ok then Some(Capture(s.live, buf, frame)) else None]
    requires !ok ==> s'.dirty == s.dirty && s'.countdown == s.countdown
    requires ok ==> var rebuild := s.countdown - 1 <= 0;
      && s'.dirty == (if rebuild then AllWritten(s'.slots) else s.dirty + (set p | p in buf))
      && s'.countdown == if rebuild then RING_SLOTS else s.countdown - 1
    ensures s' == if ok then DeltaStore.Save(s, frame, buf) else FailedSave(s)
  {
    assert (set p | p in buf) == s.Harvest();
  }

  /** The first i pages of buf have been copied, packed in list order. */
  ghost predicate Copied(rs: Slot, mem: seq<Page>, buf: seq<nat>, i: nat)
    requires i <= |buf| <= |rs.pageData| && forall k :: 0 <= k < |buf| ==> buf[k] < |mem|
  {
    && rs.dirtyList == buf[..i]
    && (forall p :: p in rs.dirtyBits <==> p in buf[..i])
    && (forall k :: 0 <= k < i ==> buf[k] in rs.pageMap && rs.pageMap[buf[k]] == k && rs.pageData[k] == mem[buf[k]])
  }

  lemma CopiedIs(rs: Slot, mem: Memory, buf: seq<nat>)
    requires |buf| <= |rs.pageData| && Distinct(buf) && forall k :: 0 <= k < |buf| ==> buf[k] < MAX_PAGES
    requires Copied(rs, mem, buf, |buf|)
    ensures SlotOk(rs.(valid := true)) && DeltaOf(rs.(valid := true)) == Some(Capture(mem, buf, rs.frame))
    ensures forall p :: p in rs.dirtyBits <==> p in buf
  {
    assert buf[..|buf|] == buf;
    var pages: map<nat, Page> := map p | p in rs.dirtyBits :: rs.pageData[rs.pageMap[p]];
    assert pages == Capture(mem, buf, rs.frame).pages;
  }

  /** Stepping round the ring from the slot after head. */
  lemma RoundTheRing(head: nat, k: nat)
    requires head < RING_SLOTS && k < RING_SLOTS
    ensures ((head + 1) % RING_SLOTS + k) % RING_SLOTS ==
      if k + 1 < RING_SLOTS then (head + (k + 1)) % RING_SLOTS else head
    ensures k + 1 < RING_SLOTS ==> (head + (k + 1)) % RING_SLOTS != head
  {
  }

  /** The place of slot k in the rotation. */
  function Spot(head: nat, k: nat): (j: nat)
    requires head < RING_SLOTS && k < RING_SLOTS
    ensures j < RING_SLOTS && (head + j) % RING_SLOTS == k
  {
    if k >= head then k - head else k + RING_SLOTS - head
  }

  /** Every slot of the ring is in the rotation, and the rotation has no others. */
  lemma SlotInRotation(ring: seq<Slot>, head: nat, k: nat)
    requires |ring| == RING_SLOTS && head < RING_SLOTS && forall i :: 0 <= i < RING_SLOTS ==> SlotOk(ring[i])
    requires k < RING_SLOTS
    ensures DeltaOf(ring[k]) in Slots(ring, head)
  {
    SlotAtSpot(ring, head, Spot(head, k), k);
  }

  lemma SlotAtSpot(ring: seq<Slot>, head: nat, j: nat, k: nat)
    requires |ring| == RING_SLOTS && head < RING_SLOTS && forall i :: 0 <= i < RING_SLOTS ==> SlotOk(ring[i])
    requires j < RING_SLOTS && k < RING_SLOTS && (head + j) % RING_SLOTS == k
    ensures Slots(ring, head)[j] == DeltaOf(ring[k])
  {
  }

  lemma SlotInRing(ring: seq<Slot>, head: nat, j: nat)
    requires |ring| == RING_SLOTS && head < RING_SLOTS && forall i :: 0 <= i < RING_SLOTS ==> SlotOk(ring[i])
    requires j < RING_SLOTS
    ensures exists k :: 0 <= k < RING_SLOTS && Slots(ring, head)[j] == DeltaOf(ring[k])
  {
    assert Slots(ring, head)[j] == DeltaOf(ring[(head + j) % RING_SLOTS]);
  }

  lemma AllWrittenIs(ring: seq<Slot>, head: nat, bits: set<nat>)
    requires |ring| == RING_SLOTS && head < RING_SLOTS && forall i :: 0 <= i < RING_SLOTS ==> SlotOk(ring[i])
    requires forall p :: p in bits <==> exists k :: 0 <= k < RING_SLOTS && ring[k].valid && p in ring[k].dirtyBits
    ensures bits == AllWritten(Slots(ring, head))
  {
    var slots := Slots(ring, head);
    forall p | p in bits ensures p in AllWritten(slots) {
      var k :| 0 <= k < RING_SLOTS && ring[k].valid && p in ring[k].dirtyBits;
      SlotInRotation(ring, head, k);
      var j :| 0 <= j < |slots| && slots[j] == DeltaOf(ring[k]);
    }
    forall p | p in AllWritten(slots) ensures p in bits {
      var j :| 0 <= j < |slots| && slots[j].Some? && p in slots[j].value.pages;
      SlotInRing(ring, head, j);
      var k :| 0 <= k < RING_SLOTS && slots[j] == DeltaOf(ring[k]);
    }
  }

  lemma WrittenAfterIs(ring: seq<Slot>, head: nat, n: int, bits: set<nat>)
    requires |ring| == RING_SLOTS && head < RING_SLOTS && forall i :: 0 <= i < RING_SLOTS ==> SlotOk(ring[i])
    requires forall p :: p in bits <==>
      exists k :: 0 <= k < RING_SLOTS && ring[k].valid && ring[k].frame > n && p in ring[k].dirtyBits
    ensures bits == WrittenAfter(Slots(ring, head), n)
  {
    var slots := Slots(ring, head);
    forall p | p in bits ensures p in WrittenAfter(slots, n) {
      var k :| 0 <= k < RING_SLOTS && ring[k].valid && ring[k].frame > n && p in ring[k].dirtyBits;
      SlotInRotation(ring, head, k);
      var j :| 0 <= j < |slots| && slots[j] == DeltaOf(ring[k]);
    }
    forall p | p in WrittenAfter(slots, n) ensures p in bits {
      var j :| 0 <= j < |slots| && slots[j].Some? && slots[j].value.frame > n && p in slots[j].value.pages;
      SlotInRing(ring, head, j);
      var k :| 0 <= k < RING_SLOTS && slots[j] == DeltaOf(ring[k]);
    }
  }

  lemma WrittenUpToIs(ring: seq<Slot>, head: nat, n: int, bits: set<nat>)
    requires |ring| == RING_SLOTS && head < RING_SLOTS && forall i :: 0 <= i < RING_SLOTS ==> SlotOk(ring[i])
    requires forall p :: p in bits <==>
      exists k :: 0 <= k < RING_SLOTS && ring[k].valid && ring[k].frame <= n && p in ring[k].dirtyBits
    ensures bits == WrittenUpTo(Slots(ring, head), n)
  {
    var slots := Slots(ring, head);
    forall p | p in bits ensures p in WrittenUpTo(slots, n) {
      var k :| 0 <= k < RING_SLOTS && ring[k].valid && ring[k].frame <= n && p in ring[k].dirtyBits;
      SlotInRotation(ring, head, k);
      var j :| 0 <= j < |slots| && slots[j] == DeltaOf(ring[k]);
    }
    forall p | p in WrittenUpTo(slots, n) ensures p in bits {
      var j :| 0 <= j < |slots| && slots[j].Some? && slots[j].value.frame <= n && p in slots[j].value.pages;
      SlotInRing(ring, head, j);
      var k :| 0 <= k < RING_SLOTS && slots[j] == DeltaOf(ring[k]);
    }
  }

  // ---------- the walk over the ordered slots ----------

  lemma OnePageMore(r: Ranges, live: Memory, target: Memory, p: nat, c0: Counts, c: Counts, c': Counts)
    requires p < MAX_PAGES
    requires c == c0.Plus(ArenaCounts(r, live, target, p))
    requires c' == c.Plus(PageCounts(r, live[p], target[p], |live[p]| / 8))
    ensures c' == c0.Plus(ArenaCounts(r, live, target, p + 1))
  {
  }

  /** Mid-load memory: pages below p are restored, the rest still live. */
  ghost predicate Frontier(mem: seq<Page>, target: Memory, live: Memory, p: nat) {
    |mem| == MAX_PAGES && forall q :: 0 <= q < MAX_PAGES ==> mem[q] == if q < p then target[q] else live[q]
  }

  ghost predicate Lists(ring: seq<Slot>, ordered: seq<nat>) {
    && (forall a :: 0 <= a < |ordered| ==> ordered[a] < |ring| && ring[ordered[a]].valid)
    && (forall k :: 0 <= k < |ring| && ring[k].valid ==> k in ordered)
  }

  /** The first i entries are in place. */
  ghost predicate SortedTo(ring: seq<Slot>, ordered: seq<nat>, i: nat)
    requires Lists(ring, ordered)
  {
    forall a, b :: 0 <= a < i && a < b < |ordered| ==> ring[ordered[a]].frame <= ring[ordered[b]].frame
  }

  /** ordered lists exactly the valid slots, by ascending frame. */
  ghost predicate Ordered(ring: seq<Slot>, ordered: seq<nat>) {
    Lists(ring, ordered) && SortedTo(ring, ordered, |ordered|)
  }

  function Exchange(ghost ring: seq<Slot>, s: seq<nat>, i: nat, j: nat): (r: seq<nat>)
    requires i < j < |s| && Lists(ring, s) && SortedTo(ring, s, i)
    ensures |r| == |s| && r[i] == s[j] && r[j] == s[i] && forall k :: 0 <= k < |s| && k != i && k != j ==> r[k] == s[k]
    ensures Lists(ring, r) && SortedTo(ring, r, i)
  {
    var r := s[i := s[j]][j := s[i]];
    assert forall k :: 0 <= k < |s| ==> s[k] == r[if k == i then j else if k == j then i else k];
    assert forall k :: 0 <= k < |s| ==> r[k] == s[if k == i then j else if k == j then i else k];
    r
  }

  ghost predicate After(s: Slot, n: int, p: nat) {
    s.valid && s.frame > n && p in s.dirtyBits
  }

  lemma AfterInOrder(ring: seq<Slot>, head: nat, ordered: seq<nat>, n: int, bits: set<nat>)
    requires |ring| == RING_SLOTS && head < RING_SLOTS && forall k :: 0 <= k < RING_SLOTS ==> SlotOk(ring[k])
    requires Ordered(ring, ordered)
    requires forall p :: p in bits <==> exists a :: 0 <= a < |ordered| && After(ring[ordered[a]], n, p)
    ensures bits == WrittenAfter(Slots(ring, head), n)
  {
    forall p ensures p in bits <==>
      exists k :: 0 <= k < RING_SLOTS && ring[k].valid && ring[k].frame > n && p in ring[k].dirtyBits
    {
      if k :| 0 <= k < RING_SLOTS && ring[k].valid && ring[k].frame > n && p in ring[k].dirtyBits {
        var a :| 0 <= a < |ordered| && ordered[a] == k;
        assert After(ring[ordered[a]], n, p);
      }
    }
    WrittenAfterIs(ring, head, n, bits);
  }

  /** bits is the union of the dirty sets of the first i slots in order. */
  ghost predicate Gathered(ring: seq<Slot>, ordered: seq<nat>, n: int, i: nat, bits: set<nat>)
    requires |ring| == RING_SLOTS && Ordered(ring, ordered) && i <= |ordered|
  {
    forall p :: p in bits <==> exists a :: 0 <= a < i && Holds(ring[ordered[a]], n, p)
  }

  lemma GatherNext(ring: seq<Slot>, ordered: seq<nat>, n: int, i: nat, bits: set<nat>)
    requires |ring| == RING_SLOTS && Ordered(ring, ordered) && i < |ordered| && ring[ordered[i]].frame <= n
    requires Gathered(ring, ordered, n, i, bits)
    ensures Gathered(ring, ordered, n, i + 1, bits + ring[ordered[i]].dirtyBits)
  {
    forall p
      ensures p in bits + ring[ordered[i]].dirtyBits <==> exists a :: 0 <= a < i + 1 && Holds(ring[ordered[a]], n, p)
    {
      assert Holds(ring[ordered[i]], n, p) <==> p in ring[ordered[i]].dirtyBits;
    }
  }

  lemma UpToInOrder(ring: seq<Slot>, head: nat, ordered: seq<nat>, n: int, i: nat, bits: set<nat>)
    requires |ring| == RING_SLOTS && head < RING_SLOTS && forall k :: 0 <= k < RING_SLOTS ==> SlotOk(ring[k])
    requires Ordered(ring, ordered) && i <= |ordered| && (i < |ordered| ==> ring[ordered[i]].frame > n)
    requires Gathered(ring, ordered, n, i, bits)
    ensures bits == WrittenUpTo(Slots(ring, head), n)
  {
    forall p ensures p in bits <==>
      exists k :: 0 <= k < RING_SLOTS && ring[k].valid && ring[k].frame <= n && p in ring[k].dirtyBits
    {
      if k :| 0 <= k < RING_SLOTS && ring[k].valid && ring[k].frame <= n && p in ring[k].dirtyBits {
        var a :| 0 <= a < |ordered| && ordered[a] == k;
        assert a < i;
        assert Holds(ring[ordered[a]], n, p);
      }
    }
    WrittenUpToIs(ring, head, n, bits);
  }

  /** Slot k holds page p of a frame at or before n. */
  ghost predicate Holds(s: Slot, n: int, p: nat) {
    s.valid && s.frame <= n && p in s.dirtyBits
  }

  /** Frames ascend from the oldest slot to the newest, as they do when saves count up. */
  ghost predicate Ascending(slots: seq<Option<Delta>>) {
    forall a, b :: 0 <= a < b < |slots| && slots[a].Some? && slots[b].Some? ==>
      slots[a].value.frame < slots[b].value.frame
  }

  lemma {:induction false} NewestIsMax(slots: seq<Option<Delta>>, n: int, p: nat, j: nat)
    requires Ascending(slots) && j < |slots| && slots[j].Some? && slots[j].value.frame <= n && p in slots[j].value.pages
    requires forall i ::
      0 <= i < |slots| && slots[i].Some? && slots[i].value.frame <= n && p in slots[i].value.pages
      ==> slots[i].value.frame <= slots[j].value.frame
    ensures Newest(slots, n, p) == Some(slots[j].value.pages[p])
  {
    if j == |slots| - 1 {
    } else {
      NewestIsMax(slots[..|slots| - 1], n, p, j);
    }
  }

  /** The first hit of the walk back over the first m ordered slots. */
  ghost function WalkBack(ring: seq<Slot>, ordered: seq<nat>, n: int, p: nat, m: nat): Option<Page>
    requires Lists(ring, ordered) && m <= |ordered| && forall k :: 0 <= k < |ring| ==> SlotOk(ring[k])
  {
    if m == 0 then None
    else
      var s := ring[ordered[m - 1]];
      assert SlotOk(s);
      if Holds(s, n, p) then Some(s.pageData[s.pageMap[p]]) else WalkBack(ring, ordered, n, p, m - 1)
  }

  ghost function RecallFrom(ring: seq<Slot>, base: map<nat, Page>, ordered: seq<nat>, n: int, p: nat): Page
    requires Lists(ring, ordered) && forall k :: 0 <= k < |ring| ==> SlotOk(ring[k])
  {
    match WalkBack(ring, ordered, n, p, |ordered|)
    case Some(c) => c
    case None => BasePage(base, p)
  }

  ghost predicate HoldsAt(slots: seq<Option<Delta>>, j: nat, n: int, p: nat) {
    j < |slots| && slots[j].Some? && slots[j].value.frame <= n && p in slots[j].value.pages
  }

  /** Slot j has page p at or before frame n, and no slot that does has a greater frame. */
  ghost predicate LatestAt(slots: seq<Option<Delta>>, j: nat, n: int, p: nat) {
    HoldsAt(slots, j, n, p) && forall i: nat :: HoldsAt(slots, i, n, p) ==> slots[i].value.frame <= slots[j].value.frame
  }

  /** c is a content of page p at frame n: that of a latest slot, else the baseline's, else zero. */
  ghost predicate Latest(s: Store, n: int, p: nat, c: Page) {
    || (exists j: nat :: LatestAt(s.slots, j, n, p) && c == s.slots[j].value.pages[p])
    || ((forall j: nat :: !HoldsAt(s.slots, j, n, p)) && c == BasePage(s.base, p))
  }

  ghost predicate Reverted(s: Store, revert: set<nat>, skip: set<nat>, n: int, live: Memory) {
    forall p :: 0 <= p < MAX_PAGES ==>
      if p in revert && p !in skip then Latest(s, n, p, live[p]) else live[p] == s.live[p]
  }

  ghost predicate Loads(s: Store, revert: set<nat>, skip: set<nat>, n: int, s': Store) {
    Reverted(s, revert, skip, n, s'.live) && s' == s.(live := s'.live, watch := {}, dirty := WrittenUpTo(s.slots, n))
  }

  lemma LoadsFrom(s: Store, revert: set<nat>, skip: set<nat>, n: int, live: Memory, s': Store)
    requires Reverted(s, revert, skip, n, live)
    requires s' == s.(live := live).(dirty := WrittenUpTo(s.slots, n), watch := {})
    ensures Loads(s, revert, skip, n, s')
  {
  }

  /** With ascending frames the latest content is the one the delta store answers with. */
  lemma LatestIsSource(s: Store, n: int, p: nat, c: Page)
    requires Ascending(s.slots) && Latest(s, n, p, c)
    ensures c == Source(s, n, p)
  {
    if j: nat :| LatestAt(s.slots, j, n, p) && c == s.slots[j].value.pages[p] {
      forall i | 0 <= i < |s.slots| && s.slots[i].Some? && s.slots[i].value.frame <= n && p in s.slots[i].value.pages
        ensures s.slots[i].value.frame <= s.slots[j].value.frame
      {
        assert HoldsAt(s.slots, i, n, p);
      }
      NewestIsMax(s.slots, n, p, j);
    } else {
      forall i | 0 <= i < |s.slots| && s.slots[i].Some?
        ensures s.slots[i].value.frame > n || p !in s.slots[i].value.pages
      {
        assert !HoldsAt(s.slots, i, n, p);
      }
      NewestMissing(s.slots, n, p);
    }
  }

  lemma LoadsIsLoad(s: Store, revert: set<nat>, skip: set<nat>, n: int, s': Store)
    requires Loads(s, revert, skip, n, s')
    ensures Ascending(s.slots) ==> s' == DeltaStore.Load(s, revert, skip, n)
  {
    if Ascending(s.slots) {
      forall p | 0 <= p < MAX_PAGES ensures s'.live[p] == Restore(s, revert, skip, n)[p] {
        if p in revert && p !in skip {
          LatestIsSource(s, n, p, s'.live[p]);
        }
      }
      assert s'.live == Restore(s, revert, skip, n);
    }
  }

  lemma WalkIsLatest(ring: seq<Slot>, head: nat, ordered: seq<nat>, n: int, p: nat, s: Store)
    requires |ring| == RING_SLOTS && head < RING_SLOTS && forall k :: 0 <= k < RING_SLOTS ==> SlotOk(ring[k])
    requires Ordered(ring, ordered) && s.slots == Slots(ring, head)
    ensures Latest(s, n, p, RecallFrom(ring, s.base, ordered, n, p))
  {
    var m: nat := |ordered|;
    while m > 0 && !Holds(ring[ordered[m - 1]], n, p)
      invariant m <= |ordered| && WalkBack(ring, ordered, n, p, m) == WalkBack(ring, ordered, n, p, |ordered|)
      invariant forall a :: m <= a < |ordered| ==> !Holds(ring[ordered[a]], n, p)
    {
      m := m - 1;
    }
    if m > 0 {
      WalkHits(ring, head, ordered, n, p, m - 1);
    } else {
      WalkMisses(ring, head, ordered, n, p);
    }
  }

  /** The first hit of the backward walk is a latest content. */
  lemma WalkHits(ring: seq<Slot>, head: nat, ordered: seq<nat>, n: int, p: nat, i: nat)
    requires |ring| == RING_SLOTS && head < RING_SLOTS && forall k :: 0 <= k < RING_SLOTS ==> SlotOk(ring[k])
    requires Ordered(ring, ordered)
    requires i < |ordered| && Holds(ring[ordered[i]], n, p)
    requires forall a :: i < a < |ordered| ==> !Holds(ring[ordered[a]], n, p)
    ensures var slots, s := Slots(ring, head), ring[ordered[i]];
      exists j: nat :: LatestAt(slots, j, n, p) && s.pageData[s.pageMap[p]] == slots[j].value.pages[p]
  {
    var slots, s := Slots(ring, head), ring[ordered[i]];
    SlotInRotation(ring, head, ordered[i]);
    var j :| 0 <= j < |slots| && slots[j] == DeltaOf(s);
    forall l: nat | HoldsAt(slots, l, n, p) ensures slots[l].value.frame <= s.frame {
      SlotInRing(ring, head, l);
      var k :| 0 <= k < RING_SLOTS && slots[l] == DeltaOf(ring[k]);
      NoLaterHit(ring, ordered, n, p, i, k);
    }
    assert LatestAt(slots, j, n, p);
  }

  lemma NoLaterHit(ring: seq<Slot>, ordered: seq<nat>, n: int, p: nat, i: nat, k: nat)
    requires Ordered(ring, ordered) && i < |ordered| && k < |ring| && Holds(ring[k], n, p)
    requires forall a :: i < a < |ordered| ==> !Holds(ring[ordered[a]], n, p)
    ensures ring[k].frame <= ring[ordered[i]].frame
  {
    var a :| 0 <= a < |ordered| && ordered[a] == k;
    assert a <= i;
  }

  lemma WalkMisses(ring: seq<Slot>, head: nat, ordered: seq<nat>, n: int, p: nat)
    requires |ring| == RING_SLOTS && head < RING_SLOTS && forall k :: 0 <= k < RING_SLOTS ==> SlotOk(ring[k])
    requires Ordered(ring, ordered) && forall a :: 0 <= a < |ordered| ==> !Holds(ring[ordered[a]], n, p)
    ensures forall l: nat :: !HoldsAt(Slots(ring, head), l, n, p)
  {
    var slots := Slots(ring, head);
    forall l: nat | l < |slots| ensures !HoldsAt(slots, l, n, p) {
      SlotInRing(ring, head, l);
      var k :| 0 <= k < RING_SLOTS && slots[l] == DeltaOf(ring[k]);
      if ring[k].valid {
        var a :| 0 <= a < |ordered| && ordered[a] == k;
        assert !Holds(ring[ordered[a]], n, p);
      }
    }
  }

  lemma NoSlots(ring: seq<Slot>, head: nat)
    requires |ring| == RING_SLOTS && head < RING_SLOTS && forall i :: 0 <= i < RING_SLOTS ==> !ring[i].valid
    ensures forall j :: 0 <= j < RING_SLOTS ==> Slots(ring, head)[j] == None
  {
    assert forall j :: 0 <= j < RING_SLOTS ==> Slots(ring, head)[j] == DeltaOf(ring[(head + j) % RING_SLOTS]);
  }

  /** Refilling the head slot and advancing the head is one shift of the rotation. */
  lemma Rotate(ring: seq<Slot>, head: nat, s: Slot)
    requires |ring| == RING_SLOTS && head < RING_SLOTS && SlotOk(s)
    requires forall i :: 0 <= i < RING_SLOTS ==> SlotOk(ring[i])
    ensures Slots(ring[head := s], (head + 1) % RING_SLOTS) == Slots(ring, head)[1..] + [DeltaOf(s)]
  {
    var a, b := Slots(ring[head := s], (head + 1) % RING_SLOTS), Slots(ring, head)[1..] + [DeltaOf(s)];
    forall j | 0 <= j < RING_SLOTS ensures a[j] == b[j] {
      RoundTheRing(head, j);
    }
  }
}

/**
 The snapshot store on values: live memory, the kernel's write-watch set, sixty slots of
 dirty-page deltas (oldest first, the next one to be evicted in front), and the baseline that
 absorbs every evicted slot. SnapshotEngine implements each transition below in place.
 */
module DeltaStore {
  import opened Pages

  /** One save: the frame, the harvested pages, and the order in which the kernel reported them. */
  datatype Delta = Delta(frame: int, pages: map<nat, Page>, order: seq<nat>) {
    ghost predicate Wf() {
      && (forall i, j :: 0 <= i < j < |order| ==> order[i] != order[j])
      && (forall p :: p in order <==> p in pages)
    }
  }

  /** room: supplemental baseline pages not yet used; limit: first page above the scanned range. */
  datatype Store = Store(
    live: Memory, watch: set<nat>, slots: seq<Option<Delta>>, base: map<nat, Page>,
    room: nat, dirty: set<nat>, countdown: int, limit: nat)
  {
    ghost predicate Wf() {
      && |slots| == RING_SLOTS
      && (forall j :: 0 <= j < |slots| && slots[j].Some? ==> slots[j].value.Wf())
    }

    function Harvest(): set<nat> {
      set p | p in watch && p < limit
    }
  }

  // ---------- reading a frame back ----------

  /** The newest captured content of page p among slots at or before frame n. */
  function Newest(slots: seq<Option<Delta>>, n: int, p: nat): Option<Page> {
    if slots == [] then None
    else
      var last := slots[|slots| - 1];
      if last.Some? && last.value.frame <= n && p in last.value.pages then Some(last.value.pages[p])
      else Newest(slots[..|slots| - 1], n, p)
  }

  lemma {:induction false} NewestMissing(slots: seq<Option<Delta>>, n: int, p: nat)
    requires forall j :: 0 <= j < |slots| && slots[j].Some? ==> slots[j].value.frame > n || p !in slots[j].value.pages
    ensures Newest(slots, n, p) == None
  {
    if slots == [] {
    } else {
      NewestMissing(slots[..|slots| - 1], n, p);
    }
  }

  function BasePage(base: map<nat, Page>, p: nat): Page {
    if p in base then base[p] else ZeroPage()
  }

  function Source(s: Store, n: int, p: nat): Page {
    match Newest(s.slots, n, p)
    case Some(c) => c
    case None => BasePage(s.base, p)
  }

  function Restore(s: Store, revert: set<nat>, skip: set<nat>, n: int): Memory {
    seq(MAX_PAGES, p requires 0 <= p < MAX_PAGES =>
      if p in revert && p !in skip then Source(s, n, p) else s.live[p])
  }

  function WrittenAfter(slots: seq<Option<Delta>>, n: int): set<nat> {
    set j, p | 0 <= j < |slots| && slots[j].Some? && slots[j].value.frame > n && p in slots[j].value.pages :: p
  }

  function WrittenUpTo(slots: seq<Option<Delta>>, n: int): set<nat> {
    set j, p | 0 <= j < |slots| && slots[j].Some? && slots[j].value.frame <= n && p in slots[j].value.pages :: p
  }

  function AllWritten(slots: seq<Option<Delta>>): set<nat> {
    set j, p | 0 <= j < |slots| && slots[j].Some? && p in slots[j].value.pages :: p
  }

  /** The windowed revert set: pages saved after n, pages written since the last save, and the
      historically dirty pages of a coherent-full range. */
  function Windowed(s: Store, n: int, cfull: set<nat>): set<nat> {
    WrittenAfter(s.slots, n) + s.watch + (cfull * s.dirty)
  }

  /** A windowed load merges the pending writes if the write watch could be queried. */
  datatype Mode = InWindow(cfull: set<nat>, merged: bool) | Full

  /** The set of pages a load of n undoes. */
  function Undone(s: Store, n: int, mode: Mode): set<nat> {
    match mode
    case InWindow(cfull, merged) =>
      if merged then Windowed(s, n, cfull) else WrittenAfter(s.slots, n) + (cfull * s.dirty)
    case Full => s.dirty
  }

  // ---------- transitions ----------

  /** The state capture_baseline leaves: every committed page copied, no slot valid. */
  function Baseline(live: Memory, committed: set<nat>, countdown: int, limit: nat): Store {
    Store(live, {}, seq(RING_SLOTS, _ => None), map p | p in committed && p < MAX_PAGES :: live[p],
          SUPPLEMENTAL_MAX, {}, countdown, limit)
  }

  /** Folding one page. A page that is new to the baseline takes a supplemental page; with none
      left it is dropped. */
  function FoldOne(base: map<nat, Page>, room: nat, p: nat, c: Page): (map<nat, Page>, nat) {
    if p in base then (base[p := c], room)
    else if room > 0 then (base[p := c], room - 1)
    else (base, room)
  }

  /** Folding the first i pages of an evicted slot. */
  function FoldFirst(base: map<nat, Page>, room: nat, d: Delta, i: nat): (map<nat, Page>, nat)
    requires i <= |d.order|
  {
    if i == 0 then (base, room)
    else
      var (b, r) := FoldFirst(base, room, d, i - 1);
      var p := d.order[i - 1];
      if p !in d.pages then (b, r) else FoldOne(b, r, p, d.pages[p])
  }

  function Fold(base: map<nat, Page>, room: nat, o: Option<Delta>): (map<nat, Page>, nat) {
    if o.Some? then FoldFirst(base, room, o.value, |o.value.order|) else (base, room)
  }

  function Capture(live: Memory, order: seq<nat>, frame: int): Delta {
    Delta(frame, map p | p in order && p < MAX_PAGES :: live[p], order)
  }

  function Write(s: Store, p: nat, c: Page): Store
    requires p < MAX_PAGES
  {
    s.(live := s.live[p := c], watch := s.watch + {p})
  }

  /** A save that succeeds: evict and fold the oldest slot, capture the harvested pages. */
  function Save(s: Store, frame: int, order: seq<nat>): Store
    requires s.Wf()
  {
    var (b, r) := Fold(s.base, s.room, s.slots[0]);
    var slots := s.slots[1..] + [Some(Capture(s.live, order, frame))];
    var rebuild := s.countdown - 1 <= 0;
    s.(watch := s.watch - s.Harvest(), slots := slots, base := b, room := r,
       dirty := if rebuild then AllWritten(slots) else s.dirty + s.Harvest(),
       countdown := if rebuild then RING_SLOTS else s.countdown - 1)
  }

  /** A save whose page buffer could not be allocated: the slot is already evicted and the
      write-watch bits are already consumed. */
  function FailedSave(s: Store): Store
    requires s.Wf()
  {
    var (b, r) := Fold(s.base, s.room, s.slots[0]);
    s.(watch := s.watch - s.Harvest(), slots := s.slots[1..] + [None], base := b, room := r)
  }

  function Load(s: Store, revert: set<nat>, skip: set<nat>, n: int): Store {
    s.(live := Restore(s, revert, skip, n), watch := {}, dirty := WrittenUpTo(s.slots, n))
  }

  // ---------- the fold keeps every page exactly when there is room ----------

  /** How many of the first i captured pages are new to the baseline. */
  function NewCount(base: map<nat, Page>, d: Delta, i: nat): nat
    requires i <= |d.order|
  {
    if i == 0 then 0 else NewCount(base, d, i - 1) + (if d.order[i - 1] in base then 0 else 1)
  }

  lemma {:induction false} FoldFirstIs(base: map<nat, Page>, room: nat, d: Delta, i: nat, p: nat)
    requires d.Wf() && i <= |d.order|
    ensures var b := FoldFirst(base, room, d, i).0;
      && (p in b ==> p in base || p in d.order[..i])
      && (p in base ==> p in b)
      && (p in b ==> b[p] == if p in d.order[..i] then d.pages[p] else base[p])
  {
    if i == 0 {
    } else {
      FoldFirstIs(base, room, d, i - 1, p);
      assert d.order[..i] == d.order[..i - 1] + [d.order[i - 1]];
      assert d.order[i - 1] in d.order;
    }
  }

  /** As long as the new pages fit, every page is folded and the room shrinks by their number. */
  lemma {:induction false} FoldFirstFits(base: map<nat, Page>, room: nat, d: Delta, i: nat)
    requires d.Wf() && i <= |d.order| && NewCount(base, d, i) <= room
    ensures FoldFirst(base, room, d, i).1 == room - NewCount(base, d, i)
    ensures forall j :: 0 <= j < i ==> d.order[j] in FoldFirst(base, room, d, i).0
  {
    if i == 0 {
    } else {
      FoldFirstFits(base, room, d, i - 1);
      assert d.order[i - 1] in d.order;
      FoldFirstIs(base, room, d, i - 1, d.order[i - 1]);
    }
  }

  /** Once they do not, some page has been dropped. */
  lemma {:induction false} FoldFirstDrops(base: map<nat, Page>, room: nat, d: Delta, i: nat) returns (j: nat)
    requires d.Wf() && i <= |d.order| && NewCount(base, d, i) > room
    ensures FoldFirst(base, room, d, i).1 == 0
    ensures j < i && d.order[j] !in FoldFirst(base, room, d, i).0
  {
    var p := d.order[i - 1];
    FoldFirstIs(base, room, d, i - 1, p);
    assert p !in d.order[..i - 1];
    if NewCount(base, d, i - 1) <= room {
      FoldFirstFits(base, room, d, i - 1);
      j := i - 1;
    } else {
      j := FoldFirstDrops(base, room, d, i - 1);
    }
  }

  /** Folding an evicted slot overwrites the baseline with all of its pages if and only if the
      pages new to the baseline fit in the supplemental area. */
  lemma FoldKeepsAllIffRoom(base: map<nat, Page>, room: nat, d: Delta)
    requires d.Wf()
    ensures Fold(base, room, Some(d)).0 == base + d.pages <==> NewCount(base, d, |d.order|) <= room
    ensures NewCount(base, d, |d.order|) <= room ==> Fold(base, room, Some(d)).1 == room - NewCount(base, d, |d.order|)
  {
    var n := |d.order|;
    var b := Fold(base, room, Some(d)).0;
    if NewCount(base, d, n) <= room {
      FoldFirstFits(base, room, d, n);
      assert d.order[..n] == d.order;
      forall p ensures p in b <==> p in base + d.pages
      ensures p in b ==> b[p] == (base + d.pages)[p] {
        FoldFirstIs(base, room, d, n, p);
      }
      assert b == base + d.pages;
    } else {
      var j := FoldFirstDrops(base, room, d, n);
      assert d.order[j] in d.order;
      assert d.order[j] in base + d.pages;
    }
  }
}

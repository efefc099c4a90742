/** A history beside the delta store, with the origin of every page content. */
module Provenance {
  import opened Pages
  import opened DeltaStore

  // Every save, kept or failed, and every load adds an entry with a full copy of memory; for each page the
  // entry also names its origin, the entry at which the content was first seen. The store is tied to the
  // history by origins alone: each slot, the baseline and live memory hold, page by page, the content of a
  // known entry.

  type Origins = o: seq<nat> | |o| == MAX_PAGES witness seq(MAX_PAGES, _ => 0)

  /** A set of entries for every page. */
  type Marks = m: seq<set<nat>> | |m| == MAX_PAGES witness seq(MAX_PAGES, _ => {})

  datatype Entry = Entry(frame: int, mem: Memory, of: Origins)

  /** hist[0] is the captured baseline. at names the entry in each slot, folded the last one folded;
      baseOf and liveOf are the origins of the baseline's pages and of the pages not watched. dead[p]
      holds the entries that are off the timeline of page p, because a rollback went below them, and
      lost[p] those whose content of p was dropped: it is in no slot and not in the baseline. */
  datatype Trace = Trace(s: Store, hist: seq<Entry>, at: seq<Option<nat>>, folded: nat, baseOf: Origins,
                         liveOf: Origins, dead: Marks, lost: Marks)

  // ---------- the coupling by origins ----------

  /** Entry i is where page p first had its content. */
  predicate Own(h: seq<Entry>, i: nat, p: nat) {
    p < MAX_PAGES && i < |h| && h[i].of[p] == i
  }

  predicate Names(h: seq<Entry>, i: nat, p: nat, c: Page) {
    Own(h, i, p) && h[i].mem[p] == c
  }

  ghost predicate EntryOk(h: seq<Entry>, i: nat)
    requires i < |h|
  {
    forall p :: 0 <= p < MAX_PAGES ==> h[i].of[p] <= i && Names(h, h[i].of[p], p, h[i].mem[p])
  }

  ghost predicate HistOk(h: seq<Entry>) {
    h != [] && forall i :: 0 <= i < |h| ==> EntryOk(h, i)
  }

  ghost predicate Shape(t: Trace) {
    && t.s.Wf() && |t.at| == RING_SLOTS && t.folded < |t.hist|
    && (forall p :: p in t.s.watch ==> p < MAX_PAGES)
    && (forall j :: 0 <= j < RING_SLOTS ==> t.at[j].Some? == t.s.slots[j].Some?)
  }

  ghost predicate SlotOk(t: Trace, j: nat)
    requires Shape(t) && j < RING_SLOTS
  {
    t.at[j].Some? ==>
      var i, d := t.at[j].value, t.s.slots[j].value;
      i < |t.hist| && d.frame == t.hist[i].frame && forall p :: p in d.pages ==> Names(t.hist, i, p, d.pages[p])
  }

  ghost predicate SlotsOk(t: Trace)
    requires Shape(t)
  {
    forall j :: 0 <= j < RING_SLOTS ==> SlotOk(t, j)
  }

  /** Slots ascend by entry and by frame. */
  ghost predicate Ascends(t: Trace, j: nat, k: nat)
    requires Shape(t) && SlotsOk(t) && j < RING_SLOTS && k < RING_SLOTS
  {
    t.at[j].Some? && t.at[k].Some? ==>
      t.at[j].value < t.at[k].value && t.s.slots[j].value.frame < t.s.slots[k].value.frame
  }

  ghost predicate OrderOk(t: Trace)
    requires Shape(t) && SlotsOk(t)
  {
    && (forall j, k :: 0 <= j < k < RING_SLOTS ==> Ascends(t, j, k))
    && (forall j :: 0 <= j < RING_SLOTS && t.at[j].Some? ==> t.folded < t.at[j].value)
  }

  ghost predicate BaseOk(t: Trace)
    requires Shape(t)
  {
    forall p :: 0 <= p < MAX_PAGES ==>
      && t.baseOf[p] <= t.folded && Names(t.hist, t.baseOf[p], p, BasePage(t.s.base, p))
      && (t.baseOf[p] > 0 ==> p in t.s.base)
  }

  ghost predicate LiveOk(t: Trace) {
    forall p :: 0 <= p < MAX_PAGES && p !in t.s.watch ==> Names(t.hist, t.liveOf[p], p, t.s.live[p])
  }

  ghost predicate Labels(t: Trace) {
    Shape(t) && HistOk(t.hist) && SlotsOk(t) && OrderOk(t) && BaseOk(t) && LiveOk(t)
  }

  // ---------- the current timeline ----------

  ghost predicate InSlot(t: Trace, j: nat, i: nat, p: nat)
    requires Shape(t) && SlotsOk(t) && j < RING_SLOTS
  {
    t.at[j] == Some(i) && p in t.s.slots[j].value.pages
  }

  ghost predicate InRing(t: Trace, i: nat, p: nat)
    requires Shape(t) && SlotsOk(t)
  {
    exists j :: 0 <= j < RING_SLOTS && InSlot(t, j, i, p)
  }

  /** The content entry i has of page p is in the ring, or the baseline holds that or newer. */
  ghost predicate Held(t: Trace, i: nat, p: nat)
    requires Shape(t) && SlotsOk(t) && p < MAX_PAGES
  {
    InRing(t, i, p) || i <= t.baseOf[p]
  }

  predicate OwnLive(t: Trace, i: nat, p: nat) {
    p < MAX_PAGES && Own(t.hist, i, p) && i !in t.dead[p]
  }

  /** On the timeline of page p the newest entry that owns a content of it is the origin of every
      later entry, and of live memory. */
  ghost predicate LineOk(t: Trace, p: nat)
    requires p < MAX_PAGES
  {
    && (forall i :: i in t.dead[p] ==> i < |t.hist|)
    && (forall i: nat :: i < |t.hist| && i !in t.dead[p] ==> t.hist[i].of[p] !in t.dead[p])
    && (forall i: nat, j: nat :: OwnLive(t, i, p) && i <= j < |t.hist| && j !in t.dead[p] ==> i <= t.hist[j].of[p])
    && (p !in t.s.watch ==> t.liveOf[p] !in t.dead[p] && forall i: nat :: OwnLive(t, i, p) ==> i <= t.liveOf[p])
  }

  ghost predicate KeptOk(t: Trace, p: nat)
    requires Shape(t) && SlotsOk(t) && p < MAX_PAGES
  {
    && (forall i: nat :: OwnLive(t, i, p) ==> Held(t, i, p) || i in t.lost[p])
    && (forall i: nat :: i in t.lost[p] ==> i < |t.hist| && t.baseOf[p] != i && !InRing(t, i, p))
  }

  ghost predicate Inv(t: Trace) {
    Labels(t) && forall p: nat :: p < MAX_PAGES ==> LineOk(t, p) && KeptOk(t, p)
  }

  // ---------- reading back ----------

  /** The entry that frame n stands for: the newest one in the ring at or before n, else the one
      folded last. */
  ghost function Target(t: Trace, n: int): nat
    requires Shape(t) && SlotsOk(t)
  {
    TargetBelow(t, n, RING_SLOTS)
  }

  ghost function TargetBelow(t: Trace, n: int, m: nat): nat
    requires Shape(t) && SlotsOk(t) && m <= RING_SLOTS
  {
    if m == 0 then t.folded
    else if t.at[m - 1].Some? && t.s.slots[m - 1].value.frame <= n then t.at[m - 1].value
    else TargetBelow(t, n, m - 1)
  }

  /** The entry a load of n takes page p from: the newest slot at or before n that has the page,
      else the baseline's. */
  ghost function Src(t: Trace, n: int, p: nat): nat
    requires Shape(t) && SlotsOk(t) && p < MAX_PAGES
  {
    SrcBelow(t, n, p, RING_SLOTS)
  }

  ghost function SrcBelow(t: Trace, n: int, p: nat, m: nat): nat
    requires Shape(t) && SlotsOk(t) && p < MAX_PAGES && m <= RING_SLOTS
  {
    if m == 0 then t.baseOf[p]
    else if HasPage(t, n, p, m - 1) then t.at[m - 1].value
    else SrcBelow(t, n, p, m - 1)
  }

  ghost predicate HasPage(t: Trace, n: int, p: nat, j: nat)
    requires Shape(t) && j < RING_SLOTS
  {
    t.at[j].Some? && t.s.slots[j].Some? && t.s.slots[j].value.frame <= n && p in t.s.slots[j].value.pages
  }

  lemma {:induction false} SrcNames(t: Trace, n: int, p: nat, m: nat)
    requires Labels(t) && p < MAX_PAGES && m <= RING_SLOTS
    ensures match Newest(t.s.slots[..m], n, p)
      case Some(c) => Names(t.hist, SrcBelow(t, n, p, m), p, c)
      case None => SrcBelow(t, n, p, m) == t.baseOf[p]
  {
    if m == 0 {
      assert t.s.slots[..0] == [];
    } else {
      assert SlotOk(t, m - 1);
      assert t.s.slots[..m][..m - 1] == t.s.slots[..m - 1];
      SrcNames(t, n, p, m - 1);
    }
  }

  /** What the newest-first walk, then the baseline, then zero yields is the content of Src. */
  lemma SourceIsSrc(t: Trace, n: int, p: nat)
    requires Labels(t) && p < MAX_PAGES
    ensures Names(t.hist, Src(t, n, p), p, Source(t.s, n, p))
  {
    SrcNames(t, n, p, RING_SLOTS);
    assert t.s.slots[..RING_SLOTS] == t.s.slots;
  }

  lemma {:induction false} TargetIs(t: Trace, n: int, m: nat)
    requires Labels(t) && m <= RING_SLOTS
    ensures t.folded <= TargetBelow(t, n, m) < |t.hist|
    ensures forall j :: 0 <= j < m && t.at[j].Some? ==>
      (t.s.slots[j].value.frame <= n <==> t.at[j].value <= TargetBelow(t, n, m))
  {
    if m == 0 {
    } else {
      TargetIs(t, n, m - 1);
      assert SlotOk(t, m - 1);
      forall j | 0 <= j < m - 1 && t.at[j].Some? && t.at[m - 1].Some?
        ensures t.at[j].value < t.at[m - 1].value && t.s.slots[j].value.frame < t.s.slots[m - 1].value.frame
      {
        assert Ascends(t, j, m - 1);
      }
      TargetBelowTop(t, n, m - 1);
    }
  }

  /** The target among the first m slots comes before any later slot. */
  lemma {:induction false} TargetBelowTop(t: Trace, n: int, m: nat)
    requires Labels(t) && m < RING_SLOTS
    ensures t.at[m].Some? ==> TargetBelow(t, n, m) < t.at[m].value
  {
    TargetBelowUnder(t, n, m, m);
  }

  lemma {:induction false} TargetBelowUnder(t: Trace, n: int, k: nat, m: nat)
    requires Labels(t) && k <= m < RING_SLOTS
    ensures t.at[m].Some? ==> TargetBelow(t, n, k) < t.at[m].value
  {
    if k == 0 {
    } else {
      TargetBelowUnder(t, n, k - 1, m);
      assert Ascends(t, k - 1, m);
    }
  }

  /** The source lies between the baseline's entry and the target, and is a slot's entry with the
      page in it or the baseline's. */
  lemma {:induction false} SrcIs(t: Trace, n: int, p: nat, m: nat)
    requires Labels(t) && p < MAX_PAGES && m <= RING_SLOTS
    ensures var s := SrcBelow(t, n, p, m);
      && t.baseOf[p] <= s && (s == t.baseOf[p] || InRing(t, s, p))
      && (s == t.baseOf[p] || exists j :: 0 <= j < m && HasPage(t, n, p, j) && t.at[j].value == s)
    ensures forall j :: 0 <= j < m && HasPage(t, n, p, j) ==> t.at[j].value <= SrcBelow(t, n, p, m)
  {
    if m == 0 {
    } else {
      SrcIs(t, n, p, m - 1);
      assert SlotOk(t, m - 1);
      if HasPage(t, n, p, m - 1) {
        assert InSlot(t, m - 1, t.at[m - 1].value, p);
        forall j | 0 <= j < m - 1 && HasPage(t, n, p, j) ensures t.at[j].value < t.at[m - 1].value {
          assert Ascends(t, j, m - 1);
        }
      }
    }
  }

  lemma SrcWithin(t: Trace, n: int, p: nat)
    requires Labels(t) && p < MAX_PAGES
    ensures var s := Src(t, n, p);
      && Own(t.hist, s, p) && t.baseOf[p] <= s <= Target(t, n) < |t.hist| && (s == t.baseOf[p] || InRing(t, s, p))
    ensures forall j :: 0 <= j < RING_SLOTS && HasPage(t, n, p, j) ==> t.at[j].value <= Src(t, n, p)
  {
    SrcIs(t, n, p, RING_SLOTS);
    TargetIs(t, n, RING_SLOTS);
    SourceIsSrc(t, n, p);
  }

  // ---------- when a load is exact ----------

  predicate Reverts(revert: set<nat>, skip: set<nat>, p: nat) {
    p in revert && p !in skip
  }

  /** The content page p ends up with has the same origin as the target's. */
  ghost predicate Exact(t: Trace, revert: set<nat>, skip: set<nat>, n: int, p: nat)
    requires Labels(t) && p < MAX_PAGES
  {
    TargetIs(t, n, RING_SLOTS);
    var o := t.hist[Target(t, n)].of[p];
    if Reverts(revert, skip, p) then Src(t, n, p) == o else p !in t.s.watch && t.liveOf[p] == o
  }

  /** Equal origins give equal contents. */
  lemma ExactGivesTarget(t: Trace, revert: set<nat>, skip: set<nat>, n: int, p: nat)
    requires Labels(t) && p < MAX_PAGES && Exact(t, revert, skip, n, p)
    ensures Target(t, n) < |t.hist| && Restore(t.s, revert, skip, n)[p] == t.hist[Target(t, n)].mem[p]
  {
    TargetIs(t, n, RING_SLOTS);
    SourceIsSrc(t, n, p);
    assert EntryOk(t.hist, Target(t, n));
  }

  // ---------- operations ----------

  datatype Op =
    | OpWrite(pages: map<nat, Page>)
    | OpLimit(limit: nat)                                 // the carve frontier moves
    | OpSave(frame: int, order: seq<nat>)
    | OpFail                                              // a save whose buffer could not grow
    | OpLoad(n: int, mode: Mode, skip: set<nat>)

  /** Any number of pages written, each to the content given. */
  function WriteAll(s: Store, pages: map<nat, Page>): (s': Store)
    ensures forall p :: 0 <= p < MAX_PAGES && p !in pages ==> s'.live[p] == s.live[p]
  {
    s.(live := seq(MAX_PAGES, p requires 0 <= p < MAX_PAGES => if p in pages then pages[p] else s.live[p]),
       watch := s.watch + pages.Keys)
  }

  /** All that is asked of a caller: a save's frame is above every frame in the ring. */
  ghost predicate Legal(t: Trace, op: Op)
    requires Inv(t)
  {
    match op
    case OpWrite(pages) => forall p :: p in pages ==> p < MAX_PAGES
    case OpSave(frame, order) =>
      && (forall j :: 0 <= j < RING_SLOTS && t.s.slots[j].Some? ==> t.s.slots[j].value.frame < frame)
      && (forall i, j :: 0 <= i < j < |order| ==> order[i] != order[j])
      && (forall p :: p in order <==> p in t.s.Harvest())
    case _ => true
  }

  /** The origins of memory as an entry added now would record them. */
  ghost function Recorded(t: Trace): (o: Origins)
    ensures forall p :: 0 <= p < MAX_PAGES ==> o[p] == if p in t.s.watch then |t.hist| else t.liveOf[p]
  {
    seq(MAX_PAGES, p requires 0 <= p < MAX_PAGES => if p in t.s.watch then |t.hist| else t.liveOf[p])
  }

  ghost predicate Evicts(t: Trace, p: nat)
    requires Shape(t)
  {
    t.at[0].Some? && t.s.slots[0].Some? && p in t.s.slots[0].value.pages
  }

  /** The baseline's origins once the oldest slot is folded into base. */
  ghost function FoldedOf(t: Trace, base: map<nat, Page>): (o: Origins)
    requires Shape(t)
    ensures forall p :: 0 <= p < MAX_PAGES ==>
      o[p] == if Evicts(t, p) && p in base then t.at[0].value else t.baseOf[p]
  {
    seq(MAX_PAGES, p requires 0 <= p < MAX_PAGES =>
      if Evicts(t, p) && p in base then t.at[0].value else t.baseOf[p])
  }

  /** Page p is written but not captured by the save, or the fold drops it. */
  ghost predicate Missed(t: Trace, captured: set<nat>, p: nat) {
    p in t.s.watch && p !in captured
  }

  ghost predicate Dropped(t: Trace, base: map<nat, Page>, p: nat)
    requires Shape(t)
  {
    Evicts(t, p) && p !in base
  }

  ghost function LostBySave(t: Trace, base: map<nat, Page>, captured: set<nat>): (l: Marks)
    requires Shape(t)
    ensures forall p, i: nat :: 0 <= p < MAX_PAGES ==> (i in l[p] <==>
      i in t.lost[p] || (i == |t.hist| && Missed(t, captured, p)) || (Dropped(t, base, p) && i == t.at[0].value))
  {
    seq(MAX_PAGES, p requires 0 <= p < MAX_PAGES =>
      t.lost[p] + (if Missed(t, captured, p) then {|t.hist|} else {}) +
      (if Dropped(t, base, p) then {t.at[0].value} else {}))
  }

  /** The trace after a save that leaves store s', its new slot holding the captured pages. */
  ghost function AfterSave(t: Trace, s': Store, frame: int, kept: bool, captured: set<nat>): Trace
    requires Shape(t)
  {
    var o := Recorded(t);
    Trace(s', t.hist + [Entry(frame, t.s.live, o)], t.at[1..] + [if kept then Some(|t.hist|) else None],
          if t.at[0].Some? then t.at[0].value else t.folded, FoldedOf(t, s'.base), o, t.dead,
          LostBySave(t, s'.base, captured))
  }

  /** The origins of memory after a load. A watched page that keeps its live content gets a new one. */
  ghost function Reloaded(t: Trace, revert: set<nat>, skip: set<nat>, n: int): (o: Origins)
    requires Labels(t)
    ensures forall p :: 0 <= p < MAX_PAGES ==>
      o[p] == if Reverts(revert, skip, p) then Src(t, n, p) else if p in t.s.watch then |t.hist| else t.liveOf[p]
  {
    seq(MAX_PAGES, p requires 0 <= p < MAX_PAGES =>
      if Reverts(revert, skip, p) then Src(t, n, p) else if p in t.s.watch then |t.hist| else t.liveOf[p])
  }

  /** A load that gives page p the target's content discards the entries after the target. One that
      leaves p at another content puts p on the line of that content alone. */
  ghost function DeadAfter(t: Trace, revert: set<nat>, skip: set<nat>, n: int): (d: Marks)
    requires Labels(t)
    ensures forall p, i: nat :: 0 <= p < MAX_PAGES ==>
      (i in d[p] <==> if Returns(t, revert, skip, n, p) then i in t.dead[p] || Target(t, n) < i < |t.hist|
                      else i < |t.hist| && t.hist[i].of[p] != Reloaded(t, revert, skip, n)[p])
  {
    seq(MAX_PAGES, p requires 0 <= p < MAX_PAGES =>
      if Returns(t, revert, skip, n, p) then t.dead[p] + Discarded(Target(t, n), |t.hist|)
      else OffLine(t.hist, p, Reloaded(t, revert, skip, n)[p]))
  }

  ghost predicate Returns(t: Trace, revert: set<nat>, skip: set<nat>, n: int, p: nat)
    requires Labels(t) && p < MAX_PAGES
  {
    Target(t, n) !in t.dead[p] && Exact(t, revert, skip, n, p)
  }

  predicate Elsewhere(h: seq<Entry>, i: nat, p: nat, o: nat) {
    p < MAX_PAGES && i < |h| && h[i].of[p] != o
  }

  function OffLine(h: seq<Entry>, p: nat, o: nat): (d: set<nat>)
    requires p < MAX_PAGES
    ensures forall i: nat :: i in d <==> i < |h| && h[i].of[p] != o
  {
    set i: nat | i < |h| && Elsewhere(h, i, p, o)
  }

  /** A pending write that the load neither undoes nor leaves to the next save. */
  ghost function LostByLoad(t: Trace, revert: set<nat>, skip: set<nat>): (l: Marks)
    ensures forall p, i: nat :: 0 <= p < MAX_PAGES ==>
      (i in l[p] <==> i in t.lost[p] || (i == |t.hist| && p in t.s.watch && !Reverts(revert, skip, p)))
  {
    seq(MAX_PAGES, p requires 0 <= p < MAX_PAGES =>
      t.lost[p] + if p in t.s.watch && !Reverts(revert, skip, p) then {|t.hist|} else {})
  }

  ghost function AfterLoad(t: Trace, revert: set<nat>, skip: set<nat>, n: int): Trace
    requires Labels(t)
  {
    var o, s' := Reloaded(t, revert, skip, n), Load(t.s, revert, skip, n);
    Trace(s', t.hist + [Entry(0, s'.live, o)], t.at, t.folded, t.baseOf, o,
          DeadAfter(t, revert, skip, n), LostByLoad(t, revert, skip))
  }

  predicate Between(i: nat, g: nat, e: nat) {
    g < i < e
  }

  function Discarded(g: nat, e: nat): (d: set<nat>)
    ensures forall i :: i in d <==> g < i < e
  {
    set i: nat | i < e && Between(i, g, e)
  }

  ghost function Step(t: Trace, op: Op): Trace
    requires Inv(t) && Legal(t, op)
  {
    match op
    case OpWrite(pages) => t.(s := WriteAll(t.s, pages))
    case OpLimit(limit) => t.(s := t.s.(limit := limit))
    case OpSave(frame, order) => AfterSave(t, Save(t.s, frame, order), frame, true, t.s.Harvest())
    case OpFail => AfterSave(t, FailedSave(t.s), 0, false, {})
    case OpLoad(n, mode, skip) => AfterLoad(t, Undone(t.s, n, mode), skip, n)
  }

  // ---------- every step keeps the invariant: the history ----------

  /** What is said of the old entries stays true when one more is added. */
  lemma NamesLater(h: seq<Entry>, e: Entry, i: nat, p: nat, c: Page)
    requires Names(h, i, p, c)
    ensures Names(h + [e], i, p, c)
  {
  }

  lemma HistGrows(h: seq<Entry>, e: Entry)
    requires HistOk(h)
    requires forall p :: 0 <= p < MAX_PAGES ==>
      if e.of[p] == |h| then true else e.of[p] < |h| && Names(h, e.of[p], p, e.mem[p])
    ensures HistOk(h + [e])
  {
    var h' := h + [e];
    forall i | 0 <= i < |h'| ensures EntryOk(h', i) {
      forall p | 0 <= p < MAX_PAGES ensures h'[i].of[p] <= i && Names(h', h'[i].of[p], p, h'[i].mem[p]) {
        if i < |h| {
          assert EntryOk(h, i);
          NamesLater(h, e, h[i].of[p], p, h[i].mem[p]);
        } else if e.of[p] != |h| {
          NamesLater(h, e, e.of[p], p, e.mem[p]);
        }
      }
    }
  }

  lemma RecordGrows(t: Trace, frame: int)
    requires Labels(t)
    ensures HistOk(t.hist + [Entry(frame, t.s.live, Recorded(t))])
  {
    HistGrows(t.hist, Entry(frame, t.s.live, Recorded(t)));
  }

  // ---------- saves ----------

  /** The oldest slot evicted, the others one place further on, a new slot at the end. */
  ghost predicate Saves(t: Trace, s': Store, kept: bool, captured: set<nat>)
    requires Shape(t)
  {
    && s'.Wf() && s'.live == t.s.live && s'.watch <= t.s.watch && captured <= t.s.watch
    && s'.slots[..RING_SLOTS - 1] == t.s.slots[1..] && s'.slots[RING_SLOTS - 1].Some? == kept
    && s'.base == Fold(t.s.base, t.s.room, t.s.slots[0]).0
    && (kept ==> s'.slots[RING_SLOTS - 1].value.pages.Keys == captured)
    && (kept ==> forall p :: p in captured ==> p < MAX_PAGES && s'.slots[RING_SLOTS - 1].value.pages[p] == t.s.live[p])
    && (kept ==> forall j :: 0 <= j < RING_SLOTS && t.s.slots[j].Some? ==>
          t.s.slots[j].value.frame < s'.slots[RING_SLOTS - 1].value.frame)
  }

  function NewFrame(s': Store, kept: bool): int
    requires |s'.slots| == RING_SLOTS && s'.slots[RING_SLOTS - 1].Some? == kept
  {
    if kept then s'.slots[RING_SLOTS - 1].value.frame else 0
  }

  lemma SaveSlot(t: Trace, s': Store, kept: bool, captured: set<nat>, j: nat)
    requires Labels(t) && Saves(t, s', kept, captured) && j < RING_SLOTS
    ensures var t' := AfterSave(t, s', NewFrame(s', kept), kept, captured); Shape(t') && SlotOk(t', j)
  {
    var t' := AfterSave(t, s', NewFrame(s', kept), kept, captured);
    var e := Entry(NewFrame(s', kept), t.s.live, Recorded(t));
    assert SlotOk(t, 0);
    if j < RING_SLOTS - 1 {
      assert SlotOk(t, j + 1);
      assert s'.slots[j] == s'.slots[..RING_SLOTS - 1][j] == t.s.slots[j + 1] && t'.at[j] == t.at[j + 1];
      if t.at[j + 1].Some? {
        forall p | p in s'.slots[j].value.pages ensures Names(t'.hist, t'.at[j].value, p, s'.slots[j].value.pages[p]) {
          NamesLater(t.hist, e, t.at[j + 1].value, p, s'.slots[j].value.pages[p]);
        }
      }
    }
  }

  lemma SaveOrder(t: Trace, s': Store, kept: bool, captured: set<nat>)
    requires Labels(t) && Saves(t, s', kept, captured)
    requires var t' := AfterSave(t, s', NewFrame(s', kept), kept, captured); Shape(t') && SlotsOk(t')
    ensures OrderOk(AfterSave(t, s', NewFrame(s', kept), kept, captured))
  {
    var t' := AfterSave(t, s', NewFrame(s', kept), kept, captured);
    forall j | 0 <= j < RING_SLOTS - 1
      ensures t'.at[j] == t.at[j + 1] && s'.slots[j] == t.s.slots[j + 1] && SlotOk(t, j + 1)
    {
      assert s'.slots[j] == s'.slots[..RING_SLOTS - 1][j];
    }
    assert SlotOk(t, 0);
    forall j, k | 0 <= j < k < RING_SLOTS ensures Ascends(t', j, k) {
      if k < RING_SLOTS - 1 {
        assert Ascends(t, j + 1, k + 1);
      }
    }
    forall j | 0 <= j < RING_SLOTS && t'.at[j].Some? ensures t'.folded < t'.at[j].value {
      if j < RING_SLOTS - 1 {
        assert Ascends(t, 0, j + 1);
      }
    }
  }

  lemma SaveBase(t: Trace, s': Store, kept: bool, captured: set<nat>, p: nat)
    requires Labels(t) && Saves(t, s', kept, captured) && p < MAX_PAGES
    ensures var t' := AfterSave(t, s', NewFrame(s', kept), kept, captured);
      && t.baseOf[p] <= t'.baseOf[p] <= t'.folded && Names(t'.hist, t'.baseOf[p], p, BasePage(s'.base, p))
      && (t'.baseOf[p] > 0 ==> p in s'.base)
  {
    var e := Entry(NewFrame(s', kept), t.s.live, Recorded(t));
    assert SlotOk(t, 0);
    if t.s.slots[0].Some? {
      var d := t.s.slots[0].value;
      assert d.order[..|d.order|] == d.order;
      FoldFirstIs(t.s.base, t.s.room, d, |d.order|, p);
      if p in d.pages {
        NamesLater(t.hist, e, t.at[0].value, p, d.pages[p]);
      }
    }
    NamesLater(t.hist, e, t.baseOf[p], p, BasePage(t.s.base, p));
  }

  lemma SaveLabels(t: Trace, s': Store, kept: bool, captured: set<nat>)
    requires Labels(t) && Saves(t, s', kept, captured)
    ensures Labels(AfterSave(t, s', NewFrame(s', kept), kept, captured))
  {
    var t' := AfterSave(t, s', NewFrame(s', kept), kept, captured);
    assert SlotOk(t, 0);
    RecordGrows(t, NewFrame(s', kept));
    forall j | 0 <= j < RING_SLOTS ensures SlotOk(t', j) {
      SaveSlot(t, s', kept, captured, j);
    }
    SaveOrder(t, s', kept, captured);
    forall p | 0 <= p < MAX_PAGES
      ensures t'.baseOf[p] <= t'.folded && Names(t'.hist, t'.baseOf[p], p, BasePage(t'.s.base, p))
      ensures t'.baseOf[p] > 0 ==> p in t'.s.base
    {
      SaveBase(t, s', kept, captured, p);
    }
    forall p | 0 <= p < MAX_PAGES && p !in s'.watch ensures Names(t'.hist, t'.liveOf[p], p, s'.live[p]) {
      assert EntryOk(t'.hist, |t.hist|);
    }
  }

  /** The ring after a save has what it had, but for the evicted slot, and the captured pages. */
  lemma SaveRing(t: Trace, s': Store, kept: bool, captured: set<nat>, i: nat, p: nat)
    requires Labels(t) && Saves(t, s', kept, captured) && p < MAX_PAGES
    requires Labels(AfterSave(t, s', NewFrame(s', kept), kept, captured))
    ensures var t' := AfterSave(t, s', NewFrame(s', kept), kept, captured);
      && (InRing(t', i, p) ==> InRing(t, i, p) || (i == |t.hist| && kept && p in captured))
      && (InRing(t, i, p) ==> InRing(t', i, p) || (Evicts(t, p) && i == t.at[0].value))
      && (kept && p in captured ==> InRing(t', |t.hist|, p))
  {
    var t' := AfterSave(t, s', NewFrame(s', kept), kept, captured);
    forall j | 0 <= j < RING_SLOTS - 1 ensures t'.at[j] == t.at[j + 1] && s'.slots[j] == t.s.slots[j + 1] {
      assert s'.slots[j] == s'.slots[..RING_SLOTS - 1][j];
    }
    if j :| 0 <= j < RING_SLOTS && InSlot(t', j, i, p) {
      if j < RING_SLOTS - 1 {
        assert InSlot(t, j + 1, i, p);
      }
    }
    if j :| 0 <= j < RING_SLOTS && InSlot(t, j, i, p) {
      assert SlotOk(t, j);
      if j > 0 {
        assert InSlot(t', j - 1, i, p);
      }
    }
    if kept && p in captured {
      assert InSlot(t', RING_SLOTS - 1, |t.hist|, p);
    }
  }

  /** What is in the ring was recorded after what was folded. */
  lemma RingIsNewer(t: Trace, i: nat, p: nat)
    requires Labels(t) && InRing(t, i, p)
    ensures t.folded < i < |t.hist|
  {
    var j :| 0 <= j < RING_SLOTS && InSlot(t, j, i, p);
    assert SlotOk(t, j);
  }

  lemma SaveLine(t: Trace, s': Store, kept: bool, captured: set<nat>, p: nat)
    requires Inv(t) && Saves(t, s', kept, captured) && p < MAX_PAGES
    ensures LineOk(AfterSave(t, s', NewFrame(s', kept), kept, captured), p)
  {
    var t' := AfterSave(t, s', NewFrame(s', kept), kept, captured);
    assert LineOk(t, p);
    forall i: nat | OwnLive(t', i, p) ensures i < |t.hist| ==> OwnLive(t, i, p) {
    }
  }

  lemma SaveKept(t: Trace, s': Store, kept: bool, captured: set<nat>, p: nat, i: nat)
    requires Inv(t) && Saves(t, s', kept, captured) && p < MAX_PAGES && (!kept ==> captured == {})
    requires Labels(AfterSave(t, s', NewFrame(s', kept), kept, captured))
    ensures var t' := AfterSave(t, s', NewFrame(s', kept), kept, captured);
      && (OwnLive(t', i, p) ==> Held(t', i, p) || i in t'.lost[p])
      && (i in t'.lost[p] ==> i < |t'.hist| && t'.baseOf[p] != i && !InRing(t', i, p))
  {
    var t' := AfterSave(t, s', NewFrame(s', kept), kept, captured);
    assert KeptOk(t, p) && SlotOk(t, 0);
    SaveBase(t, s', kept, captured, p);
    SaveRing(t, s', kept, captured, i, p);
    if Evicts(t, p) {
      assert InSlot(t, 0, t.at[0].value, p);
    }
    if InRing(t', i, p) {
      RingIsNewer(t', i, p);
    }
    if InRing(t, i, p) {
      RingIsNewer(t, i, p);
    }
    if OwnLive(t', i, p) && i < |t.hist| {
      assert OwnLive(t, i, p);
    }
  }

  lemma SaveKeepsInv(t: Trace, s': Store, kept: bool, captured: set<nat>)
    requires Inv(t) && Saves(t, s', kept, captured) && (!kept ==> captured == {})
    ensures Inv(AfterSave(t, s', NewFrame(s', kept), kept, captured))
  {
    var t' := AfterSave(t, s', NewFrame(s', kept), kept, captured);
    SaveLabels(t, s', kept, captured);
    forall p: nat | p < MAX_PAGES ensures LineOk(t', p) && KeptOk(t', p) {
      SaveLine(t, s', kept, captured, p);
      forall i: nat ensures OwnLive(t', i, p) ==> Held(t', i, p) || i in t'.lost[p]
      ensures i in t'.lost[p] ==> i < |t'.hist| && t'.baseOf[p] != i && !InRing(t', i, p) {
        SaveKept(t, s', kept, captured, p, i);
      }
    }
  }

  lemma SaveSaves(t: Trace, frame: int, order: seq<nat>)
    requires Inv(t) && Legal(t, OpSave(frame, order))
    ensures Saves(t, Save(t.s, frame, order), true, t.s.Harvest())
  {
    var s' := Save(t.s, frame, order);
    assert Capture(t.s.live, order, frame).Wf();
    assert forall j :: 0 <= j < RING_SLOTS - 1 ==> s'.slots[j] == t.s.slots[j + 1];
  }

  lemma FailSaves(t: Trace)
    requires Inv(t)
    ensures Saves(t, FailedSave(t.s), false, {})
  {
    var s' := FailedSave(t.s);
    assert forall j :: 0 <= j < RING_SLOTS - 1 ==> s'.slots[j] == t.s.slots[j + 1];
  }

  // ---------- loads ----------

  lemma LoadLabels(t: Trace, revert: set<nat>, skip: set<nat>, n: int)
    requires Inv(t)
    ensures Labels(AfterLoad(t, revert, skip, n))
  {
    var t' := AfterLoad(t, revert, skip, n);
    var e := t'.hist[|t.hist|];
    forall p | 0 <= p < MAX_PAGES
      ensures if e.of[p] == |t.hist| then true else e.of[p] < |t.hist| && Names(t.hist, e.of[p], p, e.mem[p])
    {
      SourceIsSrc(t, n, p);
    }
    HistGrows(t.hist, e);
    forall j | 0 <= j < RING_SLOTS ensures SlotOk(t', j) {
      assert SlotOk(t, j);
      if t.at[j].Some? {
        forall p | p in t.s.slots[j].value.pages ensures Names(t'.hist, t.at[j].value, p, t.s.slots[j].value.pages[p]) {
          NamesLater(t.hist, e, t.at[j].value, p, t.s.slots[j].value.pages[p]);
        }
      }
    }
    forall j, k | 0 <= j < k < RING_SLOTS ensures Ascends(t', j, k) {
      assert Ascends(t, j, k);
    }
    forall p | 0 <= p < MAX_PAGES ensures Names(t'.hist, t.baseOf[p], p, BasePage(t.s.base, p)) {
      NamesLater(t.hist, e, t.baseOf[p], p, BasePage(t.s.base, p));
    }
    assert EntryOk(t'.hist, |t.hist|);
  }

  lemma LoadRing(t: Trace, revert: set<nat>, skip: set<nat>, n: int, i: nat, p: nat)
    requires Inv(t) && Labels(AfterLoad(t, revert, skip, n))
    ensures InRing(AfterLoad(t, revert, skip, n), i, p) <==> InRing(t, i, p)
  {
    var t' := AfterLoad(t, revert, skip, n);
    assert forall j :: 0 <= j < RING_SLOTS ==> (InSlot(t', j, i, p) <==> InSlot(t, j, i, p));
  }

  lemma LoadLine(t: Trace, revert: set<nat>, skip: set<nat>, n: int, p: nat)
    requires Inv(t) && p < MAX_PAGES
    ensures LineOk(AfterLoad(t, revert, skip, n), p)
  {
    TargetIs(t, n, RING_SLOTS);
    SrcWithin(t, n, p);
    if Returns(t, revert, skip, n, p) {
      ReturnLine(t, revert, skip, n, p);
    } else {
      OffLineOk(t, revert, skip, n, p);
    }
  }

  /** Back at the target's content, the timeline of page p is the target's. */
  lemma ReturnLine(t: Trace, revert: set<nat>, skip: set<nat>, n: int, p: nat)
    requires Inv(t) && p < MAX_PAGES && Returns(t, revert, skip, n, p) && Target(t, n) < |t.hist|
    ensures LineOk(AfterLoad(t, revert, skip, n), p)
  {
    var t', g := AfterLoad(t, revert, skip, n), Target(t, n);
    assert LineOk(t, p);
    var o := t.hist[g].of[p];
    assert t'.liveOf[p] == o && EntryOk(t.hist, g);
    forall i: nat | OwnLive(t', i, p) ensures OwnLive(t, i, p) && i <= g && i <= o {
      assert i <= g;
      assert OwnLive(t, i, p);
    }
    forall i: nat | i < |t'.hist| && i !in t'.dead[p]
      ensures t'.hist[i].of[p] !in t'.dead[p] && (i <= g || i == |t.hist|)
    {
      if i < |t.hist| {
        assert EntryOk(t.hist, i);
      }
    }
  }

  /** At another content, only entries of that origin are left on the timeline. */
  lemma OffLineOk(t: Trace, revert: set<nat>, skip: set<nat>, n: int, p: nat)
    requires Inv(t) && p < MAX_PAGES && !Returns(t, revert, skip, n, p)
    ensures LineOk(AfterLoad(t, revert, skip, n), p)
  {
    var t', o := AfterLoad(t, revert, skip, n), Reloaded(t, revert, skip, n)[p];
    SrcWithin(t, n, p);
    assert p !in t.s.watch ==> Names(t.hist, t.liveOf[p], p, t.s.live[p]);
    assert o == |t.hist| || Own(t.hist, o, p);
    forall i: nat | i < |t'.hist| && i !in t'.dead[p] ensures t'.hist[i].of[p] == o {
    }
    forall i: nat | OwnLive(t', i, p) ensures i == o {
    }
  }

  lemma LoadKept(t: Trace, revert: set<nat>, skip: set<nat>, n: int, p: nat, i: nat)
    requires Inv(t) && p < MAX_PAGES && Labels(AfterLoad(t, revert, skip, n))
    ensures var t' := AfterLoad(t, revert, skip, n);
      && (OwnLive(t', i, p) ==> Held(t', i, p) || i in t'.lost[p])
      && (i in t'.lost[p] ==> i < |t'.hist| && t'.baseOf[p] != i && !InRing(t', i, p))
  {
    var t' := AfterLoad(t, revert, skip, n);
    assert LineOk(t, p) && KeptOk(t, p);
    LoadRing(t, revert, skip, n, i, p);
    TargetIs(t, n, RING_SLOTS);
    SrcWithin(t, n, p);
    if InRing(t, i, p) {
      RingIsNewer(t, i, p);
    }
    assert EntryOk(t.hist, Target(t, n));
    if OwnLive(t', i, p) && i < |t.hist| {
      assert OwnLive(t, i, p) || i == Reloaded(t, revert, skip, n)[p];
    }
  }

  lemma LoadKeepsInv(t: Trace, revert: set<nat>, skip: set<nat>, n: int)
    requires Inv(t)
    ensures Inv(AfterLoad(t, revert, skip, n))
  {
    var t' := AfterLoad(t, revert, skip, n);
    LoadLabels(t, revert, skip, n);
    forall p: nat | p < MAX_PAGES ensures LineOk(t', p) && KeptOk(t', p) {
      LoadLine(t, revert, skip, n, p);
      forall i: nat ensures OwnLive(t', i, p) ==> Held(t', i, p) || i in t'.lost[p]
      ensures i in t'.lost[p] ==> i < |t'.hist| && t'.baseOf[p] != i && !InRing(t', i, p) {
        LoadKept(t, revert, skip, n, p, i);
      }
    }
  }

  // ---------- all steps ----------

  /** Nothing but live memory, the write watch, the dirty set and the limit has changed. */
  ghost predicate SameRing(t: Trace, t': Trace) {
    && t' == t.(s := t'.s)
    && t'.s == t.s.(live := t'.s.live, watch := t'.s.watch, limit := t'.s.limit)
  }

  lemma SameRingKeepsInv(t: Trace, t': Trace)
    requires Inv(t) && SameRing(t, t') && t.s.watch <= t'.s.watch && forall p :: p in t'.s.watch ==> p < MAX_PAGES
    requires forall p :: 0 <= p < MAX_PAGES && p !in t'.s.watch ==> t'.s.live[p] == t.s.live[p]
    ensures Inv(t')
  {
    forall j | 0 <= j < RING_SLOTS ensures SlotOk(t', j) {
      assert SlotOk(t, j);
    }
    forall j, k | 0 <= j < k < RING_SLOTS ensures Ascends(t', j, k) {
      assert Ascends(t, j, k);
    }
    forall i: nat, p: nat ensures InRing(t', i, p) <==> InRing(t, i, p) {
      assert forall j :: 0 <= j < RING_SLOTS ==> (InSlot(t', j, i, p) <==> InSlot(t, j, i, p));
    }
    forall p: nat | p < MAX_PAGES ensures LineOk(t', p) && KeptOk(t', p) {
      assert LineOk(t, p) && KeptOk(t, p);
      forall i: nat ensures OwnLive(t', i, p) <==> OwnLive(t, i, p) {
      }
    }
  }

  lemma StepKeepsInv(t: Trace, op: Op)
    requires Inv(t) && Legal(t, op)
    ensures Inv(Step(t, op))
  {
    match op
    case OpWrite(pages) =>
      SameRingKeepsInv(t, Step(t, op));
    case OpLimit(limit) =>
      SameRingKeepsInv(t, Step(t, op));
    case OpSave(frame, order) =>
      SaveSaves(t, frame, order);
      SaveKeepsInv(t, Save(t.s, frame, order), true, t.s.Harvest());
    case OpFail =>
      FailSaves(t);
      SaveKeepsInv(t, FailedSave(t.s), false, {});
    case OpLoad(n, mode, skip) =>
      LoadKeepsInv(t, Undone(t.s, n, mode), skip, n);
  }

  // ---------- runs ----------

  ghost predicate LegalRun(t: Trace, ops: seq<Op>)
    requires Inv(t)
    decreases |ops|
  {
    ops == [] || (Legal(t, ops[0]) && (StepKeepsInv(t, ops[0]); LegalRun(Step(t, ops[0]), ops[1..])))
  }

  ghost function Run(t: Trace, ops: seq<Op>): (r: Trace)
    requires Inv(t) && LegalRun(t, ops)
    ensures Inv(r)
    decreases |ops|
  {
    if ops == [] then t
    else
      StepKeepsInv(t, ops[0]);
      Run(Step(t, ops[0]), ops[1..])
  }

  function Zeros(): (o: Origins)
    ensures forall p :: 0 <= p < MAX_PAGES ==> o[p] == 0
  {
    seq(MAX_PAGES, _ => 0)
  }

  function NoMarks(): (m: Marks)
    ensures forall p :: 0 <= p < MAX_PAGES ==> m[p] == {}
  {
    seq(MAX_PAGES, _ => {})
  }

  /** Right after the baseline capture: one entry. */
  ghost function Start(live: Memory, committed: set<nat>, countdown: int, limit: nat): Trace {
    Trace(Baseline(live, committed, countdown, limit), [Entry(0, live, Zeros())], seq(RING_SLOTS, _ => None), 0,
          Zeros(), Zeros(), NoMarks(), NoMarks())
  }

  lemma StartInv(live: Memory, committed: set<nat>, countdown: int, limit: nat)
    requires forall p :: 0 <= p < MAX_PAGES && p !in committed ==> live[p] == ZeroPage()
    ensures Inv(Start(live, committed, countdown, limit))
  {
    var t := Start(live, committed, countdown, limit);
    assert EntryOk(t.hist, 0);
    assert forall j :: 0 <= j < RING_SLOTS ==> SlotOk(t, j);
    forall p: nat | p < MAX_PAGES ensures LineOk(t, p) && KeptOk(t, p) {
      forall i: nat | OwnLive(t, i, p) ensures Held(t, i, p) {
        assert i == 0;
      }
    }
  }
}

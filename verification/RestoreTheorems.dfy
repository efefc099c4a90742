/** What the delta store stands for: a full copy of memory at every save. */
module RestoreTheorems {
  import opened Pages
  import opened DeltaStore
  import opened Provenance

  // A load is exact on a page when it gives the page the content the target entry recorded. The theorems
  // say when it is, for every run and every page content, in terms a caller can see: which slots hold the
  // page, which of them a rollback has discarded, and which saves missed it.

  // ---------- the condition ----------

  /** A reverted page comes from a slot, or the baseline, that no rollback has discarded, and the
      content it had at the target is not lost; a page left live is neither watched nor newer. A page
      whose timeline has left the target has to come from the very entry the target had it from. */
  ghost predicate Sound(t: Trace, revert: set<nat>, skip: set<nat>, n: int, p: nat)
    requires Labels(t) && p < MAX_PAGES
  {
    TargetIs(t, n, RING_SLOTS);
    if Target(t, n) in t.dead[p] then Exact(t, revert, skip, n, p)
    else if Reverts(revert, skip, p) then Src(t, n, p) !in t.dead[p] && t.hist[Target(t, n)].of[p] !in t.lost[p]
    else p !in t.s.watch && t.liveOf[p] <= Target(t, n)
  }

  lemma ExactIffSound(t: Trace, revert: set<nat>, skip: set<nat>, n: int, p: nat)
    requires Inv(t) && p < MAX_PAGES
    ensures Exact(t, revert, skip, n, p) <==> Sound(t, revert, skip, n, p)
  {
    if Target(t, n) !in t.dead[p] {
      ExactIffOnLine(t, revert, skip, n, p);
    }
  }

  lemma ExactIffOnLine(t: Trace, revert: set<nat>, skip: set<nat>, n: int, p: nat)
    requires Inv(t) && p < MAX_PAGES && Target(t, n) !in t.dead[p]
    ensures Exact(t, revert, skip, n, p) <==> Sound(t, revert, skip, n, p)
  {
    TargetIs(t, n, RING_SLOTS);
    SrcWithin(t, n, p);
    var g, s := Target(t, n), Src(t, n, p);
    var o := t.hist[g].of[p];
    assert EntryOk(t.hist, g) && LineOk(t, p) && KeptOk(t, p);
    assert OwnLive(t, o, p);
    if Reverts(revert, skip, p) {
      if Sound(t, revert, skip, n, p) {
        assert OwnLive(t, s, p) && s <= g;
        HeldIsBelow(t, n, p, o);
      }
    } else if p !in t.s.watch {
      assert OwnLive(t, t.liveOf[p], p);
    }
  }

  /** A held content at or before the target is no newer than the source. */
  lemma HeldIsBelow(t: Trace, n: int, p: nat, i: nat)
    requires Labels(t) && p < MAX_PAGES && Held(t, i, p) && i <= Target(t, n)
    ensures i <= Src(t, n, p)
  {
    TargetIs(t, n, RING_SLOTS);
    SrcWithin(t, n, p);
    if InRing(t, i, p) {
      var j :| 0 <= j < RING_SLOTS && InSlot(t, j, i, p);
      assert HasPage(t, n, p, j);
    }
  }

  /** A page with no pending write that no slot after the target has is as it was at the target, unless
      its content was lost. */
  lemma LiveIsTarget(t: Trace, n: int, p: nat)
    requires Inv(t) && p < MAX_PAGES && p !in WrittenAfter(t.s.slots, n) && p !in t.s.watch
    requires t.liveOf[p] !in t.lost[p]
    ensures t.liveOf[p] <= Target(t, n)
  {
    TargetIs(t, n, RING_SLOTS);
    var l := t.liveOf[p];
    assert LineOk(t, p) && KeptOk(t, p);
    assert OwnLive(t, l, p) && Held(t, l, p);
    if InRing(t, l, p) {
      var j :| 0 <= j < RING_SLOTS && InSlot(t, j, l, p);
      assert t.s.slots[j].value.frame <= n;
    }
  }

  // ---------- for all contents ----------

  predicate SameBits(d: Option<Delta>, d': Option<Delta>) {
    && d.Some? == d'.Some?
    && (d.Some? ==> d'.value == d.value.(pages := d'.value.pages) && d'.value.pages.Keys == d.value.pages.Keys)
  }

  /** Two traces that differ in page contents only: same saves, same dirty bits, same write watch. */
  ghost predicate SameBook(t: Trace, t': Trace) {
    && |t'.hist| == |t.hist| && (forall i :: 0 <= i < |t.hist| ==> t'.hist[i] == t.hist[i].(mem := t'.hist[i].mem))
    && t' == t.(s := t'.s, hist := t'.hist)
    && t'.s == t.s.(live := t'.s.live, slots := t'.s.slots, base := t'.s.base)
    && t'.s.base.Keys == t.s.base.Keys && |t'.s.slots| == |t.s.slots|
    && (forall j :: 0 <= j < |t.s.slots| ==> SameBits(t.s.slots[j], t'.s.slots[j]))
  }

  lemma {:induction false} SameSrc(t: Trace, t': Trace, n: int, p: nat, m: nat)
    requires Labels(t) && Labels(t') && SameBook(t, t') && p < MAX_PAGES && m <= RING_SLOTS
    ensures SrcBelow(t', n, p, m) == SrcBelow(t, n, p, m) && TargetBelow(t', n, m) == TargetBelow(t, n, m)
  {
    if m == 0 {
    } else {
      SameSrc(t, t', n, p, m - 1);
      assert SameBits(t.s.slots[m - 1], t'.s.slots[m - 1]);
      assert HasPage(t', n, p, m - 1) <==> HasPage(t, n, p, m - 1);
    }
  }

  lemma SameBookKeepsInv(t: Trace, t': Trace)
    requires Inv(t) && Labels(t') && SameBook(t, t')
    ensures Inv(t')
  {
    forall p: nat | p < MAX_PAGES ensures LineOk(t', p) && KeptOk(t', p) {
      assert LineOk(t, p) && KeptOk(t, p);
      forall i: nat ensures (OwnLive(t', i, p) <==> OwnLive(t, i, p)) && (InRing(t', i, p) <==> InRing(t, i, p)) {
        forall j: nat | j < RING_SLOTS ensures InSlot(t', j, i, p) <==> InSlot(t, j, i, p) {
          assert SameBits(t.s.slots[j], t'.s.slots[j]);
        }
      }
    }
  }

  /** The load gives page p its content at the target, whatever the pages contain. */
  ghost predicate AlwaysRight(t: Trace, revert: set<nat>, skip: set<nat>, n: int, p: nat)
    requires Labels(t) && p < MAX_PAGES
  {
    forall t' :: Labels(t') && SameBook(t, t') ==> Right(t', revert, skip, n, p)
  }

  ghost predicate Right(t: Trace, revert: set<nat>, skip: set<nat>, n: int, p: nat)
    requires Labels(t) && p < MAX_PAGES
  {
    TargetIs(t, n, RING_SLOTS);
    Restore(t.s, revert, skip, n)[p] == t.hist[Target(t, n)].mem[p]
  }

  function Other(c: Page): (r: Page)
    ensures r != c
  {
    var r: Page := c[0 := if c[0] == 0 then 1 as Byte else 0];
    assert r[0] != c[0];
    r
  }

  /** Content c in place of what page p first was at entry e, wherever that content went. */
  ghost function Recolour(t: Trace, p: nat, e: nat, c: Page): Trace
    requires Labels(t) && p < MAX_PAGES
  {
    t.(hist := seq(|t.hist|, i requires 0 <= i < |t.hist| => Repaint(t.hist[i], p, e, c)),
       s := t.s.(live := if p !in t.s.watch && t.liveOf[p] == e then t.s.live[p := c] else t.s.live,
                 slots := seq(RING_SLOTS, j requires 0 <= j < RING_SLOTS => RepaintSlot(t, j, p, e, c)),
                 base := if p in t.s.base && t.baseOf[p] == e then t.s.base[p := c] else t.s.base))
  }

  function Repaint(e: Entry, p: nat, i: nat, c: Page): Entry
    requires p < MAX_PAGES
  {
    if e.of[p] == i then e.(mem := e.mem[p := c]) else e
  }

  ghost function RepaintSlot(t: Trace, j: nat, p: nat, e: nat, c: Page): Option<Delta>
    requires Labels(t) && j < RING_SLOTS
  {
    if InSlot(t, j, e, p) then Some(t.s.slots[j].value.(pages := t.s.slots[j].value.pages[p := c])) else t.s.slots[j]
  }

  lemma RecolourHist(t: Trace, p: nat, e: nat, c: Page)
    requires Labels(t) && Own(t.hist, e, p)
    ensures var h := Recolour(t, p, e, c).hist;
      && HistOk(h) && |h| == |t.hist|
      && (forall i, q: nat, b :: Names(t.hist, i, q, b) ==> Names(h, i, q, if q == p && i == e then c else b))
  {
    var h := Recolour(t, p, e, c).hist;
    forall i: nat | i < |h| ensures EntryOk(h, i) {
      assert EntryOk(t.hist, i);
      forall q | 0 <= q < MAX_PAGES ensures h[i].of[q] <= i && Names(h, h[i].of[q], q, h[i].mem[q]) {
        assert Names(t.hist, t.hist[i].of[q], q, t.hist[i].mem[q]);
      }
    }
  }

  lemma RecolourSlot(t: Trace, p: nat, e: nat, c: Page, j: nat)
    requires Labels(t) && Own(t.hist, e, p) && j < RING_SLOTS
    ensures var t' := Recolour(t, p, e, c);
      SameBits(t.s.slots[j], t'.s.slots[j]) && (t'.s.slots[j].Some? ==> t'.s.slots[j].value.Wf())
    ensures Shape(Recolour(t, p, e, c)) ==> SlotOk(Recolour(t, p, e, c), j)
  {
    var t' := Recolour(t, p, e, c);
    assert SlotOk(t, j);
    RecolourHist(t, p, e, c);
    assert t'.s.slots[j] == RepaintSlot(t, j, p, e, c);
    if InSlot(t, j, e, p) {
      assert t'.s.slots[j].value.pages.Keys == t.s.slots[j].value.pages.Keys;
    }
  }

  lemma RecolourKeeps(t: Trace, p: nat, e: nat, c: Page)
    requires Labels(t) && Own(t.hist, e, p) && (e > 0 || p in t.s.base)
    ensures Labels(Recolour(t, p, e, c)) && SameBook(t, Recolour(t, p, e, c))
  {
    var t' := Recolour(t, p, e, c);
    RecolourHist(t, p, e, c);
    RecolourRing(t, p, e, c);
    assert t'.s.base.Keys == t.s.base.Keys;
    forall q: nat | q < MAX_PAGES ensures Names(t'.hist, t'.baseOf[q], q, BasePage(t'.s.base, q)) {
      assert Names(t.hist, t.baseOf[q], q, BasePage(t.s.base, q));
    }
    forall q: nat | q < MAX_PAGES && q !in t'.s.watch ensures Names(t'.hist, t'.liveOf[q], q, t'.s.live[q]) {
      assert Names(t.hist, t.liveOf[q], q, t.s.live[q]);
    }
  }

  lemma RecolourRing(t: Trace, p: nat, e: nat, c: Page)
    requires Labels(t) && Own(t.hist, e, p)
    ensures var t' := Recolour(t, p, e, c);
      && Shape(t') && SlotsOk(t') && OrderOk(t')
      && forall j :: 0 <= j < RING_SLOTS ==> SameBits(t.s.slots[j], t'.s.slots[j])
  {
    var t' := Recolour(t, p, e, c);
    forall j: nat | j < RING_SLOTS
      ensures SameBits(t.s.slots[j], t'.s.slots[j]) && (t'.s.slots[j].Some? ==> t'.s.slots[j].value.Wf())
    {
      RecolourSlot(t, p, e, c, j);
    }
    assert Shape(t');
    forall j: nat | j < RING_SLOTS ensures SlotOk(t', j) {
      RecolourSlot(t, p, e, c, j);
    }
    forall j: nat, k: nat | j < k < RING_SLOTS ensures Ascends(t', j, k) {
      assert Ascends(t, j, k);
    }
  }

  /** A page whose origin would differ from the target's goes wrong for some contents. */
  lemma InexactShows(t: Trace, revert: set<nat>, skip: set<nat>, n: int, p: nat) returns (t': Trace)
    requires Labels(t) && p < MAX_PAGES && !Exact(t, revert, skip, n, p)
    ensures Labels(t') && SameBook(t, t') && !Right(t', revert, skip, n, p)
  {
    TargetIs(t, n, RING_SLOTS);
    SrcWithin(t, n, p);
    var g := Target(t, n);
    var o := t.hist[g].of[p];
    assert EntryOk(t.hist, g);
    if !Reverts(revert, skip, p) && p in t.s.watch {
      t' := t.(s := Write(t.s, p, Other(t.hist[g].mem[p])));
      assert t'.s.watch == t.s.watch;
      WriteKeepsLabels(t, p, Other(t.hist[g].mem[p]));
      SameSrc(t, t', n, p, RING_SLOTS);
    } else {
      var s := if Reverts(revert, skip, p) then Src(t, n, p) else t.liveOf[p];
      assert Own(t.hist, s, p) && s != o;
      var e, c := if s > o then s else o, Other(t.hist[if s > o then o else s].mem[p]);
      t' := Recolour(t, p, e, c);
      RecolourKeeps(t, p, e, c);
      SameSrc(t, t', n, p, RING_SLOTS);
      SourceIsSrc(t', n, p);
      assert EntryOk(t'.hist, g);
    }
  }

  lemma WriteKeepsLabels(t: Trace, p: nat, c: Page)
    requires Labels(t) && p in t.s.watch
    ensures Labels(t.(s := Write(t.s, p, c))) && SameBook(t, t.(s := Write(t.s, p, c)))
  {
    var t' := t.(s := Write(t.s, p, c));
    assert t'.s.watch == t.s.watch;
    forall j: nat | j < RING_SLOTS ensures SlotOk(t', j) {
      assert SlotOk(t, j);
    }
    forall j: nat, k: nat | j < k < RING_SLOTS ensures Ascends(t', j, k) {
      assert Ascends(t, j, k);
    }
  }

  /** Origins decide: a page is right for all contents exactly when its origin is the target's. */
  lemma AlwaysRightIffExact(t: Trace, revert: set<nat>, skip: set<nat>, n: int, p: nat)
    requires Labels(t) && p < MAX_PAGES
    ensures AlwaysRight(t, revert, skip, n, p) <==> Exact(t, revert, skip, n, p)
  {
    if Exact(t, revert, skip, n, p) {
      forall t' | Labels(t') && SameBook(t, t') ensures Right(t', revert, skip, n, p) {
        SameSrc(t, t', n, p, RING_SLOTS);
        TargetIs(t, n, RING_SLOTS);
        ExactGivesTarget(t', revert, skip, n, p);
      }
    } else {
      var t' := InexactShows(t, revert, skip, n, p);
    }
  }

  /** Restoring any set of pages, page by page and for all contents: right if and only if Sound. */
  lemma RestoreIsExact(t: Trace, revert: set<nat>, skip: set<nat>, n: int, p: nat)
    requires Inv(t) && p < MAX_PAGES
    ensures AlwaysRight(t, revert, skip, n, p) <==> Sound(t, revert, skip, n, p)
    ensures Sound(t, revert, skip, n, p) ==> Right(t, revert, skip, n, p)
  {
    AlwaysRightIffExact(t, revert, skip, n, p);
    ExactIffSound(t, revert, skip, n, p);
    if Exact(t, revert, skip, n, p) {
      ExactGivesTarget(t, revert, skip, n, p);
    }
  }

  /** The content page p had at the target is not lost, nor the one it has now if unwritten. */
  ghost predicate NoneLost(t: Trace, n: int, p: nat)
    requires Labels(t) && p < MAX_PAGES
  {
    TargetIs(t, n, RING_SLOTS);
    t.hist[Target(t, n)].of[p] !in t.lost[p] && (p !in t.s.watch ==> t.liveOf[p] !in t.lost[p])
  }

  /** The pages that a load of n has to revert. */
  function Window(s: Store, n: int): set<nat> {
    WrittenAfter(s.slots, n) + s.watch
  }

  /** Reverting any set that has p whenever the window has it is right for all contents exactly when p is
      not taken from a discarded slot, unless a content in question is lost. */
  lemma WindowIsExact(t: Trace, revert: set<nat>, skip: set<nat>, n: int, p: nat)
    requires Inv(t) && p < MAX_PAGES && Target(t, n) !in t.dead[p] && NoneLost(t, n, p)
    requires p !in skip && (p in Window(t.s, n) ==> p in revert)
    ensures AlwaysRight(t, revert, skip, n, p) <==> (p in revert ==> Src(t, n, p) !in t.dead[p])
  {
    RestoreIsExact(t, revert, skip, n, p);
    if p !in revert {
      LiveIsTarget(t, n, p);
    }
  }

  /** When a page does come from a discarded slot, the load gives whatever that slot holds. */
  lemma DiscardedContentShows(t: Trace, revert: set<nat>, skip: set<nat>, n: int, p: nat, c: Page)
    requires Inv(t) && p < MAX_PAGES && Target(t, n) !in t.dead[p] && Reverts(revert, skip, p)
    requires Src(t, n, p) in t.dead[p] && Src(t, n, p) > 0
    ensures var t' := Recolour(t, p, Src(t, n, p), c);
      && Inv(t') && SameBook(t, t') && Restore(t'.s, revert, skip, n)[p] == c
      && Target(t', n) == Target(t, n) < |t.hist| && t'.hist[Target(t, n)].mem[p] == t.hist[Target(t, n)].mem[p]
  {
    var s := Src(t, n, p);
    var t' := Recolour(t, p, s, c);
    TargetIs(t, n, RING_SLOTS);
    SrcWithin(t, n, p);
    ExactIffSound(t, revert, skip, n, p);
    RecolourKeeps(t, p, s, c);
    SameBookKeepsInv(t, t');
    SameSrc(t, t', n, p, RING_SLOTS);
    SourceIsSrc(t', n, p);
  }

  // ---------- after any run ----------

  /** Exact restore. After the baseline capture and any legal run - any length, so slots wrap and fold,
      with rollbacks, failed saves and skipped pages on the way - a load of frame n in any mode is
      right on a page, for all contents, if and only if the page is Sound. */
  lemma ExactRestore(live: Memory, committed: set<nat>, countdown: int, limit: nat,
                     ops: seq<Op>, n: int, mode: Mode, skip: set<nat>, p: nat)
    requires forall p :: 0 <= p < MAX_PAGES && p !in committed ==> live[p] == ZeroPage()
    requires Inv(Start(live, committed, countdown, limit)) && LegalRun(Start(live, committed, countdown, limit), ops)
    requires p < MAX_PAGES
    ensures var t := Run(Start(live, committed, countdown, limit), ops); var revert := Undone(t.s, n, mode);
      && (AlwaysRight(t, revert, skip, n, p) <==> Sound(t, revert, skip, n, p))
      && (Sound(t, revert, skip, n, p) ==> Right(t, revert, skip, n, p))
  {
    var t := Run(Start(live, committed, countdown, limit), ops);
    RestoreIsExact(t, Undone(t.s, n, mode), skip, n, p);
  }

  // ---------- what a save does to the source of a page ----------

  /** A save moves neither the target nor the source of an older frame, unless the fold passes them. */
  lemma {:induction false} ShiftSrc(t: Trace, s': Store, kept: bool, captured: set<nat>, n: int, p: nat, m: nat)
    requires Labels(t) && Saves(t, s', kept, captured) && p < MAX_PAGES && m < RING_SLOTS
    requires Labels(AfterSave(t, s', NewFrame(s', kept), kept, captured)) && !Dropped(t, s'.base, p)
    requires t.s.slots[0].Some? ==> t.s.slots[0].value.frame <= n
    ensures var t' := AfterSave(t, s', NewFrame(s', kept), kept, captured);
      SrcBelow(t', n, p, m) == SrcBelow(t, n, p, m + 1) && TargetBelow(t', n, m) == TargetBelow(t, n, m + 1)
    decreases m
  {
    var t' := AfterSave(t, s', NewFrame(s', kept), kept, captured);
    if m == 0 {
      assert SrcBelow(t, n, p, 1) == if HasPage(t, n, p, 0) then t.at[0].value else SrcBelow(t, n, p, 0);
    } else {
      ShiftSrc(t, s', kept, captured, n, p, m - 1);
      assert s'.slots[m - 1] == s'.slots[..RING_SLOTS - 1][m - 1];
      assert t'.at[m - 1] == t.at[m] && s'.slots[m - 1] == t.s.slots[m];
      assert HasPage(t', n, p, m - 1) <==> HasPage(t, n, p, m);
    }
  }

  lemma SaveSrc(t: Trace, s': Store, kept: bool, captured: set<nat>, n: int, p: nat)
    requires Labels(t) && Saves(t, s', kept, captured) && p < MAX_PAGES
    requires Labels(AfterSave(t, s', NewFrame(s', kept), kept, captured)) && !Dropped(t, s'.base, p)
    requires t.s.slots[0].Some? ==> t.s.slots[0].value.frame <= n
    ensures var t' := AfterSave(t, s', NewFrame(s', kept), kept, captured); var seen := kept && NewFrame(s', kept) <= n;
      && Src(t', n, p) == (if seen && p in captured then |t.hist| else Src(t, n, p))
      && Target(t', n) == if seen then |t.hist| else Target(t, n)
  {
    ShiftSrc(t, s', kept, captured, n, p, RING_SLOTS - 1);
  }

  /** A frame in the ring stands for its own entry. */
  lemma TargetOfSlot(t: Trace, j: nat)
    requires Labels(t) && j < RING_SLOTS && t.at[j].Some?
    ensures Target(t, t.s.slots[j].value.frame) == t.at[j].value
  {
    TargetAtSlot(t, j, RING_SLOTS);
  }

  lemma {:induction false} TargetAtSlot(t: Trace, j: nat, m: nat)
    requires Labels(t) && j < m <= RING_SLOTS && t.at[j].Some?
    ensures TargetBelow(t, t.s.slots[j].value.frame, m) == t.at[j].value
  {
    if m == j + 1 {
    } else {
      TargetAtSlot(t, j, m - 1);
      assert Ascends(t, j, m - 1);
    }
  }

  lemma {:induction false} RingSrc(t: Trace, t': Trace, n: int, p: nat, m: nat)
    requires Labels(t) && Labels(t') && p < MAX_PAGES && m <= RING_SLOTS
    requires t'.at == t.at && t'.s.slots == t.s.slots && t'.baseOf == t.baseOf && t'.folded == t.folded
    ensures SrcBelow(t', n, p, m) == SrcBelow(t, n, p, m) && TargetBelow(t', n, m) == TargetBelow(t, n, m)
  {
    if m == 0 {
    } else {
      RingSrc(t, t', n, p, m - 1);
      assert HasPage(t', n, p, m - 1) <==> HasPage(t, n, p, m - 1);
    }
  }

  /** The evicted slot is at or before frame n, and its fold keeps page p. */
  ghost predicate Folds(t: Trace, s': Store, n: int, p: nat)
    requires Shape(t)
  {
    (t.s.slots[0].Some? ==> t.s.slots[0].value.frame <= n) && !Dropped(t, s'.base, p)
  }

  // ---------- frames that can be restored ----------

  /** Page p comes out with its content at the target of n: reverted, and also left live if the window does
      not have it. */
  ghost predicate Restorable(t: Trace, n: int, p: nat)
    requires Labels(t) && p < MAX_PAGES
  {
    Exact(t, {p}, {}, n, p) && (p in Window(t.s, n) || Exact(t, {}, {}, n, p))
  }

  ghost predicate Covers(s: Store, n: int, revert: set<nat>, skip: set<nat>, p: nat) {
    p !in skip && (p in Window(s, n) ==> p in revert)
  }

  /** This says that every load that undoes the window is right for all contents. */
  lemma RestorableIff(t: Trace, n: int, p: nat)
    requires Labels(t) && p < MAX_PAGES
    ensures Restorable(t, n, p) <==>
      forall revert, skip :: Covers(t.s, n, revert, skip, p) ==> AlwaysRight(t, revert, skip, n, p)
  {
    forall revert, skip | Restorable(t, n, p) && Covers(t.s, n, revert, skip, p)
      ensures AlwaysRight(t, revert, skip, n, p)
    {
      RestorableIsRight(t, n, revert, skip, p);
    }
    AlwaysRightIffExact(t, {p}, {}, n, p);
    AlwaysRightIffExact(t, {}, {}, n, p);
    assert Covers(t.s, n, {p}, {}, p);
    assert p !in Window(t.s, n) ==> Covers(t.s, n, {}, {}, p);
  }

  lemma RestorableIsRight(t: Trace, n: int, revert: set<nat>, skip: set<nat>, p: nat)
    requires Labels(t) && p < MAX_PAGES && Restorable(t, n, p) && Covers(t.s, n, revert, skip, p)
    ensures AlwaysRight(t, revert, skip, n, p) && Target(t, n) < |t.hist|
    ensures Restore(t.s, revert, skip, n)[p] == t.hist[Target(t, n)].mem[p]
  {
    TargetIs(t, n, RING_SLOTS);
    assert Exact(t, revert, skip, n, p);
    AlwaysRightIffExact(t, revert, skip, n, p);
    ExactGivesTarget(t, revert, skip, n, p);
  }

  /** A frame on the timeline of page p is restorable if its page comes from no discarded slot and nothing
      of it is lost. */
  lemma IntactIsRestorable(t: Trace, n: int, p: nat)
    requires Inv(t) && p < MAX_PAGES && Target(t, n) !in t.dead[p] && Src(t, n, p) !in t.dead[p] && NoneLost(t, n, p)
    ensures Restorable(t, n, p)
  {
    ExactIffSound(t, {p}, {}, n, p);
    ExactIffSound(t, {}, {}, n, p);
    if p !in Window(t.s, n) {
      LiveIsTarget(t, n, p);
    }
  }

  // ---------- what keeps a frame restorable ----------

  lemma SaveWindow(t: Trace, s': Store, kept: bool, captured: set<nat>, n: int, p: nat)
    requires Shape(t) && Saves(t, s', kept, captured) && (!kept ==> captured == {})
    requires (t.s.slots[0].Some? ==> t.s.slots[0].value.frame <= n) && (kept ==> n < NewFrame(s', kept))
    ensures p in WrittenAfter(s'.slots, n) <==> p in WrittenAfter(t.s.slots, n) || p in captured
  {
    var last := RING_SLOTS - 1;
    assert forall j :: 0 <= j < last ==> s'.slots[j] == s'.slots[..last][j] == t.s.slots[j + 1];
    if p in WrittenAfter(t.s.slots, n) {
      var j :| 0 <= j < RING_SLOTS && t.s.slots[j].Some? && t.s.slots[j].value.frame > n
        && p in t.s.slots[j].value.pages;
      assert s'.slots[j - 1] == t.s.slots[j];
    }
    if p in captured {
      assert p in s'.slots[last].value.pages.Keys;
    }
  }

  /** A save above n keeps frame n restorable exactly when it forgets no write to page p. */
  lemma SaveRestorable(t: Trace, s': Store, kept: bool, captured: set<nat>, n: int, p: nat)
    requires Inv(t) && Saves(t, s', kept, captured) && (!kept ==> captured == {}) && p < MAX_PAGES
    requires Inv(AfterSave(t, s', NewFrame(s', kept), kept, captured))
    requires Folds(t, s', n, p) && (kept ==> n < NewFrame(s', kept)) && Restorable(t, n, p)
    ensures var t' := AfterSave(t, s', NewFrame(s', kept), kept, captured);
      && Target(t', n) == Target(t, n)
      && (Restorable(t', n, p) <==>
            p in WrittenAfter(t.s.slots, n) || (p in t.s.watch ==> p in s'.watch + captured))
  {
    SaveSrc(t, s', kept, captured, n, p);
    SaveWindow(t, s', kept, captured, n, p);
    TargetIs(t, n, RING_SLOTS);
    assert EntryOk(t.hist, Target(t, n));
  }

  /** Where no slot after either frame has the page, both take it from the same entry. */
  lemma {:induction false} SameSource(t: Trace, m: int, n: int, p: nat, k: nat)
    requires Labels(t) && p < MAX_PAGES && k <= RING_SLOTS
    requires p !in WrittenAfter(t.s.slots, m) && p !in WrittenAfter(t.s.slots, n)
    ensures SrcBelow(t, m, p, k) == SrcBelow(t, n, p, k)
  {
    if k == 0 {
    } else {
      SameSource(t, m, n, p, k - 1);
      assert HasPage(t, m, p, k - 1) <==> HasPage(t, n, p, k - 1);
    }
  }

  /** A frame m below a slot that has the page takes it from an earlier entry than frame n above. */
  lemma EarlierSource(t: Trace, m: int, n: int, p: nat)
    requires Labels(t) && p < MAX_PAGES && p in WrittenAfter(t.s.slots, m) && p !in WrittenAfter(t.s.slots, n)
    ensures Src(t, m, p) < Src(t, n, p)
  {
    var j :| 0 <= j < RING_SLOTS && t.s.slots[j].Some? && t.s.slots[j].value.frame > m && p in t.s.slots[j].value.pages;
    SrcWithin(t, m, p);
    SrcWithin(t, n, p);
    TargetIs(t, m, RING_SLOTS);
    assert HasPage(t, n, p, j);
  }

  /** The load reverts no slot's content of page p, and leaves no pending write to it. */
  ghost predicate ChangesNothing(t: Trace, revert: set<nat>, skip: set<nat>, m: int, p: nat) {
    if Reverts(revert, skip, p) then p !in WrittenAfter(t.s.slots, m) else p !in t.s.watch
  }

  /** A load keeps frame n restorable exactly when a slot after n has the page, or the load changes nothing
      of it but pending writes. */
  lemma LoadRestorable(t: Trace, revert: set<nat>, skip: set<nat>, m: int, n: int, p: nat)
    requires Inv(t) && p < MAX_PAGES && Restorable(t, n, p)
    ensures var t' := AfterLoad(t, revert, skip, m);
      && Inv(t') && Target(t', n) == Target(t, n)
      && (Restorable(t', n, p) <==> p in WrittenAfter(t.s.slots, n) || ChangesNothing(t, revert, skip, m, p))
  {
    LoadKeepsInv(t, revert, skip, m);
    RingSrc(t, AfterLoad(t, revert, skip, m), n, p, RING_SLOTS);
    TargetIs(t, n, RING_SLOTS);
    assert EntryOk(t.hist, Target(t, n));
    if p !in WrittenAfter(t.s.slots, n) {
      if p in WrittenAfter(t.s.slots, m) {
        EarlierSource(t, m, n, p);
      } else {
        SameSource(t, m, n, p, RING_SLOTS);
      }
    }
  }

  /** The step evicts no slot after frame n, and saves above it. */
  ghost predicate Reaches(t: Trace, op: Op, n: int, p: nat)
    requires Inv(t) && Legal(t, op)
  {
    match op
    case OpSave(frame, order) => n < frame && Folds(t, Save(t.s, frame, order), n, p)
    case OpFail => Folds(t, FailedSave(t.s), n, p)
    case _ => true
  }

  /** A slot after n has the page - or else a failed save had not harvested it, and a load changes nothing
      of it. */
  ghost predicate Keeps(t: Trace, op: Op, n: int, p: nat) {
    match op
    case OpFail => p in WrittenAfter(t.s.slots, n) || p !in t.s.Harvest()
    case OpLoad(m, mode, skip) =>
      p in WrittenAfter(t.s.slots, n) || ChangesNothing(t, Undone(t.s, m, mode), skip, m, p)
    case _ => true
  }

  lemma KeptIff(t: Trace, op: Op, n: int, p: nat)
    requires Inv(t) && Legal(t, op) && p < MAX_PAGES && Restorable(t, n, p) && Reaches(t, op, n, p)
    ensures var t' := Step(t, op);
      Inv(t') && Target(t', n) == Target(t, n) && t.hist <= t'.hist && (Restorable(t', n, p) <==> Keeps(t, op, n, p))
  {
    StepKeepsInv(t, op);
    match op
    case OpSave(frame, order) =>
      SaveSaves(t, frame, order);
      SaveRestorable(t, Save(t.s, frame, order), true, t.s.Harvest(), n, p);
    case OpFail =>
      FailSaves(t);
      SaveRestorable(t, FailedSave(t.s), false, {}, n, p);
    case OpLoad(m, mode, skip) =>
      LoadRestorable(t, Undone(t.s, m, mode), skip, m, n, p);
    case _ =>
      RingSrc(t, Step(t, op), n, p, RING_SLOTS);
  }

  /** In particular every windowed load of n or later that does not skip the page keeps it, right or not. */
  lemma LaterLoadKeeps(t: Trace, m: int, cfull: set<nat>, skip: set<nat>, n: int, p: nat)
    requires n <= m && p !in skip
    ensures Keeps(t, OpLoad(m, InWindow(cfull, true), skip), n, p)
  {
    if p in WrittenAfter(t.s.slots, m) {
      assert p in WrittenAfter(t.s.slots, n);
    }
  }

  ghost predicate KeepingRun(t: Trace, ops: seq<Op>, n: int, p: nat)
    requires Inv(t) && LegalRun(t, ops)
    decreases |ops|
  {
    ops == [] || (
      && Reaches(t, ops[0], n, p) && Keeps(t, ops[0], n, p)
      && (StepKeepsInv(t, ops[0]); KeepingRun(Step(t, ops[0]), ops[1..], n, p)))
  }

  lemma {:induction false} KeepingRunKeeps(t: Trace, ops: seq<Op>, n: int, p: nat)
    requires Inv(t) && LegalRun(t, ops) && p < MAX_PAGES && Restorable(t, n, p) && KeepingRun(t, ops, n, p)
    ensures var t' := Run(t, ops); Restorable(t', n, p) && Target(t', n) == Target(t, n) && t.hist <= t'.hist
    decreases |ops|
  {
    if ops == [] {
    } else {
      KeptIff(t, ops[0], n, p);
      KeepingRunKeeps(Step(t, ops[0]), ops[1..], n, p);
    }
  }

  /** Re-rollback. A frame that can be restored now comes back exactly after any run that keeps it - writes,
      saves, failed saves, and any chain of loads of n or later, right or wrong, although the slots
      those loads discard stay valid - as long as no later slot is evicted. */
  lemma SavedFrameComesBack(t: Trace, ops: seq<Op>, n: int, revert: set<nat>, skip: set<nat>, p: nat)
    requires Inv(t) && LegalRun(t, ops) && p < MAX_PAGES && Restorable(t, n, p) && KeepingRun(t, ops, n, p)
    requires Covers(Run(t, ops).s, n, revert, skip, p)
    ensures var t' := Run(t, ops);
      && Target(t', n) == Target(t, n) < |t.hist| && AlwaysRight(t', revert, skip, n, p)
      && Restore(t'.s, revert, skip, n)[p] == t.hist[Target(t, n)].mem[p]
  {
    KeepingRunKeeps(t, ops, n, p);
    TargetIs(t, n, RING_SLOTS);
    RestorableIsRight(Run(t, ops), n, revert, skip, p);
  }

  // ---------- how long a saved frame is held ----------

  /** A save has room to fold page p, a load is windowed, of frame n or later, and does not skip the page,
      and no save fails. */
  ghost predicate Ordinary(t: Trace, op: Op, n: int, p: nat)
    requires Inv(t) && Legal(t, op)
  {
    match op
    case OpSave(frame, order) => !Dropped(t, Save(t.s, frame, order).base, p)
    case OpFail => false
    case OpLoad(m, mode, skip) => n <= m && mode.InWindow? && mode.merged && p !in skip
    case _ => true
  }

  ghost predicate OrdinaryRun(t: Trace, ops: seq<Op>, n: int, p: nat)
    requires Inv(t) && LegalRun(t, ops)
    decreases |ops|
  {
    ops == [] || (Ordinary(t, ops[0], n, p) && (StepKeepsInv(t, ops[0]); OrdinaryRun(Step(t, ops[0]), ops[1..], n, p)))
  }

  function SavesIn(ops: seq<Op>): (n: nat)
    ensures (forall op :: op in ops ==> !op.OpSave?) ==> n == 0
    ensures (forall op :: op in ops ==> op.OpSave?) ==> n == |ops|
  {
    if ops == [] then 0 else SavesIn(ops[1..]) + if ops[0].OpSave? then 1 else 0
  }

  ghost predicate HoldsFrame(t: Trace, j: nat, n: int) {
    j < |t.s.slots| && t.s.slots[j].Some? && t.s.slots[j].value.frame == n
  }

  /** A save moves every slot one place towards eviction, and nothing else moves it. */
  lemma HeldStep(t: Trace, op: Op, n: int, p: nat, j: nat)
    requires Inv(t) && Legal(t, op) && Ordinary(t, op, n, p) && HoldsFrame(t, j, n) && (op.OpSave? ==> j > 0)
    ensures HoldsFrame(Step(t, op), if op.OpSave? then j - 1 else j, n)
    ensures Reaches(t, op, n, p) && Keeps(t, op, n, p)
  {
    match op
    case OpSave(frame, order) =>
      assert t.s.slots[0].Some? ==> Ascends(t, 0, j);
    case OpLoad(m, mode, skip) =>
      LaterLoadKeeps(t, m, mode.cfull, skip, n, p);
    case _ =>
  }

  lemma {:induction false} HeldRun(t: Trace, ops: seq<Op>, n: int, p: nat, j: nat)
    requires Inv(t) && LegalRun(t, ops) && OrdinaryRun(t, ops, n, p)
    requires SavesIn(ops) <= j && HoldsFrame(t, j, n)
    ensures KeepingRun(t, ops, n, p)
    decreases |ops|
  {
    if ops == [] {
    } else {
      StepKeepsInv(t, ops[0]);
      HeldStep(t, ops[0], n, p, j);
      HeldRun(Step(t, ops[0]), ops[1..], n, p, if ops[0].OpSave? then j - 1 else j);
    }
  }

  /** The frame saved last, restorable on a page, comes back on it exactly through any run of writes, fewer than
      60 saves with room to fold the page, and windowed loads of that frame or later that do not skip it. */
  lemma HeldForSixtySaves(t: Trace, ops: seq<Op>, n: int, revert: set<nat>, skip: set<nat>, p: nat)
    requires Inv(t) && LegalRun(t, ops) && p < MAX_PAGES && Restorable(t, n, p)
    requires HoldsFrame(t, 59, n) && SavesIn(ops) < 60 && OrdinaryRun(t, ops, n, p)
    requires Covers(Run(t, ops).s, n, revert, skip, p)
    ensures var t' := Run(t, ops);
      && Some(Target(t', n)) == Some(Target(t, n)) == t.at[59] && Target(t, n) < |t.hist|
      && AlwaysRight(t', revert, skip, n, p)
      && Restore(t'.s, revert, skip, n)[p] == t.hist[Target(t, n)].mem[p]
  {
    HeldRun(t, ops, n, p, 59);
    SavedFrameComesBack(t, ops, n, revert, skip, p);
    TargetOfSlot(t, 59);
  }

  // ---------- from the operations alone ----------

  ghost predicate EveryFrame(t: Trace, p: nat)
    requires Labels(t) && p < MAX_PAGES
  {
    forall n: int :: Restorable(t, n, p)
  }

  /** A save captures page p if it is written, a failed one had not harvested it, folds keep it, and a load
      changes nothing of it. */
  ghost predicate Gentle(t: Trace, op: Op, p: nat)
    requires Inv(t) && Legal(t, op)
  {
    match op
    case OpSave(frame, order) => !Missed(t, t.s.Harvest(), p) && !Dropped(t, Save(t.s, frame, order).base, p)
    case OpFail => p !in t.s.Harvest() && !Dropped(t, FailedSave(t.s).base, p)
    case OpLoad(m, mode, skip) => ChangesNothing(t, Undone(t.s, m, mode), skip, m, p)
    case _ => true
  }

  ghost predicate GentleRun(t: Trace, ops: seq<Op>, p: nat)
    requires Inv(t) && LegalRun(t, ops)
    decreases |ops|
  {
    ops == [] || (Gentle(t, ops[0], p) && (StepKeepsInv(t, ops[0]); GentleRun(Step(t, ops[0]), ops[1..], p)))
  }

  /** Frames that no slot tells apart are restored alike. */
  lemma FramesAlike(t: Trace, n: int, n': int, p: nat)
    requires Labels(t) && p < MAX_PAGES
    requires forall j :: 0 <= j < RING_SLOTS && t.s.slots[j].Some? ==>
      (t.s.slots[j].value.frame <= n <==> t.s.slots[j].value.frame <= n')
    ensures Restorable(t, n, p) <==> Restorable(t, n', p)
  {
    AlikeBelow(t, n, n', p, RING_SLOTS);
    assert WrittenAfter(t.s.slots, n) == WrittenAfter(t.s.slots, n');
  }

  lemma {:induction false} AlikeBelow(t: Trace, n: int, n': int, p: nat, m: nat)
    requires Labels(t) && p < MAX_PAGES && m <= RING_SLOTS
    requires forall j :: 0 <= j < RING_SLOTS && t.s.slots[j].Some? ==>
      (t.s.slots[j].value.frame <= n <==> t.s.slots[j].value.frame <= n')
    ensures SrcBelow(t, n, p, m) == SrcBelow(t, n', p, m) && TargetBelow(t, n, m) == TargetBelow(t, n', m)
  {
    if m == 0 {
    } else {
      AlikeBelow(t, n, n', p, m - 1);
      assert HasPage(t, n, p, m - 1) <==> HasPage(t, n', p, m - 1);
    }
  }

  /** A save makes its own frame restorable. */
  lemma NewFrameRestorable(t: Trace, s': Store, captured: set<nat>, n: int, p: nat)
    requires Inv(t) && Saves(t, s', true, captured) && p < MAX_PAGES
    requires Inv(AfterSave(t, s', NewFrame(s', true), true, captured))
    requires !Dropped(t, s'.base, p) && !Missed(t, captured, p) && NewFrame(s', true) <= n && Restorable(t, n, p)
    ensures Restorable(AfterSave(t, s', NewFrame(s', true), true, captured), n, p)
  {
    SaveSrc(t, s', true, captured, n, p);
    assert p !in WrittenAfter(t.s.slots, n);
  }

  lemma SaveKeepsFrame(t: Trace, s': Store, kept: bool, captured: set<nat>, n: int, p: nat)
    requires Inv(t) && Saves(t, s', kept, captured) && (!kept ==> captured == {}) && p < MAX_PAGES
    requires Inv(AfterSave(t, s', NewFrame(s', kept), kept, captured)) && !Dropped(t, s'.base, p)
    requires p in t.s.watch ==> if kept then p in captured else p in s'.watch
    requires EveryFrame(t, p)
    ensures Restorable(AfterSave(t, s', NewFrame(s', kept), kept, captured), n, p)
  {
    var t' := AfterSave(t, s', NewFrame(s', kept), kept, captured);
    var f := if t.s.slots[0].Some? && n < t.s.slots[0].value.frame then t.s.slots[0].value.frame else n;
    assert Restorable(t, f, p);
    if kept && NewFrame(s', kept) <= f {
      NewFrameRestorable(t, s', captured, f, p);
    } else {
      SaveRestorable(t, s', kept, captured, f, p);
    }
    if f != n {
      assert SlotOk(t, 0);
      forall j | 0 <= j < RING_SLOTS && s'.slots[j].Some? ensures f < s'.slots[j].value.frame {
        if j < RING_SLOTS - 1 {
          assert s'.slots[j] == s'.slots[..RING_SLOTS - 1][j] == t.s.slots[j + 1];
          assert Ascends(t, 0, j + 1);
        }
      }
      FramesAlike(t', n, f, p);
    }
  }

  lemma GentleStep(t: Trace, op: Op, p: nat)
    requires Inv(t) && Legal(t, op) && p < MAX_PAGES && EveryFrame(t, p) && Gentle(t, op, p)
    ensures Inv(Step(t, op)) && EveryFrame(Step(t, op), p)
  {
    StepKeepsInv(t, op);
    forall n: int ensures Restorable(Step(t, op), n, p) {
      assert Restorable(t, n, p);
      match op
      case OpSave(frame, order) =>
        SaveSaves(t, frame, order);
        SaveKeepsFrame(t, Save(t.s, frame, order), true, t.s.Harvest(), n, p);
      case OpFail =>
        FailSaves(t);
        SaveKeepsFrame(t, FailedSave(t.s), false, {}, n, p);
      case _ => KeptIff(t, op, n, p);
    }
  }

  /** Below every slot there is only what was folded. */
  lemma {:induction false} BelowTheRing(t: Trace, n: int, p: nat, m: nat)
    requires Labels(t) && p < MAX_PAGES && m <= RING_SLOTS
    requires forall j :: 0 <= j < RING_SLOTS && t.s.slots[j].Some? ==> n < t.s.slots[j].value.frame
    ensures SrcBelow(t, n, p, m) == t.baseOf[p] && TargetBelow(t, n, m) == t.folded
  {
    if m == 0 {
    } else {
      BelowTheRing(t, n, p, m - 1);
    }
  }

  /** A dropped page is wrong at the evicted frame. */
  lemma DroppedShows(t: Trace, s': Store, kept: bool, captured: set<nat>, p: nat)
    requires Inv(t) && Saves(t, s', kept, captured) && p < MAX_PAGES && Dropped(t, s'.base, p)
    requires Inv(AfterSave(t, s', NewFrame(s', kept), kept, captured))
    ensures !Restorable(AfterSave(t, s', NewFrame(s', kept), kept, captured), t.s.slots[0].value.frame, p)
  {
    var t', f := AfterSave(t, s', NewFrame(s', kept), kept, captured), t.s.slots[0].value.frame;
    assert SlotOk(t, 0);
    forall j | 0 <= j < RING_SLOTS && s'.slots[j].Some? ensures f < s'.slots[j].value.frame {
      if j < RING_SLOTS - 1 {
        assert s'.slots[j] == s'.slots[..RING_SLOTS - 1][j] == t.s.slots[j + 1];
        assert Ascends(t, 0, j + 1);
      }
    }
    BelowTheRing(t', f, p, RING_SLOTS);
  }

  /** A written page that a save does not capture is wrong at the save's own frame. */
  lemma MissedShows(t: Trace, frame: int, order: seq<nat>, p: nat)
    requires Inv(t) && Legal(t, OpSave(frame, order)) && p < MAX_PAGES
    requires Missed(t, t.s.Harvest(), p) && !Dropped(t, Save(t.s, frame, order).base, p)
    ensures Inv(Step(t, OpSave(frame, order))) && !Restorable(Step(t, OpSave(frame, order)), frame, p)
  {
    StepKeepsInv(t, OpSave(frame, order));
    SaveSaves(t, frame, order);
    SaveSrc(t, Save(t.s, frame, order), true, t.s.Harvest(), frame, p);
    SrcWithin(t, frame, p);
  }

  lemma {:induction false} FrameAbove(slots: seq<Option<Delta>>) returns (n: int)
    ensures forall j :: 0 <= j < |slots| && slots[j].Some? ==> slots[j].value.frame <= n
  {
    if slots == [] {
      n := 0;
    } else {
      n := FrameAbove(slots[1..]);
      if slots[0].Some? && n < slots[0].value.frame {
        n := slots[0].value.frame;
      }
      assert forall j :: 0 < j < |slots| ==> slots[j] == slots[1..][j - 1];
    }
  }

  /** The condition is exact: any other step leaves some frame that is not restored rightly. */
  lemma GentleIff(t: Trace, op: Op, p: nat)
    requires Inv(t) && Legal(t, op) && p < MAX_PAGES && EveryFrame(t, p)
    ensures Inv(Step(t, op)) && (EveryFrame(Step(t, op), p) <==> Gentle(t, op, p))
  {
    StepKeepsInv(t, op);
    if Gentle(t, op, p) {
      GentleStep(t, op, p);
    } else {
      var n := NotGentleShows(t, op, p);
    }
  }

  lemma NotGentleShows(t: Trace, op: Op, p: nat) returns (n: int)
    requires Inv(t) && Legal(t, op) && p < MAX_PAGES && EveryFrame(t, p) && !Gentle(t, op, p)
    ensures Inv(Step(t, op)) && !Restorable(Step(t, op), n, p)
  {
    StepKeepsInv(t, op);
    n := FrameAbove(t.s.slots);
    assert Restorable(t, n, p) && p !in WrittenAfter(t.s.slots, n);
    match op
    case OpSave(frame, order) =>
      SaveSaves(t, frame, order);
      if Dropped(t, Save(t.s, frame, order).base, p) {
        DroppedShows(t, Save(t.s, frame, order), true, t.s.Harvest(), p);
        n := t.s.slots[0].value.frame;
      } else {
        MissedShows(t, frame, order, p);
        n := frame;
      }
    case OpFail =>
      FailSaves(t);
      if Dropped(t, FailedSave(t.s).base, p) {
        DroppedShows(t, FailedSave(t.s), false, {}, p);
        n := t.s.slots[0].value.frame;
      } else {
        KeptIff(t, op, n, p);
      }
    case _ => KeptIff(t, op, n, p);
  }

  lemma {:induction false} GentleRunKeeps(t: Trace, ops: seq<Op>, p: nat)
    requires Inv(t) && LegalRun(t, ops) && p < MAX_PAGES && EveryFrame(t, p) && GentleRun(t, ops, p)
    ensures EveryFrame(Run(t, ops), p)
    decreases |ops|
  {
    if ops == [] {
    } else {
      GentleStep(t, ops[0], p);
      GentleRunKeeps(Step(t, ops[0]), ops[1..], p);
    }
  }

  lemma StartRestorable(live: Memory, committed: set<nat>, countdown: int, limit: nat, n: int, p: nat)
    requires Inv(Start(live, committed, countdown, limit)) && p < MAX_PAGES
    ensures Restorable(Start(live, committed, countdown, limit), n, p)
  {
    var t := Start(live, committed, countdown, limit);
    TargetIs(t, n, RING_SLOTS);
    SrcWithin(t, n, p);
  }

  /** Delta restore is full-copy restore. After the baseline capture, any run of saves that capture page p
      whenever it is written, and then any run with rollbacks that keeps frame n, a load of n gives the
      page what the full copy for n has. All that is asked is asked of the operations. */
  lemma RestoreIsFullCopy(live: Memory, committed: set<nat>, countdown: int, limit: nat,
                          ops: seq<Op>, more: seq<Op>, n: int, revert: set<nat>, skip: set<nat>, p: nat)
    requires Inv(Start(live, committed, countdown, limit)) && LegalRun(Start(live, committed, countdown, limit), ops)
    requires p < MAX_PAGES && GentleRun(Start(live, committed, countdown, limit), ops, p)
    requires var t := Run(Start(live, committed, countdown, limit), ops);
      && LegalRun(t, more) && KeepingRun(t, more, n, p) && Covers(Run(t, more).s, n, revert, skip, p)
    ensures var t := Run(Start(live, committed, countdown, limit), ops); var t' := Run(t, more);
      && Target(t', n) == Target(t, n) < |t.hist| && AlwaysRight(t', revert, skip, n, p)
      && Restore(t'.s, revert, skip, n)[p] == t.hist[Target(t, n)].mem[p]
  {
    forall n: int ensures Restorable(Start(live, committed, countdown, limit), n, p) {
      StartRestorable(live, committed, countdown, limit, n, p);
    }
    GentleRunKeeps(Start(live, committed, countdown, limit), ops, p);
    SavedFrameComesBack(Run(Start(live, committed, countdown, limit), ops), more, n, revert, skip, p);
  }

  // ---------- failed saves ----------

  /** A failed save shrinks the window by what it harvested. */
  lemma FailedWindow(s: Store, n: int, cfull: set<nat>)
    requires s.Wf() && (s.slots[0].Some? ==> s.slots[0].value.frame <= n)
    ensures WrittenAfter(FailedSave(s).slots, n) == WrittenAfter(s.slots, n)
    ensures forall p :: p in Windowed(FailedSave(s), n, cfull) <==>
      p in WrittenAfter(s.slots, n) || (p in s.watch && p !in s.Harvest()) || (p in cfull && p in s.dirty)
  {
    var slots := FailedSave(s).slots;
    forall p | p in WrittenAfter(s.slots, n) ensures p in WrittenAfter(slots, n) {
      var j :| 0 <= j < |s.slots| && s.slots[j].Some? && s.slots[j].value.frame > n && p in s.slots[j].value.pages;
      assert slots[j - 1] == s.slots[j];
    }
    forall p | p in WrittenAfter(slots, n) ensures p in WrittenAfter(s.slots, n) {
      var j :| 0 <= j < |slots| && slots[j].Some? && slots[j].value.frame > n && p in slots[j].value.pages;
      assert slots[j] == s.slots[j + 1];
    }
  }

  /** A save that fails has consumed the write-watch bits of the pages it harvested. On a page a load of n
      got right before, it does no harm exactly when the page was not harvested or the window has it
      anyway. */
  lemma FailedSaveHarmlessIff(t: Trace, n: int, cfull: set<nat>, skip: set<nat>, p: nat)
    requires Inv(t) && p < MAX_PAGES && p !in skip && Folds(t, FailedSave(t.s), n, p)
    requires AlwaysRight(t, Windowed(t.s, n, cfull), skip, n, p)
    ensures var t' := Step(t, OpFail); var revert := Windowed(t'.s, n, cfull);
      && Inv(t') && Target(t', n) == Target(t, n)
      && (AlwaysRight(t', revert, skip, n, p) <==> (p in t.s.Harvest() ==> p in revert))
  {
    var t' := Step(t, OpFail);
    FailedSaveKeeps(t, n, p);
    FailedWindow(t.s, n, cfull);
    TargetIs(t, n, RING_SLOTS);
    assert EntryOk(t.hist, Target(t, n));
    AlwaysRightIffExact(t, Windowed(t.s, n, cfull), skip, n, p);
    AlwaysRightIffExact(t', Windowed(t'.s, n, cfull), skip, n, p);
  }

  lemma FailedSaveKeeps(t: Trace, n: int, p: nat)
    requires Inv(t) && p < MAX_PAGES && Folds(t, FailedSave(t.s), n, p)
    ensures var t' := Step(t, OpFail);
      && Inv(t') && Src(t', n, p) == Src(t, n, p) && Target(t', n) == Target(t, n) < |t.hist|
      && t'.hist[Target(t, n)] == t.hist[Target(t, n)]
      && t'.liveOf[p] == if p in t.s.watch then |t.hist| else t.liveOf[p]
  {
    StepKeepsInv(t, OpFail);
    FailSaves(t);
    SaveSrc(t, FailedSave(t.s), false, {}, n, p);
    TargetIs(t, n, RING_SLOTS);
  }

  /** Right after the newest save every page is right. After a failed save every page still is, if and
      only if that save harvested nothing. */
  lemma FailedSaveHarmless(t: Trace, n: int)
    requires Inv(t) && forall j :: 0 <= j < RING_SLOTS && t.s.slots[j].Some? ==> t.s.slots[j].value.frame <= n
    requires forall p: nat :: p < MAX_PAGES ==>
      AlwaysRight(t, Windowed(t.s, n, {}), {}, n, p) && !Dropped(t, FailedSave(t.s).base, p)
    ensures Inv(Step(t, OpFail))
    ensures (forall p: nat :: p < MAX_PAGES ==>
        AlwaysRight(Step(t, OpFail), Windowed(Step(t, OpFail).s, n, {}), {}, n, p))
      <==> t.s.Harvest() == {}
  {
    var t' := Step(t, OpFail);
    StepKeepsInv(t, OpFail);
    forall p: nat | p < MAX_PAGES
      ensures AlwaysRight(t', Windowed(t'.s, n, {}), {}, n, p) <==> p !in t.s.Harvest()
    {
      FailedSaveHarmlessIff(t, n, {}, {}, p);
      FailedWindow(t.s, n, {});
    }
    if t.s.Harvest() != {} {
      var p :| p in t.s.Harvest();
      assert !AlwaysRight(t', Windowed(t'.s, n, {}), {}, n, p);
    }
  }

  // ---------- until a page is captured again ----------

  ghost predicate Catches(t: Trace, op: Op, p: nat) {
    op.OpSave? && p in t.s.Harvest()
  }

  /** A step that loads nothing, saves at or before n, captures page p if it is written and folds it. */
  ghost predicate Quiet(t: Trace, op: Op, n: int, p: nat)
    requires Inv(t) && Legal(t, op)
  {
    match op
    case OpWrite(_) => true
    case OpLimit(_) => true
    case OpSave(frame, order) => frame <= n && !Missed(t, t.s.Harvest(), p) && Folds(t, Save(t.s, frame, order), n, p)
    case OpFail => !Missed(t, {}, p) && Folds(t, FailedSave(t.s), n, p)
    case _ => false
  }

  ghost predicate QuietRun(t: Trace, ops: seq<Op>, n: int, p: nat)
    requires Inv(t) && LegalRun(t, ops)
    decreases |ops|
  {
    ops == [] || (Quiet(t, ops[0], n, p) && (StepKeepsInv(t, ops[0]); QuietRun(Step(t, ops[0]), ops[1..], n, p)))
  }

  /** Some save of the run captures page p. */
  ghost predicate CaughtIn(t: Trace, ops: seq<Op>, p: nat)
    requires Inv(t) && LegalRun(t, ops)
    decreases |ops|
  {
    ops != [] && (Catches(t, ops[0], p) || (StepKeepsInv(t, ops[0]); CaughtIn(Step(t, ops[0]), ops[1..], p)))
  }

  /** A load of n would take page p from a discarded slot. */
  ghost predicate FromDiscarded(t: Trace, n: int, p: nat)
    requires Labels(t) && p < MAX_PAGES
  {
    Src(t, n, p) in t.dead[p]
  }

  /** The content page p was last saved with is in no slot and not in the baseline. */
  ghost predicate LastLost(t: Trace, p: nat)
    requires p < MAX_PAGES
  {
    t.liveOf[p] in t.lost[p]
  }

  lemma QuietSave(t: Trace, s': Store, kept: bool, captured: set<nat>, n: int, p: nat)
    requires Inv(t) && Saves(t, s', kept, captured) && (!kept ==> captured == {}) && p < MAX_PAGES
    requires Inv(AfterSave(t, s', NewFrame(s', kept), kept, captured))
    requires !Missed(t, captured, p) && Folds(t, s', n, p) && (kept ==> NewFrame(s', kept) <= n)
    ensures var t' := AfterSave(t, s', NewFrame(s', kept), kept, captured);
      && t'.dead == t.dead && t'.lost[p] == t.lost[p]
      && (FromDiscarded(t', n, p) <==> FromDiscarded(t, n, p) && p !in captured)
      && (LastLost(t', p) <==> LastLost(t, p) && p !in captured)
  {
    assert LineOk(t, p) && KeptOk(t, p);
    SaveSrc(t, s', kept, captured, n, p);
  }

  lemma QuietStep(t: Trace, op: Op, n: int, p: nat)
    requires Inv(t) && Legal(t, op) && p < MAX_PAGES && Quiet(t, op, n, p)
    ensures var t' := Step(t, op);
      && Inv(t') && t'.dead == t.dead && t'.lost[p] == t.lost[p]
      && (FromDiscarded(t', n, p) <==> FromDiscarded(t, n, p) && !Catches(t, op, p))
      && (LastLost(t', p) <==> LastLost(t, p) && !Catches(t, op, p))
  {
    var t' := Step(t, op);
    StepKeepsInv(t, op);
    match op
    case OpWrite(_) => RingSrc(t, t', n, p, RING_SLOTS);
    case OpLimit(_) => RingSrc(t, t', n, p, RING_SLOTS);
    case OpSave(frame, order) =>
      SaveSaves(t, frame, order);
      QuietSave(t, Save(t.s, frame, order), true, t.s.Harvest(), n, p);
    case OpFail =>
      FailSaves(t);
      QuietSave(t, FailedSave(t.s), false, {}, n, p);
  }

  /** Over a run of writes and saves a page stays on a discarded slot, and stays lost, exactly until a save
      captures it. */
  lemma {:induction false} UntilCaught(t: Trace, ops: seq<Op>, n: int, p: nat)
    requires Inv(t) && LegalRun(t, ops) && p < MAX_PAGES && QuietRun(t, ops, n, p)
    ensures var t' := Run(t, ops);
      && t'.dead == t.dead && t'.lost[p] == t.lost[p]
      && (FromDiscarded(t', n, p) <==> FromDiscarded(t, n, p) && !CaughtIn(t, ops, p))
      && (LastLost(t', p) <==> LastLost(t, p) && !CaughtIn(t, ops, p))
    decreases |ops|
  {
    if ops == [] {
    } else {
      QuietStep(t, ops[0], n, p);
      UntilCaught(Step(t, ops[0]), ops[1..], n, p);
    }
  }

  /** The horizon recovers. After a rollback, and then any writes and saves, a load of a frame n at or
      after those saves is right on a page for all contents if and only if it does not revert the page, or
      some save has captured the page since, or the page was never taken from a discarded slot. */
  lemma HorizonRecovers(t: Trace, ops: seq<Op>, n: int, cfull: set<nat>, skip: set<nat>, p: nat)
    requires Inv(t) && LegalRun(t, ops) && p < MAX_PAGES && QuietRun(t, ops, n, p) && p !in skip
    requires Target(Run(t, ops), n) !in t.dead[p] && NoneLost(Run(t, ops), n, p)
    ensures var t' := Run(t, ops); var revert := Windowed(t'.s, n, cfull);
      AlwaysRight(t', revert, skip, n, p) <==> (p in revert ==> CaughtIn(t, ops, p) || !FromDiscarded(t, n, p))
  {
    var t' := Run(t, ops);
    UntilCaught(t, ops, n, p);
    WindowIsExact(t', Windowed(t'.s, n, cfull), skip, n, p);
  }

  /** A page a failed save had harvested stays lost exactly until it is captured again: after any further
      writes and saves, restoring it to the newest save is right for all contents if and only if some
      save since the failure captured it. */
  lemma LostUntilCaptured(t: Trace, ops: seq<Op>, frame: int, order: seq<nat>,
                          revert: set<nat>, skip: set<nat>, n: int, p: nat)
    requires Inv(t) && p in t.s.Harvest() && Folds(t, FailedSave(t.s), n, p) && !FromDiscarded(t, n, p)
    requires Inv(Step(t, OpFail)) && LegalRun(Step(t, OpFail), ops) && QuietRun(Step(t, OpFail), ops, n, p)
    requires var t2 := Run(Step(t, OpFail), ops); var op := OpSave(frame, order); Legal(t2, op) && Quiet(t2, op, n, p)
    requires Reverts(revert, skip, p)
    ensures var t1 := Step(t, OpFail); var t2 := Run(t1, ops); var t3 := Step(t2, OpSave(frame, order));
      && Inv(t3) && Target(t3, n) == |t2.hist|
      && (AlwaysRight(t3, revert, skip, n, p) <==> CaughtIn(t1, ops, p) || p in t2.s.Harvest())
  {
    var t1 := Step(t, OpFail);
    var t2 := Run(t1, ops);
    var t3 := Step(t2, OpSave(frame, order));
    FailSaves(t);
    SaveSrc(t, FailedSave(t.s), false, {}, n, p);
    assert LineOk(t, p) && LastLost(t1, p) && !FromDiscarded(t1, n, p);
    UntilCaught(t1, ops, n, p);
    QuietStep(t2, OpSave(frame, order), n, p);
    NewestTarget(t2, frame, order, n, p);
    RestoreIsExact(t3, revert, skip, n, p);
  }

  lemma NewestTarget(t: Trace, frame: int, order: seq<nat>, n: int, p: nat)
    requires Inv(t) && Legal(t, OpSave(frame, order)) && Quiet(t, OpSave(frame, order), n, p) && p < MAX_PAGES
    ensures var t' := Step(t, OpSave(frame, order));
      && Inv(t') && Target(t', n) == |t.hist| == |t'.hist| - 1 && |t.hist| !in t'.dead[p]
      && t'.hist[|t.hist|].of[p] == t'.liveOf[p]
  {
    StepKeepsInv(t, OpSave(frame, order));
    SaveSaves(t, frame, order);
    SaveSrc(t, Save(t.s, frame, order), true, t.s.Harvest(), n, p);
    assert LineOk(t, p);
  }

  // ---------- the restore modes ----------

  /** The cumulative dirty set has every page of every slot. */
  ghost predicate DirtyCovers(s: Store) {
    AllWritten(s.slots) <= s.dirty
  }

  lemma WindowCovered(s: Store, n: int)
    requires DirtyCovers(s)
    ensures WrittenAfter(s.slots, n) <= s.dirty
  {
    forall p | p in WrittenAfter(s.slots, n) ensures p in s.dirty {
      assert p in AllWritten(s.slots);
    }
  }

  /** FULL restore does not merge pending writes. While the dirty set covers the ring it is right on a page
      for all contents exactly when the page does not come from a discarded slot, and a pending write to
      it is to a page already dirty. */
  lemma FullIsExact(t: Trace, skip: set<nat>, n: int, p: nat)
    requires Inv(t) && p < MAX_PAGES && Target(t, n) !in t.dead[p] && NoneLost(t, n, p) && p !in skip
    requires DirtyCovers(t.s)
    ensures AlwaysRight(t, t.s.dirty, skip, n, p) <==>
      if p in t.s.dirty then !FromDiscarded(t, n, p) else p !in t.s.watch
  {
    RestoreIsExact(t, t.s.dirty, skip, n, p);
    WindowCovered(t.s, n);
    if p !in t.s.dirty && p !in t.s.watch {
      LiveIsTarget(t, n, p);
    }
  }

  ghost predicate SameResult(t: Trace, a: set<nat>, b: set<nat>, skip: set<nat>, n: int, p: nat)
    requires p < MAX_PAGES
  {
    Restore(t.s, a, skip, n)[p] == Restore(t.s, b, skip, n)[p]
  }

  /** The three restore modes. Adding coherent-full pages to the window changes nothing. The full dirty set
      gives the same page for all contents if and only if a page with a pending write is dirty, or skipped. */
  lemma ModesAgree(t: Trace, n: int, cfull: set<nat>, skip: set<nat>, p: nat)
    requires Inv(t) && p < MAX_PAGES && Target(t, n) !in t.dead[p] && NoneLost(t, n, p) && !FromDiscarded(t, n, p)
    requires DirtyCovers(t.s)
    ensures SameResult(t, Windowed(t.s, n, cfull), Windowed(t.s, n, {}), skip, n, p)
    ensures (forall t' :: Labels(t') && SameBook(t, t') ==>
        SameResult(t', t.s.dirty, Windowed(t.s, n, {}), skip, n, p))
      <==> (p in t.s.watch && p !in skip ==> p in t.s.dirty)
  {
    if p !in skip {
      var w := Windowed(t.s, n, {});
      WindowIsExact(t, w, skip, n, p);
      WindowIsExact(t, Windowed(t.s, n, cfull), skip, n, p);
      FullIsExact(t, skip, n, p);
      if p in t.s.watch && p !in t.s.dirty {
        var t' := InexactFull(t, skip, n, p);
        assert !SameResult(t', t.s.dirty, w, skip, n, p);
      } else {
        forall t' | Labels(t') && SameBook(t, t') ensures SameResult(t', t.s.dirty, w, skip, n, p) {
          assert Right(t', t.s.dirty, skip, n, p) && Right(t', w, skip, n, p);
        }
      }
    }
  }

  lemma InexactFull(t: Trace, skip: set<nat>, n: int, p: nat) returns (t': Trace)
    requires Labels(t) && p in t.s.watch && p !in t.s.dirty && p !in skip
    ensures Labels(t') && SameBook(t, t') && !SameResult(t', t.s.dirty, Windowed(t.s, n, {}), skip, n, p)
  {
    t' := t.(s := Write(t.s, p, Other(Source(t.s, n, p))));
    assert t'.s.watch == t.s.watch;
    WriteKeepsLabels(t, p, Other(Source(t.s, n, p)));
  }

  /** The failing input: write a page that is not dirty and load in FULL mode. The write survives. */
  lemma FullKeepsPendingWrite(live: Memory, committed: set<nat>, p: nat, c: Page, n: int)
    requires p < MAX_PAGES && p in committed && c != live[p]
    ensures var s := Write(Baseline(live, committed, RING_SLOTS, MAX_PAGES), p, c);
      && Load(s, s.dirty, {}, n).live[p] == c
      && Load(s, Windowed(s, n, {}), {}, n).live[p] == live[p]
  {
    var s := Write(Baseline(live, committed, RING_SLOTS, MAX_PAGES), p, c);
    NewestMissing(s.slots, n, p);
  }

  lemma SaveCovers(s: Store, frame: int, order: seq<nat>)
    requires s.Wf() && (forall p :: p in order <==> p in s.Harvest()) && (DirtyCovers(s) || s.countdown <= 1)
    ensures DirtyCovers(Save(s, frame, order))
  {
    var s' := Save(s, frame, order);
    forall p | p in AllWritten(s'.slots) ensures p in s'.dirty {
      var j :| 0 <= j < |s'.slots| && s'.slots[j].Some? && p in s'.slots[j].value.pages;
      if j < RING_SLOTS - 1 {
        assert s'.slots[j] == s.slots[j + 1];
        assert s.slots[j + 1].Some? && p in s.slots[j + 1].value.pages;
      }
    }
  }

  lemma FailCovers(s: Store)
    requires s.Wf() && DirtyCovers(s)
    ensures DirtyCovers(FailedSave(s))
  {
    var s' := FailedSave(s);
    forall p | p in AllWritten(s'.slots) ensures p in s'.dirty {
      var j :| 0 <= j < |s'.slots| && s'.slots[j].Some? && p in s'.slots[j].value.pages;
      assert s'.slots[j] == s.slots[j + 1];
    }
  }

  /** A load keeps the cover exactly when the slots it discards have no page of their own. */
  lemma LoadCoversIff(s: Store, revert: set<nat>, skip: set<nat>, n: int)
    ensures DirtyCovers(Load(s, revert, skip, n)) <==> WrittenAfter(s.slots, n) <= WrittenUpTo(s.slots, n)
  {
    var up, after, all := WrittenUpTo(s.slots, n), WrittenAfter(s.slots, n), AllWritten(s.slots);
    forall p ensures p in all <==> p in up || p in after {
      if p in all {
        var j :| 0 <= j < |s.slots| && s.slots[j].Some? && p in s.slots[j].value.pages;
        assert if s.slots[j].value.frame <= n then p in up else p in after;
      }
    }
  }

  /** Which steps keep the dirty set covering the ring. */
  lemma StepCovers(t: Trace, op: Op)
    requires Inv(t) && Legal(t, op) && (DirtyCovers(t.s) || (op.OpSave? && t.s.countdown <= 1))
    requires op.OpLoad? ==> WrittenAfter(t.s.slots, op.n) <= WrittenUpTo(t.s.slots, op.n)
    ensures DirtyCovers(Step(t, op).s)
  {
    match op
    case OpSave(frame, order) => SaveCovers(t.s, frame, order);
    case OpFail => FailCovers(t.s);
    case OpLoad(n, mode, skip) => LoadCoversIff(t.s, Undone(t.s, n, mode), skip, n);
    case _ =>
  }

  // ---------- concrete inputs ----------

  /** A save that fails after eviction has consumed the write-watch bits: write a page, fail to save,
      save frame f, write the page again. Loading f then yields the baseline, not frame f. */
  lemma FailedSaveLosesPage(live: Memory, committed: set<nat>, p: nat, c: Page, e: Page, f: int)
    requires p < ZONE_START && p in committed
    ensures var s := Write(Baseline(live, committed, RING_SLOTS, ZONE_START), p, c);
      var s' := Save(FailedSave(s), f, []);
      var s'' := Write(s', p, e);
      && FailedSave(s).Harvest() == {}
      && s'.live[p] == c
      && Load(s'', Windowed(s'', f, {}), {}, f).live[p] == live[p]
  {
    var s := Write(Baseline(live, committed, RING_SLOTS, ZONE_START), p, c);
    var s' := Save(FailedSave(s), f, []);
    assert FailedSave(s).Harvest() == {};
    var s'' := Write(s', p, e);
    NewestMissing(s''.slots, f, p);
    assert p in Windowed(s'', f, {});
  }

  /** A target above an earlier rollback: save 1, write p, save 2, roll back to 1, save 3, write p.
      Loading 3 takes p from the discarded slot 2. */
  lemma AboveHorizonIsInexact(live: Memory, committed: set<nat>, p: nat, c: Page, e: Page)
    requires p < ZONE_START && p in committed
    ensures var s := Save(Write(Save(Baseline(live, committed, RING_SLOTS, ZONE_START), 1, []), p, c), 2, [p]);
      var s' := Save(Load(s, Windowed(s, 1, {}), {}, 1), 3, []);
      var s'' := Write(s', p, e);
      && s'.live[p] == live[p]
      && Load(s'', Windowed(s'', 3, {}), {}, 3).live[p] == c
  {
    var s1 := Save(Baseline(live, committed, RING_SLOTS, ZONE_START), 1, []);
    FirstSave(live, committed);
    SecondSave(s1, p, c);
    var s := Save(Write(s1, p, c), 2, [p]);
    RolledBack(s, p);
    DiscardedSlotIsUsed(Load(s, Windowed(s, 1, {}), {}, 1), p, c, e);
  }

  lemma FirstSave(live: Memory, committed: set<nat>)
    ensures var s := Save(Baseline(live, committed, RING_SLOTS, ZONE_START), 1, []);
      && s.Wf()
      && s.base == Baseline(live, committed, RING_SLOTS, ZONE_START).base
      && forall j :: 0 <= j < RING_SLOTS && s.slots[j].Some? ==> s.slots[j].value.pages == map[]
  {
  }

  lemma SecondSave(s1: Store, p: nat, c: Page)
    requires s1.Wf() && p < MAX_PAGES && p in s1.base
    requires forall j :: 0 <= j < RING_SLOTS && s1.slots[j].Some? ==> s1.slots[j].value.pages == map[]
    ensures var s := Save(Write(s1, p, c), 2, [p]); var o := s.slots[RING_SLOTS - 1];
      && s.Wf() && o.Some? && o.value.frame == 2 && p in o.value.pages && o.value.pages[p] == c
      && p in WrittenAfter(s.slots, 1) && Newest(s.slots, 1, p) == None
  {
    var s := Save(Write(s1, p, c), 2, [p]);
    assert Capture(s.live, [p], 2).Wf();
    forall j | 0 <= j < RING_SLOTS - 1 ensures s.slots[j] == s1.slots[j + 1] {
    }
    NewestMissing(s.slots, 1, p);
  }

  lemma RolledBack(s: Store, p: nat)
    requires s.Wf() && p < MAX_PAGES && p in s.watch + WrittenAfter(s.slots, 1)
    ensures Load(s, Windowed(s, 1, {}), {}, 1).live[p] == Source(s, 1, p)
  {
  }

  lemma DiscardedSlotIsUsed(s: Store, p: nat, c: Page, e: Page)
    requires s.Wf() && p < MAX_PAGES
    requires var o := s.slots[RING_SLOTS - 1];
      o.Some? && o.value.frame == 2 && p in o.value.pages && o.value.pages[p] == c
    ensures var s' := Save(s, 3, []);
      var s'' := Write(s', p, e);
      && s'.live == s.live
      && Load(s'', Windowed(s'', 3, {}), {}, 3).live[p] == c
  {
    var s' := Save(s, 3, []);
    var s'' := Write(s', p, e);
    assert s'.slots[RING_SLOTS - 2] == s.slots[RING_SLOTS - 1];
    LastButOne(s'.slots, p, c);
    assert p in Windowed(s'', 3, {});
  }

  lemma LastButOne(slots: seq<Option<Delta>>, p: nat, c: Page)
    requires |slots| >= 2 && slots[|slots| - 1].Some? && p !in slots[|slots| - 1].value.pages
    requires var o := slots[|slots| - 2]; o.Some? && o.value.frame <= 3 && p in o.value.pages && o.value.pages[p] == c
    ensures Newest(slots, 3, p) == Some(c)
  {
    var front := slots[..|slots| - 1];
    assert front[|front| - 1] == slots[|slots| - 2];
  }

  // ---------- the heap zone ----------

  /** No slot holds a page at or above z, so the baseline has it from the capture. */
  ghost predicate NeverHarvested(t: Trace, z: nat)
    requires Inv(t)
  {
    && t.s.limit <= z
    && (forall j, p :: 0 <= j < RING_SLOTS && t.s.slots[j].Some? && p in t.s.slots[j].value.pages ==> p < z)
    && (forall p :: z <= p < MAX_PAGES ==> t.baseOf[p] == 0)
  }

  lemma StepNeverHarvests(t: Trace, op: Op, z: nat)
    requires Inv(t) && Legal(t, op) && NeverHarvested(t, z) && (op.OpLimit? ==> op.limit <= z)
    ensures Inv(Step(t, op)) && NeverHarvested(Step(t, op), z)
  {
    StepKeepsInv(t, op);
    var t' := Step(t, op);
    if op.OpSave? || op.OpFail? {
      forall j, p | 0 <= j < RING_SLOTS && t'.s.slots[j].Some? && p in t'.s.slots[j].value.pages ensures p < z {
        if j < RING_SLOTS - 1 {
          assert t'.s.slots[j] == t.s.slots[j + 1];
        }
      }
    }
  }

  /** The scan of a save stops at the carve frontier, so a written page of the heap zone is never
      rewound to frame n: a load puts it back to the captured baseline unless it is skipped. */
  lemma ZoneFallsBackToBaseline(t: Trace, n: int, cfull: set<nat>, skip: set<nat>, p: nat)
    requires Inv(t) && NeverHarvested(t, 458752) && 458752 <= p < MAX_PAGES
    requires p in t.s.watch && p !in skip
    ensures Load(t.s, Windowed(t.s, n, cfull), skip, n).live[p] == t.hist[0].mem[p]
  {
    NewestMissing(t.s.slots, n, p);
    assert Names(t.hist, t.baseOf[p], p, BasePage(t.s.base, p));
  }
}

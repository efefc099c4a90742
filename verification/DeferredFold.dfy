/** The deferred fold with its page map. */
module DeferredFold {
  import opened Pages
  import opened DeltaStore
  import FP = FoldProtocol

  // An Engine adds to the two threads of FoldProtocol what the main thread keeps to itself: which pages each
  // slot has captured, where every page's baseline copy lives, and how many supplemental pages are left.
  // Destinations are resolved when a job is built, so a page can be dropped for lack of room.

  /** caps holds what each valid slot captured, loc the address of each page's baseline copy, room the
      supplemental pages left and top the next address. log lists the deltas evicted so far. */
  datatype Engine = Engine(
    st: FP.State, caps: seq<Option<Delta>>, loc: map<nat, nat>, room: nat, top: nat, log: seq<Delta>)

  // ---------- resolving destinations ----------

  datatype Places = Places(dsts: seq<Option<nat>>, loc: map<nat, nat>, room: nat, top: nat)

  /** The present place of page p, or a fresh one, or none when the area is full. */
  function ResolveOne(pl: Places, p: nat): Places {
    if p in pl.loc then pl.(dsts := pl.dsts + [Some(pl.loc[p])])
    else if pl.room > 0 then
      Places(pl.dsts + [Some(pl.top)], pl.loc[p := pl.top], pl.room - 1, pl.top + 1)
    else pl.(dsts := pl.dsts + [None])
  }

  function Resolve(loc: map<nat, nat>, room: nat, top: nat, order: seq<nat>, i: nat): (pl: Places)
    requires i <= |order|
    ensures |pl.dsts| == i
  {
    if i == 0 then Places([], loc, room, top) else ResolveOne(Resolve(loc, room, top, order, i - 1), order[i - 1])
  }

  /** Every page has a place of its own below top. */
  ghost predicate LocOk(loc: map<nat, nat>, top: nat) {
    && (forall p :: p in loc ==> loc[p] < top)
    && (forall p, q :: p in loc && q in loc && p != q ==> loc[p] != loc[q])
  }

  /** Resolving gives new pages a place and leaves the others theirs. */
  lemma {:induction false} ResolveKeeps(loc: map<nat, nat>, room: nat, top: nat, order: seq<nat>, i: nat)
    requires LocOk(loc, top) && i <= |order|
    ensures var pl := Resolve(loc, room, top, order, i);
      && LocOk(pl.loc, pl.top)
      && (forall p :: p in loc ==> p in pl.loc && pl.loc[p] == loc[p])
  {
    if i == 0 {
    } else {
      ResolveKeeps(loc, room, top, order, i - 1);
      PlaceKeeps(Resolve(loc, room, top, order, i - 1), order[i - 1]);
    }
  }

  lemma PlaceKeeps(pl: Places, p: nat)
    requires LocOk(pl.loc, pl.top)
    ensures var pl' := ResolveOne(pl, p);
      LocOk(pl'.loc, pl'.top) && forall q :: q in pl.loc ==> q in pl'.loc && pl'.loc[q] == pl.loc[q]
  {
  }

  lemma {:induction false} ResolveOnly(loc: map<nat, nat>, room: nat, top: nat, order: seq<nat>, i: nat, p: nat)
    requires i <= |order| && p in Resolve(loc, room, top, order, i).loc && p !in loc
    ensures p in order[..i]
  {
    if i == 0 {
    } else {
      assert order[..i] == order[..i - 1] + [order[i - 1]];
      if p != order[i - 1] {
        ResolveOnly(loc, room, top, order, i - 1, p);
      }
    }
  }

  /** The destination of a page is its place, or none when it has none. */
  lemma {:induction false} ResolveAt(loc: map<nat, nat>, room: nat, top: nat, order: seq<nat>, i: nat, k: nat)
    requires k < i <= |order| && forall a, b :: 0 <= a < b < |order| ==> order[a] != order[b]
    ensures var pl := Resolve(loc, room, top, order, i);
      pl.dsts[k] == if order[k] in pl.loc then Some(pl.loc[order[k]]) else None
  {
    if k == i - 1 {
    } else {
      ResolveAt(loc, room, top, order, i - 1, k);
      assert order[k] != order[i - 1];
    }
  }

  lemma ResolveIs(loc: map<nat, nat>, room: nat, top: nat, order: seq<nat>)
    requires LocOk(loc, top) && forall a, b :: 0 <= a < b < |order| ==> order[a] != order[b]
    ensures var pl := Resolve(loc, room, top, order, |order|);
      && LocOk(pl.loc, pl.top)
      && (forall p :: p in loc ==> p in pl.loc && pl.loc[p] == loc[p])
      && (forall p :: p in pl.loc && p !in loc ==> p in order)
      && (forall k :: 0 <= k < |order| ==>
            pl.dsts[k] == if order[k] in pl.loc then Some(pl.loc[order[k]]) else None)
  {
    var pl := Resolve(loc, room, top, order, |order|);
    ResolveKeeps(loc, room, top, order, |order|);
    forall p | p in pl.loc && p !in loc ensures p in order {
      ResolveOnly(loc, room, top, order, |order|, p);
    }
    forall k | 0 <= k < |order| ensures pl.dsts[k] == if order[k] in pl.loc then Some(pl.loc[order[k]]) else None {
      ResolveAt(loc, room, top, order, |order|, k);
    }
  }

  // ---------- one job is one fold ----------

  /** The captured pages, packed in list order. */
  function Contents(d: Delta): (data: seq<Page>)
    requires forall p :: p in d.order ==> p in d.pages
    ensures |data| == |d.order| && forall i :: 0 <= i < |data| ==> data[i] == d.pages[d.order[i]]
  {
    seq(|d.order|, i requires 0 <= i < |d.order| => d.pages[d.order[i]])
  }

  /** The baseline by page, for a page map loc. */
  function View(loc: map<nat, nat>, store: map<nat, Page>): map<nat, Page> {
    map p | p in loc && loc[p] in store :: store[loc[p]]
  }

  ghost predicate Stored(loc: map<nat, nat>, store: map<nat, Page>) {
    forall p :: p in loc ==> loc[p] in store
  }

  /** With distinct destinations, each gets its own page. */
  lemma {:induction false} ApplyHits(store: map<nat, Page>, dsts: seq<Option<nat>>, data: seq<Page>, i: nat, k: nat)
    requires |dsts| <= |data| && i <= k < |dsts| && dsts[k].Some?
    requires forall a, b :: 0 <= a < b < |dsts| && dsts[a].Some? && dsts[b].Some? ==> dsts[a] != dsts[b]
    ensures var r := FP.Apply(store, dsts, data, i); dsts[k].value in r && r[dsts[k].value] == data[k]
    decreases |dsts| - i
  {
    var next: map<nat, Page> := if dsts[i].Some? then store[dsts[i].value := data[i]] else store;
    if i < k {
      ApplyHits(next, dsts, data, i + 1, k);
    } else {
      assert dsts[k].value !in FP.Targets(dsts, k + 1);
      FP.ApplyOver(next, next, dsts, data, k + 1, dsts[k].value);
    }
  }

  /** The pages that have a place are the pages the fold has in the baseline. */
  lemma {:induction false} ResolveIsFold(
      loc: map<nat, nat>, room: nat, top: nat, base: map<nat, Page>, d: Delta, i: nat)
    requires d.Wf() && i <= |d.order| && base.Keys == loc.Keys
    ensures var pl := Resolve(loc, room, top, d.order, i);
      FoldFirst(base, room, d, i).0.Keys == pl.loc.Keys && FoldFirst(base, room, d, i).1 == pl.room
  {
    if i == 0 {
    } else {
      ResolveIsFold(loc, room, top, base, d, i - 1);
      assert d.order[i - 1] in d.order;
    }
  }

  /** Page p has a place after the job exactly when the fold has it in the baseline, with the same content. */
  lemma PageAfterJob(loc: map<nat, nat>, room: nat, top: nat, d: Delta, store: map<nat, Page>, data: seq<Page>, p: nat)
    requires d.Wf() && LocOk(loc, top) && Stored(loc, store)
    requires |d.order| <= |data| && forall i :: 0 <= i < |d.order| ==> data[i] == d.pages[d.order[i]]
    ensures var pl := Resolve(loc, room, top, d.order, |d.order|); var store' := FP.Apply(store, pl.dsts, data, 0);
      var b := Fold(View(loc, store), room, Some(d)).0;
      && (p in pl.loc <==> p in b)
      && (p in b ==> pl.loc[p] in store' && store'[pl.loc[p]] == b[p])
  {
    var n := |d.order|;
    var pl, base := Resolve(loc, room, top, d.order, n), View(loc, store);
    assert base.Keys == loc.Keys;
    ResolveIsFold(loc, room, top, base, d, n);
    FoldFirstIs(base, room, d, n, p);
    assert d.order[..n] == d.order;
    if p in pl.loc {
      CopyAfterJob(loc, room, top, d, store, data, p);
    }
  }

  lemma CopyAfterJob(loc: map<nat, nat>, room: nat, top: nat, d: Delta, store: map<nat, Page>, data: seq<Page>, p: nat)
    requires d.Wf() && LocOk(loc, top) && Stored(loc, store)
    requires |d.order| <= |data| && forall i :: 0 <= i < |d.order| ==> data[i] == d.pages[d.order[i]]
    requires p in Resolve(loc, room, top, d.order, |d.order|).loc
    ensures var pl := Resolve(loc, room, top, d.order, |d.order|); var store' := FP.Apply(store, pl.dsts, data, 0);
      && (p !in d.order ==> p in loc)
      && pl.loc[p] in store' && store'[pl.loc[p]] == if p in d.order then d.pages[p] else store[loc[p]]
  {
    var pl := Resolve(loc, room, top, d.order, |d.order|);
    ResolveIs(loc, room, top, d.order);
    if p in d.order {
      var k :| 0 <= k < |d.order| && d.order[k] == p;
      ApplyHits(store, pl.dsts, data, 0, k);
    } else {
      assert pl.loc[p] !in FP.Targets(pl.dsts, 0);
      FP.ApplyOver(store, store, pl.dsts, data, 0, pl.loc[p]);
    }
  }

  /** A job's copies put the evicted slot's pages over the baseline exactly as the synchronous fold does,
      with the same pages dropped and the same room left. */
  lemma ApplyIsFold(loc: map<nat, nat>, room: nat, top: nat, d: Delta, store: map<nat, Page>, data: seq<Page>)
    requires d.Wf() && LocOk(loc, top) && Stored(loc, store)
    requires |d.order| <= |data| && forall i :: 0 <= i < |d.order| ==> data[i] == d.pages[d.order[i]]
    ensures var pl := Resolve(loc, room, top, d.order, |d.order|); var store' := FP.Apply(store, pl.dsts, data, 0);
      && LocOk(pl.loc, pl.top) && Stored(pl.loc, store')
      && (View(pl.loc, store'), pl.room) == Fold(View(loc, store), room, Some(d))
  {
    var pl := Resolve(loc, room, top, d.order, |d.order|);
    var store' := FP.Apply(store, pl.dsts, data, 0);
    var (b, left) := Fold(View(loc, store), room, Some(d));
    ResolveKeeps(loc, room, top, d.order, |d.order|);
    assert View(loc, store).Keys == loc.Keys;
    ResolveIsFold(loc, room, top, View(loc, store), d, |d.order|);
    forall p ensures p in pl.loc <==> p in b
    ensures p in b ==> pl.loc[p] in store' && store'[pl.loc[p]] == b[p] {
      PageAfterJob(loc, room, top, d, store, data, p);
    }
    ViewIs(pl.loc, store', b);
  }

  lemma ViewIs(loc: map<nat, nat>, store: map<nat, Page>, b: map<nat, Page>)
    requires forall p :: p in loc <==> p in b
    requires forall p :: p in b ==> loc[p] in store && store[loc[p]] == b[p]
    ensures View(loc, store) == b && Stored(loc, store)
  {
  }

  // ---------- the synchronous fold of a log ----------

  function FoldAll(base: map<nat, Page>, room: nat, log: seq<Delta>): (map<nat, Page>, nat) {
    if log == [] then (base, room)
    else
      var (b, r) := FoldAll(base, room, log[..|log| - 1]);
      Fold(b, r, Some(log[|log| - 1]))
  }

  lemma FoldOneMore(base: map<nat, Page>, room: nat, log: seq<Delta>, d: Delta)
    ensures var (b, r) := FoldAll(base, room, log); FoldAll(base, room, log + [d]) == Fold(b, r, Some(d))
  {
    assert (log + [d])[..|log|] == log;
  }

  // ---------- the engine's steps ----------

  datatype Act =
    | Evict(s: nat)
    | Skip(s: nat)
    | Assign                     // resolve destinations and build the job
    | Inline                     // resolve destinations and copy the pages on the main thread
    | Capture(d: Delta)          // refill the slot with the pages of a save
    | CaptureFails(need: nat)
    | Other(a: FP.Step)          // a step of either thread that touches no capture and no place

  predicate IsOther(a: FP.Step) {
    FP.ByWorker(a) || a.DrainReturns? || a.Detach? || a.Publish?
  }

  function Job(e: Engine): Places
    requires e.st.main.Building? && e.st.main.slot < |e.caps| && e.caps[e.st.main.slot].Some?
  {
    var order := e.caps[e.st.main.slot].value.order;
    Resolve(e.loc, e.room, e.top, order, |order|)
  }

  ghost predicate Enabled(e: Engine, act: Act)
    requires |e.st.submit| == FP.FOLD_RING
  {
    match act
    case Evict(s) => s < |e.caps| && e.caps[s].Some? && FP.Enabled(e.st, FP.Evict(s))
    case Skip(s) => s < |e.caps| && e.caps[s].None? && FP.Enabled(e.st, FP.Skip(s))
    case Assign => e.st.main.Building?
    case Inline => e.st.main.Building? && e.st.main.slot < |e.caps| && e.caps[e.st.main.slot].Some? &&
      FP.Enabled(e.st, FP.FoldInline(Job(e).dsts))
    case Capture(d) => d.Wf() && e.st.main.Refilling?
    case CaptureFails(need) => FP.Enabled(e.st, FP.RefillFails(need))
    case Other(a) => IsOther(a) && FP.Enabled(e.st, a)
  }

  // ---------- the invariant ----------

  /** A valid slot's buffer holds what the slot captured. */
  ghost predicate CapOk(e: Engine, s: nat)
    requires s < |e.caps|
  {
    e.caps[s].Some? ==>
      var d := e.caps[s].value;
      && d.Wf() && FP.Fits(e.st, s, |d.order|) && e.st.main != FP.Detaching(s)
      && forall i :: 0 <= i < |d.order| ==> e.st.pages[e.st.slots[s].value][i] == d.pages[d.order[i]]
  }

  predicate MainCap(e: Engine)
    requires |e.caps| == RING_SLOTS
  {
    match e.st.main
    case Idle => true
    case Draining(s) => s < RING_SLOTS && e.caps[s].Some?
    case Building(s) => s < RING_SLOTS && e.caps[s].Some?
    case Detaching(s) => s < RING_SLOTS && e.caps[s].None?
    case Publishing(s) => s < RING_SLOTS && e.caps[s].None?
    case Refilling(s) => s < RING_SLOTS && e.caps[s].None?
  }

  /** The pending work will make of the baseline what the synchronous fold of the log makes of base. */
  ghost predicate Settles(e: Engine, base: map<nat, Page>, room: nat) {
    && LocOk(e.loc, e.top) && Stored(e.loc, e.st.sync)
    && (View(e.loc, e.st.sync), e.room) == FoldAll(base, room, e.log)
  }

  ghost predicate Inv(e: Engine, base: map<nat, Page>, room: nat) {
    && FP.Inv(e.st) && |e.caps| == RING_SLOTS && MainCap(e)
    && (forall s :: 0 <= s < RING_SLOTS ==> CapOk(e, s))
    && Settles(e, base, room)
  }

  /** What the step is for the two threads. */
  ghost function Low(e: Engine, act: Act): FP.Step
    requires |e.st.submit| == FP.FOLD_RING && |e.caps| == RING_SLOTS && MainCap(e) && Enabled(e, act)
  {
    match act
    case Evict(s) => FP.Evict(s)
    case Skip(s) => FP.Skip(s)
    case Assign => FP.Build(Job(e).dsts)
    case Inline => FP.FoldInline(Job(e).dsts)
    case Capture(d) => FP.Refill(Contents(d))
    case CaptureFails(need) => FP.RefillFails(need)
    case Other(a) => a
  }

  lemma LowEnabled(e: Engine, act: Act, base: map<nat, Page>, room: nat)
    requires Inv(e, base, room) && Enabled(e, act)
    ensures FP.Enabled(e.st, Low(e, act))
  {
    if act.Assign? {
      assert CapOk(e, e.st.main.slot);
    }
  }

  /** The slot is evicted, its pages in the places found for them. */
  function Folded(e: Engine, s: nat, pl: Places): Engine
    requires s < |e.caps| && e.caps[s].Some?
  {
    e.(caps := e.caps[s := None], loc := pl.loc, room := pl.room, top := pl.top, log := e.log + [e.caps[s].value])
  }

  ghost function Next(e: Engine, act: Act): Engine
    requires FP.Shape(e.st) && |e.caps| == RING_SLOTS && MainCap(e) && Enabled(e, act)
    requires FP.Enabled(e.st, Low(e, act))
  {
    var e' := e.(st := FP.Next(e.st, Low(e, act)));
    match act
    case Assign => Folded(e', e.st.main.slot, Job(e))
    case Inline => Folded(e', e.st.main.slot, Job(e))
    case Capture(d) => e'.(caps := e.caps[e.st.main.slot := Some(d)])
    case _ => e'
  }

  // ---------- each step keeps the invariant ----------

  lemma NextMainCap(e: Engine, act: Act, base: map<nat, Page>, room: nat)
    requires Inv(e, base, room) && Enabled(e, act) && FP.Enabled(e.st, Low(e, act))
    ensures |Next(e, act).caps| == RING_SLOTS && MainCap(Next(e, act))
  {
  }

  /** No step overwrites a page that a valid slot still has to fold. */
  lemma NextCaps(e: Engine, act: Act, base: map<nat, Page>, room: nat, s: nat)
    requires Inv(e, base, room) && Enabled(e, act) && FP.Enabled(e.st, Low(e, act)) && s < RING_SLOTS
    ensures CapOk(Next(e, act), s)
  {
    assert CapOk(e, s);
    if act.Capture? {
      CaptureCaps(e, act.d, base, room, s);
    } else if act.Other? {
      OtherKeepsSlots(e.st, act.a, s);
    }
  }

  lemma CaptureCaps(e: Engine, d: Delta, base: map<nat, Page>, room: nat, s: nat)
    requires Inv(e, base, room) && Enabled(e, Capture(d)) && FP.Enabled(e.st, Low(e, Capture(d))) && s < RING_SLOTS
    ensures CapOk(Next(e, Capture(d)), s)
  {
    assert CapOk(e, s);
    if s != e.st.main.slot && e.caps[s].Some? {
      var mine, other := FP.Held(e.st, FP.InSlot(s)), FP.Held(e.st, FP.InSlot(e.st.main.slot));
      assert mine == e.st.slots[s] && other == e.st.slots[e.st.main.slot];
      assert other.Some? ==> mine.value != other.value;
    }
  }

  lemma OtherKeepsSlots(st: FP.State, a: FP.Step, s: nat)
    requires FP.Shape(st) && FP.Enabled(st, a) && IsOther(a) && s < RING_SLOTS
    ensures var st' := FP.Next(st, a);
      && st'.pages == st.pages && (st.main != FP.Detaching(s) ==> st'.slots[s] == st.slots[s])
      && (st'.main == FP.Detaching(s) ==> st.main == FP.Detaching(s))
  {
  }

  lemma NextSettles(e: Engine, act: Act, base: map<nat, Page>, room: nat)
    requires Inv(e, base, room) && Enabled(e, act) && FP.Enabled(e.st, Low(e, act))
    ensures Settles(Next(e, act), base, room)
  {
    if act.Assign? || act.Inline? {
      var s := e.st.main.slot;
      var d := e.caps[s].value;
      assert CapOk(e, s);
      ApplyIsFold(e.loc, e.room, e.top, d, e.st.sync, e.st.pages[e.st.slots[s].value]);
      FoldOneMore(base, room, e.log, d);
    } else {
      assert Next(e, act).st.sync == e.st.sync;
    }
  }

  lemma StepKeepsInv(e: Engine, act: Act, base: map<nat, Page>, room: nat)
    requires Inv(e, base, room) && Enabled(e, act)
    ensures FP.Enabled(e.st, Low(e, act)) && Inv(Next(e, act), base, room)
  {
    LowEnabled(e, act, base, room);
    FP.StepKeepsInv(e.st, Low(e, act));
    NextMainCap(e, act, base, room);
    forall s: nat | s < RING_SLOTS ensures CapOk(Next(e, act), s) {
      NextCaps(e, act, base, room, s);
    }
    NextSettles(e, act, base, room);
  }

  // ---------- every interleaving ----------

  ghost predicate LegalRun(e: Engine, acts: seq<Act>, base: map<nat, Page>, room: nat)
    requires Inv(e, base, room)
    decreases |acts|
  {
    acts == [] || (
      && Enabled(e, acts[0])
      && (StepKeepsInv(e, acts[0], base, room); LegalRun(Next(e, acts[0]), acts[1..], base, room)))
  }

  ghost function Run(e: Engine, acts: seq<Act>, base: map<nat, Page>, room: nat): (r: Engine)
    requires Inv(e, base, room) && LegalRun(e, acts, base, room)
    ensures Inv(r, base, room)
    decreases |acts|
  {
    if acts == [] then e
    else
      StepKeepsInv(e, acts[0], base, room);
      Run(Next(e, acts[0]), acts[1..], base, room)
  }

  /** No job in the rings, no valid slot, and the captured baseline in place. */
  ghost predicate Fresh(e: Engine) {
    && FP.Fresh(e.st) && e.caps == seq(RING_SLOTS, _ => None) && e.log == []
    && LocOk(e.loc, e.top) && Stored(e.loc, e.st.store)
  }

  lemma FreshInv(e: Engine)
    requires Fresh(e)
    ensures Inv(e, View(e.loc, e.st.store), e.room)
  {
    FP.FreshInv(e.st);
  }

  /** Deferred fold refines synchronous fold: after every interleaving of saves and worker steps, whenever
      the completed count has caught up with the submitted one - the condition fold_drain waits for -
      the baseline, page by page, and the room left are those of folding the evicted deltas one after
      the other on the main thread. */
  lemma DrainedIsSynchronous(e: Engine, acts: seq<Act>)
    requires Fresh(e) && Inv(e, View(e.loc, e.st.store), e.room)
    requires LegalRun(e, acts, View(e.loc, e.st.store), e.room)
    ensures var r := Run(e, acts, View(e.loc, e.st.store), e.room);
      r.st.completed >= r.st.submitted ==>
        (View(r.loc, r.st.store), r.room) == FoldAll(View(e.loc, e.st.store), e.room, r.log)
  {
    var r := Run(e, acts, View(e.loc, e.st.store), e.room);
    if r.st.completed >= r.st.submitted {
      assert r.st.tail == FP.Built(r.st);
    }
  }

  // ---------- the inline fold ----------

  /** Folding delta d on the main thread while jobs are in flight, as a save does when no destination list
      can be allocated or deferring was just switched off. */
  ghost function InlineFold(e: Engine, d: Delta): Engine
    requires d.Wf()
  {
    var pl := Resolve(e.loc, e.room, e.top, d.order, |d.order|);
    Engine(FP.InlineFold(e.st, pl.dsts, Contents(d)), e.caps, pl.loc, pl.room, pl.top, e.log + [d])
  }

  /** The worker's work and the inline fold together come to the synchronous fold. */
  ghost predicate Agrees(e: Engine, base: map<nat, Page>, room: nat) {
    FP.Inv(e.st) && Settles(e, base, room)
  }

  /** What pages data, packed in list order, are as a delta. */
  ghost function Packed(d: Delta, data: seq<Page>): (d': Delta)
    requires d.Wf() && |data| == |d.order|
    ensures d'.Wf() && d'.order == d.order && Contents(d') == data
  {
    var pages := map p | p in d.order :: data[IndexOf(d.order, p)];
    var d' := Delta(d.frame, pages, d.order);
    assert forall i :: 0 <= i < |d.order| ==> IndexOf(d.order, d.order[i]) == i;
    d'
  }

  ghost function IndexOf(order: seq<nat>, p: nat): (i: nat)
    requires p in order
    ensures i < |order| && order[i] == p
  {
    var i :| 0 <= i < |order| && order[i] == p;
    i
  }

  lemma InlineSettles(e: Engine, d: Delta, base: map<nat, Page>, room: nat)
    requires Inv(e, base, room) && d.Wf()
    ensures Settles(InlineFold(e, d), base, room)
  {
    ApplyIsFold(e.loc, e.room, e.top, d, e.st.sync, Contents(d));
    FoldOneMore(base, room, e.log, d);
  }

  /** The inline fold comes to the synchronous one, whatever the evicted pages contain, if and only if no
      job in flight still has one of its destinations to write. Otherwise the worker later puts an
      older page over the newer one. The full-ring test does not exclude this; an idle worker does. */
  lemma InlineFoldSafeIff(e: Engine, d: Delta, base: map<nat, Page>, room: nat)
    requires Inv(e, base, room) && d.Wf()
    ensures var dsts := Resolve(e.loc, e.room, e.top, d.order, |d.order|).dsts;
      (forall data: seq<Page> | |data| == |d.order| :: Agrees(InlineFold(e, Packed(d, data)), base, room))
      <==> FP.Targets(dsts, 0) !! FP.PendingTargets(e.st)
  {
    var dsts := Resolve(e.loc, e.room, e.top, d.order, |d.order|).dsts;
    FP.InlineFoldSafeIff(e.st, dsts);
    forall data: seq<Page> | |data| == |d.order|
      ensures Agrees(InlineFold(e, Packed(d, data)), base, room) <==> FP.Inv(FP.InlineFold(e.st, dsts, data))
    {
      InlineSettles(e, Packed(d, data), base, room);
    }
    if FP.Targets(dsts, 0) !! FP.PendingTargets(e.st) {
    } else {
      var data: seq<Page> :| |data| == |dsts| && !FP.Inv(FP.InlineFold(e.st, dsts, data));
      assert !Agrees(InlineFold(e, Packed(d, data)), base, room);
    }
  }

  // ---------- a run that gets there ----------

  lemma OneMore(e: Engine, act: Act, rest: seq<Act>, base: map<nat, Page>, room: nat)
    requires Inv(e, base, room) && Enabled(e, act)
    requires FP.Enabled(e.st, Low(e, act)) && Inv(Next(e, act), base, room)
    requires LegalRun(Next(e, act), rest, base, room)
    ensures LegalRun(e, [act] + rest, base, room)
    ensures Run(e, [act] + rest, base, room) == Run(Next(e, act), rest, base, room)
  {
    assert ([act] + rest)[1..] == rest;
  }

  lemma HeadOff(a: seq<Act>, b: seq<Act>)
    requires a != []
    ensures a + b == [a[0]] + (a[1..] + b)
  {
  }

  lemma {:induction false} RunJoins(e: Engine, acts: seq<Act>, more: seq<Act>, base: map<nat, Page>, room: nat)
    requires Inv(e, base, room) && LegalRun(e, acts, base, room) && LegalRun(Run(e, acts, base, room), more, base, room)
    ensures LegalRun(e, acts + more, base, room)
    ensures Run(e, acts + more, base, room) == Run(Run(e, acts, base, room), more, base, room)
    decreases |acts|
  {
    if acts == [] {
      assert [] + more == more;
    } else {
      StepKeepsInv(e, acts[0], base, room);
      RunJoins(Next(e, acts[0]), acts[1..], more, base, room);
      OneMore(e, acts[0], acts[1..] + more, base, room);
      HeadOff(acts, more);
    }
  }

  lemma OneStep(e: Engine, act: Act, base: map<nat, Page>, room: nat) returns (e': Engine)
    requires Inv(e, base, room) && Enabled(e, act)
    ensures FP.Enabled(e.st, Low(e, act)) && e' == Next(e, act) && Inv(e', base, room)
    ensures LegalRun(e, [act], base, room) && Run(e, [act], base, room) == e'
  {
    StepKeepsInv(e, act, base, room);
    e' := Next(e, act);
    OneMore(e, act, [], base, room);
    assert [act] + [] == [act];
  }

  /** The worker has not moved, and no job has been built. */
  predicate SamePlaces(e: Engine, e': Engine) {
    && e'.st.tail == e.st.tail && e'.st.worker == e.st.worker && e'.st.dstStore == e.st.dstStore
    && e'.loc == e.loc && e'.room == e.room && e'.top == e.top && e'.log == e.log
  }

  /** A save into an invalid slot. */
  lemma Fill(e: Engine, s: nat, d: Delta, base: map<nat, Page>, room: nat) returns (acts: seq<Act>)
    requires Inv(e, base, room) && e.st.main.Idle? && s < RING_SLOTS && e.caps[s].None? && d.Wf()
    ensures LegalRun(e, acts, base, room)
    ensures var e' := Run(e, acts, base, room);
      e'.st.main.Idle? && e'.caps == e.caps[s := Some(d)] && SamePlaces(e, e') && e'.st.head == e.st.head
  {
    var e1 := OneStep(e, Skip(s), base, room);
    var e2 := OneStep(e1, Capture(d), base, room);
    OneMore(e, Skip(s), [Capture(d)], base, room);
    acts := [Skip(s)] + [Capture(d)];
  }

  /** The eviction of a valid slot: its job is built. */
  lemma Stage(e: Engine, s: nat, base: map<nat, Page>, room: nat) returns (acts: seq<Act>)
    requires Inv(e, base, room) && e.st.main.Idle? && s < RING_SLOTS && e.caps[s].Some?
    requires e.st.head - e.st.tail < FP.FOLD_RING
    ensures LegalRun(e, acts, base, room)
    ensures var e' := Run(e, acts, base, room); var d := e.caps[s].value;
      var pl := Resolve(e.loc, e.room, e.top, d.order, |d.order|);
      && e'.st.main == FP.Detaching(s) && e'.caps == e.caps[s := None]
      && e'.loc == pl.loc && e'.room == pl.room && e'.top == pl.top && e'.log == e.log + [d]
      && e'.st.tail == e.st.tail && e'.st.worker == e.st.worker && e'.st.head == e.st.head
      && e'.st.dstStore == e.st.dstStore[e.st.head % FP.FOLD_RING := pl.dsts]
  {
    assert CapOk(e, s);
    var e1 := OneStep(e, Evict(s), base, room);
    var e2 := OneStep(e1, Assign, base, room);
    OneMore(e, Evict(s), [Assign], base, room);
    acts := [Evict(s)] + [Assign];
  }

  /** Its buffer is detached and the job published. */
  lemma Ship(e: Engine, s: nat, base: map<nat, Page>, room: nat) returns (acts: seq<Act>)
    requires Inv(e, base, room) && e.st.main == FP.Detaching(s)
    ensures LegalRun(e, acts, base, room)
    ensures var e' := Run(e, acts, base, room);
      && e'.st.main == FP.Refilling(s) && SamePlaces(e, e') && e'.caps == e.caps
      && e'.st.head == e.st.head + 1
  {
    var e1 := OneStep(e, Other(FP.Detach), base, room);
    var e2 := OneStep(e1, Other(FP.Publish), base, room);
    OneMore(e, Other(FP.Detach), [Other(FP.Publish)], base, room);
    acts := [Other(FP.Detach)] + [Other(FP.Publish)];
  }

  /** And the slot refilled. */
  lemma Refill(e: Engine, s: nat, d: Delta, base: map<nat, Page>, room: nat) returns (acts: seq<Act>)
    requires Inv(e, base, room) && e.st.main == FP.Refilling(s) && d.Wf()
    ensures LegalRun(e, acts, base, room)
    ensures var e' := Run(e, acts, base, room);
      e'.st.main.Idle? && SamePlaces(e, e') && e'.caps == e.caps[s := Some(d)] && e'.st.head == e.st.head
  {
    var e1 := OneStep(e, Capture(d), base, room);
    acts := [Capture(d)];
  }

  /** Page p captured with content c. */
  function One(f: int, p: nat, c: Page): (d: Delta)
    ensures d.Wf() && d.order == [p]
  {
    Delta(f, map[p := c], [p])
  }

  /** Page p is saved in two slots. */
  lemma TwoSaves(e: Engine, d: Delta, d': Delta, base: map<nat, Page>, room: nat) returns (acts: seq<Act>)
    requires Inv(e, base, room) && Fresh(e) && d.Wf() && d'.Wf()
    ensures LegalRun(e, acts, base, room)
    ensures var r := Run(e, acts, base, room);
      r.st.main.Idle? && r.caps[0] == Some(d) && r.caps[1] == Some(d') && SamePlaces(e, r) && r.st.head == e.st.head
  {
    var first := Fill(e, 0, d, base, room);
    var second := Fill(Run(e, first, base, room), 1, d', base, room);
    RunJoins(e, first, second, base, room);
    acts := first + second;
  }

  /** The first slot is evicted and used again; its job is published and not yet taken. */
  lemma Dispatch(e: Engine, d: Delta, base: map<nat, Page>, room: nat) returns (acts: seq<Act>)
    requires Inv(e, base, room) && e.st.main.Idle? && e.caps[0].Some? && e.st.head == e.st.tail == 0 && d.Wf()
    ensures LegalRun(e, acts, base, room)
    ensures var r := Run(e, acts, base, room); var c := e.caps[0].value;
      var pl := Resolve(e.loc, e.room, e.top, c.order, |c.order|);
      && r.st.main.Idle? && r.st.worker == e.st.worker && r.caps[1] == e.caps[1] && r.st.tail == 0 && r.st.head == 1
      && r.loc == pl.loc && r.room == pl.room && r.log == e.log + [c] && r.st.dstStore[0] == pl.dsts
  {
    var first := Stage(e, 0, base, room);
    var e1 := Run(e, first, base, room);
    var second := Ship(e1, 0, base, room);
    var e2 := Run(e1, second, base, room);
    var third := Refill(e2, 0, d, base, room);
    RunJoins(e1, second, third, base, room);
    RunJoins(e, first, second + third, base, room);
    acts := first + (second + third);
  }

  /** A page with a place keeps it. */
  lemma OnePlace(loc: map<nat, nat>, room: nat, top: nat, p: nat)
    requires p in loc
    ensures Resolve(loc, room, top, [p], 1) == Places([Some(loc[p])], loc, room, top)
  {
    assert Resolve(loc, room, top, [p], 0) == Places([], loc, room, top);
  }

  /** The job in flight still has to write page p's place. */
  lemma StillPending(st: FP.State, x: nat)
    requires FP.Shape(st) && st.worker.Parked? && st.main.Idle? && st.tail == 0 && st.head == 1
    requires st.dstStore[0] == [Some(x)]
    ensures x in FP.PendingTargets(st)
  {
    assert st.dstStore[0][0] == Some(x);
    assert x in FP.Targets(st.dstStore[0], 0);
  }

  /** A concrete run that goes wrong: page p is saved in two slots, the first is evicted in the background,
      and the second is folded inline before the worker has taken the job. Once the worker is done the
      baseline has the older content. */
  lemma InlineFoldGoesWrong(e: Engine, p: nat, c: Page, c': Page) returns (acts: seq<Act>)
    requires Fresh(e) && Inv(e, View(e.loc, e.st.store), e.room) && p in e.loc && c != c'
    ensures LegalRun(e, acts, View(e.loc, e.st.store), e.room)
    ensures var base := View(e.loc, e.st.store); var r := Run(e, acts, base, e.room); var d := One(2, p, c');
      && r.st.main.Idle? && r.caps[1] == Some(d) && !Agrees(InlineFold(r, d), base, e.room)
      && FP.Shape(InlineFold(r, d).st) && p in View(r.loc, FP.Drained(InlineFold(r, d).st))
      && View(r.loc, FP.Drained(InlineFold(r, d).st))[p] == c
      && p in FoldAll(base, e.room, r.log + [d]).0 && FoldAll(base, e.room, r.log + [d]).0[p] == c'
  {
    var base := View(e.loc, e.st.store);
    var saves := TwoSaves(e, One(1, p, c), One(2, p, c'), base, e.room);
    var e1 := Run(e, saves, base, e.room);
    var eviction := Dispatch(e1, One(3, p, c'), base, e.room);
    OnePlace(e.loc, e.room, e.top, p);
    RunJoins(e, saves, eviction, base, e.room);
    acts := saves + eviction;
    OlderWins(Run(e, acts, base, e.room), base, e.room, p, c, c');
  }

  lemma OlderWins(r: Engine, base: map<nat, Page>, room: nat, p: nat, c: Page, c': Page)
    requires Inv(r, base, room) && r.st.main.Idle? && r.st.worker.Parked? && r.log == [One(1, p, c)]
    requires p in r.loc && r.st.tail == 0 && r.st.head == 1 && r.st.dstStore[0] == [Some(r.loc[p])] && c != c'
    requires p in base
    ensures var d := One(2, p, c'); var f := InlineFold(r, d);
      && FP.Shape(f.st) && p in View(r.loc, FP.Drained(f.st)) && View(r.loc, FP.Drained(f.st))[p] == c
      && p in FoldAll(base, room, r.log + [d]).0 && FoldAll(base, room, r.log + [d]).0[p] == c'
      && !Agrees(f, base, room)
  {
    var d := One(2, p, c');
    var f, x := InlineFold(r, d), r.loc[p];
    OnePlace(r.loc, r.room, r.top, p);
    StillPending(r.st, x);
    InlineShape(r.st, [Some(x)], Contents(d));
    FP.DrainedOver(r.st, f.st, x);
    InlineSettles(r, d, base, room);
    FoldsTo(base, room, p, c, c');
    assert View(r.loc, r.st.sync)[p] == c;
    assert f.loc == r.loc && View(f.loc, f.st.sync)[p] == c';
    assert FP.Drained(f.st)[x] == c && f.st.sync[x] == c';
  }

  lemma InlineShape(st: FP.State, dsts: seq<Option<nat>>, data: seq<Page>)
    requires FP.Shape(st) && |dsts| <= |data|
    ensures FP.Shape(FP.InlineFold(st, dsts, data))
  {
    forall k | st.tail <= k < FP.Built(st) ensures FP.JobOk(FP.InlineFold(st, dsts, data), k) {
      assert FP.JobOk(st, k);
    }
  }

  lemma FoldsTo(base: map<nat, Page>, room: nat, p: nat, c: Page, c': Page)
    requires p in base
    ensures FoldAll(base, room, [One(1, p, c)]) == (base[p := c], room)
    ensures FoldAll(base, room, [One(1, p, c)] + [One(2, p, c')]) == (base[p := c'], room)
  {
    FoldOneMore(base, room, [], One(1, p, c));
    FoldOneMore(base, room, [One(1, p, c)], One(2, p, c'));
    assert [] + [One(1, p, c)] == [One(1, p, c)];
    OneFold(base, room, 1, p, c);
    OneFold(base[p := c], room, 2, p, c');
    assert base[p := c][p := c'] == base[p := c'];
  }

  lemma OneFold(base: map<nat, Page>, room: nat, f: int, p: nat, c: Page)
    requires p in base
    ensures Fold(base, room, Some(One(f, p, c))) == (base[p := c], room)
  {
    assert FoldFirst(base, room, One(f, p, c), 0) == (base, room);
  }
}

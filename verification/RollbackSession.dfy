/**
 The engine in use. A session holds an arena and the trace of what has been done to it since the
 baseline capture, and every operation takes the arena and the trace the same step. What holds of
 all runs therefore holds of every sequence of calls.
 */
module RollbackSession {
  import opened Pages
  import opened DeltaStore
  import opened Provenance
  import opened RestoreTheorems
  import opened EdgeDiff
  import opened SnapshotEngine
  import opened AudioPreserve

  class Session {
    const arena: Arena
    const eb: EdgeBreak
    ghost var t: Trace

    ghost predicate Valid()
      reads this, arena, arena.mem, arena.ring
    {
      arena.Valid() && arena.hasBaseline && Inv(t) && t.s == arena.Abs()
    }

    /** Begins with a baseline capture of an arena that has pages. */
    constructor (arena: Arena, eb: EdgeBreak)
      requires arena.Valid() && arena.committed != {}
      modifies arena, arena.ring
      ensures this.arena == arena && this.eb == eb && Valid()
      ensures t == Start(arena.mem[..], arena.committed, arena.rebuildCountdown, t.s.limit)
      ensures forall p: nat ::
        p < t.s.limit <==> p < 524288 && (arena.watermark == 0 || p * 4096 < arena.watermark)
    {
      this.arena, this.eb := arena, eb;
      new;
      var _ := arena.CaptureBaseline(true);
      t := Start(arena.mem[..], arena.committed, arena.rebuildCountdown, arena.ScanLimit());
      StartInv(arena.mem[..], arena.committed, arena.rebuildCountdown, arena.ScanLimit());
      arena.ScanLimitIs();
    }

    /** The arena has made step op. */
    ghost method Note(op: Op)
      requires Inv(t) && Legal(t, op)
      requires arena.Valid() && arena.hasBaseline && arena.Abs() == Step(t, op).s
      modifies this`t
      ensures Valid() && t == Step(old(t), op)
    {
      StepKeepsInv(t, op);
      t := Step(t, op);
    }

    method Write(p: nat, c: Page)
      requires Valid() && p in arena.committed
      modifies arena.mem, arena`watch, this`t
      ensures Valid() && t == Step(old(t), OpWrite(map[p := c]))
    {
      arena.WritePage(p, c);
      assert arena.Abs() == WriteAll(t.s, map[p := c]);
      Note(OpWrite(map[p := c]));
    }

    method Commit(p: nat)
      requires Valid() && p < MAX_PAGES
      modifies arena`committed, arena`committedCount
      ensures Valid() && t == old(t)
    {
      arena.CommitPage(p);
    }

    /** The carver moves its frontier: saves now scan the pages that begin below it. */
    method Grow(watermark: nat)
      requires Valid()
      modifies arena`watermark, this`t
      ensures Valid() && arena.watermark == watermark && t == Step(old(t), OpLimit(t.s.limit))
      ensures forall p: nat :: p < t.s.limit <==> p < 524288 && (watermark == 0 || p * 4096 < watermark)
    {
      arena.watermark := watermark;
      Note(OpLimit(arena.ScanLimit()));
      arena.ScanLimitIs();
    }

    /** A save above every frame in the ring, kept or failed; nothing at all when the write watch cannot
        be queried. */
    method Save(frame: int, watchOk: bool, allocOk: bool) returns (ok: bool, ghost order: seq<nat>)
      requires Valid()
      requires forall o :: o in arena.Abs().slots && o.Some? ==> o.value.frame < frame
      modifies arena`head, arena`watch, arena`baselineMap, arena`baselineBits, arena`supplemental, arena`baseline,
               arena`dirtyBits, arena`rebuildCountdown, arena.ring, this`t
      ensures Valid() && (!watchOk ==> !ok && t == old(t))
      ensures ok == (watchOk && (allocOk || |order| <= |old(arena.ring[arena.head]).pageData|))
      ensures watchOk ==> Legal(old(t), if ok then OpSave(frame, order) else OpFail)
      ensures watchOk ==> t == Step(old(t), if ok then OpSave(frame, order) else OpFail)
      ensures watchOk ==> forall p: nat :: p in order <==>
        p in old(arena.watch) && p < 524288 && (old(arena.watermark) == 0 || p * 4096 < old(arena.watermark))
    {
      ok, order := arena.Save(frame, watchOk, allocOk);
      if watchOk {
        Note(if ok then OpSave(frame, order) else OpFail);
      }
    }

    /** What a load in the arena's mode is in the trace. */
    ghost function LoadOp(frame: int, watchOk: bool): Op
      reads arena
    {
      OpLoad(frame, arena.LoadMode(watchOk), arena.Skipped())
    }

    /** The pages such a load undoes. */
    ghost function ToUndo(t: Trace, frame: int, watchOk: bool): set<nat>
      reads arena
    {
      Undone(t.s, frame, arena.LoadMode(watchOk))
    }

    /** A load, page by page: skipped pages stay, and every page that is Sound becomes what the history
        entry of the frame has. */
    method Load(frame: int, watchOk: bool)
      requires Valid()
      modifies arena.mem, arena`watch, arena`dirtyBits, eb`tally, eb`pages, this`t
      ensures Valid() && t == Step(old(t), LoadOp(frame, watchOk))
      ensures SamePages(arena.Skipped(), old(arena.mem[..]), arena.mem[..])
      ensures BackAt(old(t), old(ToUndo(t, frame, watchOk)), arena.Skipped(), frame, arena.mem[..])
      ensures arena.windowedRestore && watchOk ==> forall p: nat ::
        && p < MAX_PAGES && Restorable(old(t), frame, p)
        && !(arena.haveExclusions && p in arena.rederiveExcluded && !(arena.haveCfull && p in arena.coherentFull)) ==>
          Target(old(t), frame) < |old(t).hist| && arena.mem[p] == old(t).hist[Target(old(t), frame)].mem[p]
    {
      LoadNoted(frame, watchOk);
      PagesAreBack(old(t), frame, watchOk);
      if arena.windowedRestore && watchOk {
        RegainedIs(old(t), frame);
      }
    }

    lemma RegainedIs(t: Trace, frame: int)
      requires arena.Valid() && arena.windowedRestore && Inv(t) && Legal(t, LoadOp(frame, true))
      requires arena.mem[..] == Step(t, LoadOp(frame, true)).s.live
      ensures forall p: nat ::
        && p < MAX_PAGES && Restorable(t, frame, p)
        && !(arena.haveExclusions && p in arena.rederiveExcluded && !(arena.haveCfull && p in arena.coherentFull)) ==>
          Target(t, frame) < |t.hist| && arena.mem[p] == t.hist[Target(t, frame)].mem[p]
    {
      WindowRegains(t, frame, arena.CoherentFull(), arena.Skipped());
    }

    lemma PagesAreBack(t: Trace, frame: int, watchOk: bool)
      requires arena.Valid() && Inv(t) && Legal(t, LoadOp(frame, watchOk))
      requires arena.mem[..] == Step(t, LoadOp(frame, watchOk)).s.live
      ensures SamePages(arena.Skipped(), t.s.live, arena.mem[..])
      ensures BackAt(t, ToUndo(t, frame, watchOk), arena.Skipped(), frame, arena.mem[..])
    {
      LoadedIs(t, frame, arena.LoadMode(watchOk), arena.Skipped(), Step(t, LoadOp(frame, watchOk)).s);
    }

    method LoadNoted(frame: int, watchOk: bool)
      requires Valid()
      modifies arena.mem, arena`watch, arena`dirtyBits, eb`tally, eb`pages, this`t
      ensures Valid() && t == Step(old(t), LoadOp(frame, watchOk))
      ensures arena.LoadMode(watchOk) == old(arena.LoadMode(watchOk))
    {
      LoadStep(frame, watchOk);
      Note(LoadOp(frame, watchOk));
    }

    /** The round trip. A page in reach of the scan and of the baseline, every frame of which can be restored,
        is saved at a frame, then overwritten and saved again at up to 59 later frames, and overwritten once
        more; a windowed rollback to the frame that does not skip the page gives it the content it had. */
    method SaveThenRollback(frame: int, p: nat, later: seq<Page>, last: Page)
      requires Valid() && |later| < 60 && FramesUpTo(t.s.slots, frame - 1)
      requires p < 524288 && (arena.watermark == 0 || p * 4096 < arena.watermark)
      requires p in arena.baselineMap && EveryFrame(t, p)
      modifies arena`head, arena`watch, arena`baselineMap, arena`baselineBits, arena`supplemental, arena`baseline,
               arena`dirtyBits, arena`rebuildCountdown, arena.ring, arena.mem, eb`tally, eb`pages, this`t
      ensures Valid()
      ensures !arena.windowedRestore || arena.mem[p] == old(arena.mem[p])
        || (arena.haveExclusions && p in arena.rederiveExcluded && !(arena.haveCfull && p in arena.coherentFull))
    {
      ghost var c := arena.mem[p];
      SaveAll(frame, p, later);
      RollBack(frame, p, last, 59 - |later|, c);
    }

    method SaveAll(frame: int, p: nat, later: seq<Page>)
      requires Valid() && |later| < 60 && FramesUpTo(t.s.slots, frame - 1)
      requires p < 524288 && (arena.watermark == 0 || p * 4096 < arena.watermark)
      requires p in arena.baselineMap && EveryFrame(t, p)
      modifies arena`head, arena`watch, arena`baselineMap, arena`baselineBits, arena`supplemental, arena`baseline,
               arena`dirtyBits, arena`rebuildCountdown, arena.ring, arena.mem, this`t
      ensures Valid() && Remembered(t, frame, p, 59 - |later|) == Some(old(arena.mem[p]))
    {
      ghost var c := arena.mem[p];
      SavePage(frame, p);
      var now := frame;
      ghost var j: nat := 59;
      for k := 0 to |later|
        invariant now == frame + k && j == 59 - k
        invariant Valid() && Remembered(t, frame, p, j) == Some(c) && HoldsFrame(t, 59, now)
      {
        SaveAgain(frame, p, later[k], now, now + 1, j, c);
        now, j := now + 1, j - 1;
      }
    }

    method SaveAgain(frame: int, p: nat, x: Page, ghost last: int, now: int, ghost j: nat, ghost c: Page)
      requires Valid() && Remembered(t, frame, p, j) == Some(c) && j > 0 && HoldsFrame(t, 59, last) && last < now
      modifies arena`head, arena`watch, arena`baselineMap, arena`baselineBits, arena`supplemental, arena`baseline,
               arena`dirtyBits, arena`rebuildCountdown, arena.ring, arena.mem, this`t
      ensures Valid() && Remembered(t, frame, p, j - 1) == Some(c) && HoldsFrame(t, 59, now)
    {
      Overwrite(frame, p, x, j, c);
      SaveOn(frame, p, last, now, j, c);
    }

    method RollBack(frame: int, p: nat, last: Page, ghost j: nat, ghost c: Page)
      requires Valid() && Remembered(t, frame, p, j) == Some(c)
      modifies arena.mem, arena`watch, arena`dirtyBits, eb`tally, eb`pages, this`t
      ensures Valid() && p < MAX_PAGES
      ensures !arena.windowedRestore || arena.mem[p] == c
        || (arena.haveExclusions && p in arena.rederiveExcluded && !(arena.haveCfull && p in arena.coherentFull))
    {
      Overwrite(frame, p, last, j, c);
      Load(frame, true);
    }

    method Overwrite(frame: int, p: nat, x: Page, ghost j: nat, ghost c: Page)
      requires Valid() && Remembered(t, frame, p, j) == Some(c)
      modifies arena.mem, arena`watch, this`t
      ensures Valid() && Remembered(t, frame, p, j) == Some(c) && t.s.slots == old(t.s.slots)
    {
      ghost var t1 := t;
      Write(p, x);
      HeldOp(t1, OpWrite(map[p := x]), frame, p, j, c);
    }

    method SavePage(frame: int, p: nat)
      requires Valid() && p < 524288 && (arena.watermark == 0 || p * 4096 < arena.watermark)
      requires EveryFrame(t, p) && p in arena.baselineMap && FramesUpTo(t.s.slots, frame - 1)
      modifies arena`head, arena`watch, arena`baselineMap, arena`baselineBits, arena`supplemental, arena`baseline,
               arena`dirtyBits, arena`rebuildCountdown, arena.ring, this`t
      ensures Valid() && Remembered(t, frame, p, 59) == Some(arena.mem[p]) && HoldsFrame(t, 59, frame)
    {
      ghost var t1 := t;
      var ok, order := Save(frame, true, true);
      assert p in t1.s.watch ==> p in order;
      JustSaved(t1, frame, order, p);
    }

    method SaveOn(frame: int, p: nat, ghost last: int, now: int, ghost j: nat, ghost c: Page)
      requires Valid() && Remembered(t, frame, p, j) == Some(c) && j > 0 && HoldsFrame(t, 59, last) && last < now
      modifies arena`head, arena`watch, arena`baselineMap, arena`baselineBits, arena`supplemental, arena`baseline,
               arena`dirtyBits, arena`rebuildCountdown, arena.ring, this`t
      ensures Valid() && Remembered(t, frame, p, j - 1) == Some(c) && HoldsFrame(t, 59, now)
    {
      ghost var t1 := t;
      ghost var order := SaveNext(last, now);
      HeldOp(t1, OpSave(now, order), frame, p, j, c);
    }

    method SaveNext(ghost last: int, now: int) returns (ghost order: seq<nat>)
      requires Valid() && HoldsFrame(t, 59, last) && last < now
      modifies arena`head, arena`watch, arena`baselineMap, arena`baselineBits, arena`supplemental, arena`baseline,
               arena`dirtyBits, arena`rebuildCountdown, arena.ring, this`t
      ensures Valid() && Legal(old(t), OpSave(now, order)) && t == Step(old(t), OpSave(now, order))
      ensures HoldsFrame(t, 59, now)
    {
      LastIsLatest(t, last);
      var ok;
      ok, order := Save(now, true, true);
    }

    method LoadStep(frame: int, watchOk: bool)
      requires Valid()
      modifies arena.mem, arena`watch, arena`dirtyBits, eb`tally, eb`pages
      ensures arena.Valid() && Legal(t, LoadOp(frame, watchOk)) && arena.Abs() == Step(t, LoadOp(frame, watchOk)).s
      ensures arena.LoadMode(watchOk) == old(arena.LoadMode(watchOk))
    {
      ghost var mode, skip := arena.LoadMode(watchOk), arena.Skipped();
      RingAscends(t);
      ghost var s' := LoadArena(frame, watchOk);
      LoadedIs(t, frame, mode, skip, s');
    }

    method LoadArena(frame: int, watchOk: bool) returns (ghost s': Store)
      requires Valid() && Ascending(t.s.slots)
      modifies arena.mem, arena`watch, arena`dirtyBits, eb`tally, eb`pages
      ensures arena.Valid() && arena.Abs() == s' && arena.mem[..] == s'.live
      ensures arena.LoadMode(watchOk) == old(arena.LoadMode(watchOk)) && arena.Skipped() == old(arena.Skipped())
      ensures s' == DeltaStore.Load(t.s, Undone(t.s, frame, arena.LoadMode(watchOk)), arena.Skipped(), frame)
    {
      var _ := arena.Load(frame, watchOk, eb);
      s' := arena.Abs();
    }

    /** The rollback core: capture the kept objects, load the frame, write the objects back. Every byte
        then has exactly one epoch: live if a recorded object holds it or its page was skipped, and on
        a Sound page otherwise that of the history entry the frame stands for. */
    method Rollback(kept: Preserver, candidates: seq<(nat, nat)>, frame: int, watchOk: bool)
      requires Valid()
      requires forall i :: 0 <= i < |candidates| ==> Solid(arena.committed, candidates[i].0, candidates[i].1)
      modifies kept, arena.mem, arena`watch, arena`dirtyBits, eb`tally, eb`pages, this`t
      ensures Valid()
      ensures Epochs(old(arena.mem[..]), kept.regs, arena.Skipped(), arena.mem[..])
      ensures BytesBackAt(old(t), old(ToUndo(t, frame, watchOk)), arena.Skipped(), frame, arena.mem[..], kept.regs)
    {
      kept.Save(arena, candidates);
      Return(kept, frame, watchOk);
    }

    /** Load and write back, the objects being captured. */
    method Return(kept: Preserver, frame: int, watchOk: bool)
      requires Valid() && kept.Valid(arena)
      modifies arena.mem, arena`watch, arena`dirtyBits, eb`tally, eb`pages, this`t
      ensures Valid()
      ensures Epochs(old(arena.mem[..]), kept.regs, arena.Skipped(), arena.mem[..])
      ensures BytesBackAt(old(t), old(ToUndo(t, frame, watchOk)), arena.Skipped(), frame, arena.mem[..], kept.regs)
    {
      ghost var before, eff, live := t, ToUndo(t, frame, watchOk), arena.mem[..];
      Load(frame, watchOk);
      ghost var loaded := arena.mem[..];
      WriteBack(kept, live);
      BytesFollow(before, eff, arena.Skipped(), frame, live, loaded, arena.mem[..], kept.regs);
    }

    method WriteBack(kept: Preserver, ghost live: Memory)
      requires Valid() && Captured(kept.regs, kept.snap, live, arena.committed)
      modifies arena.mem, arena`watch, this`t
      ensures Valid()
      ensures Overlaid(live, kept.regs, old(arena.mem[..]), arena.mem[..])
    {
      kept.Restore(arena, live);
      ghost var pages := Noted(arena.watch, arena.mem[..]);
      assert arena.Abs() == WriteAll(t.s, pages);
      Note(OpWrite(pages));
    }
  }

  // ---------- a saved page, from its save to its rollback ----------

  ghost predicate FramesUpTo(slots: seq<Option<Delta>>, n: int) {
    forall o :: o in slots && o.Some? ==> o.value.frame <= n
  }

  /** The content of page p in the entry that frame n stands for, if slot j is that of the frame, and the
      frame can be restored on the page. */
  ghost function Remembered(t: Trace, n: int, p: nat, j: nat): Option<Page>
    requires Inv(t)
  {
    if p < MAX_PAGES && Restorable(t, n, p) && HoldsFrame(t, j, n) && p in t.s.base && Target(t, n) < |t.hist|
    then Some(t.hist[Target(t, n)].mem[p]) else None
  }

  lemma FoldKeepsKeys(base: map<nat, Page>, room: nat, o: Option<Delta>, p: nat)
    requires (o.Some? ==> o.value.Wf()) && p in base
    ensures p in Fold(base, room, o).0
  {
    if o.Some? {
      FoldFirstIs(base, room, o.value, |o.value.order|, p);
    }
  }

  /** Frames ascend along the ring. */
  lemma LastIsLatest(t: Trace, n: int)
    requires Inv(t) && HoldsFrame(t, 59, n)
    ensures FramesUpTo(t.s.slots, n)
  {
    forall j | 0 <= j < RING_SLOTS && t.s.slots[j].Some? ensures t.s.slots[j].value.frame <= n {
      assert j < 59 ==> Ascends(t, j, 59);
    }
  }

  lemma HeldOp(t: Trace, op: Op, n: int, p: nat, j: nat, c: Page)
    requires Inv(t) && Legal(t, op) && Remembered(t, n, p, j) == Some(c) && (op.OpWrite? || (op.OpSave? && j > 0))
    ensures Inv(Step(t, op)) && Remembered(Step(t, op), n, p, if op.OpSave? then j - 1 else j) == Some(c)
  {
    if op.OpSave? {
      FoldKeepsKeys(t.s.base, t.s.room, t.s.slots[0], p);
    }
    HeldStep(t, op, n, p, j);
    KeptIff(t, op, n, p);
  }

  lemma JustSaved(t: Trace, frame: int, order: seq<nat>, p: nat)
    requires Inv(t) && Legal(t, OpSave(frame, order)) && p < MAX_PAGES && EveryFrame(t, p) && p in t.s.base
    requires p in t.s.watch ==> p in order
    ensures var t' := Step(t, OpSave(frame, order));
      Inv(t') && Remembered(t', frame, p, 59) == Some(t.s.live[p])
  {
    var t' := Step(t, OpSave(frame, order));
    FoldKeepsKeys(t.s.base, t.s.room, t.s.slots[0], p);
    GentleStep(t, OpSave(frame, order), p);
    assert t'.at[59] == Some(|t.hist|);
    TargetOfSlot(t', 59);
  }

  /** The pages a load gets right for all contents. */
  ghost function SoundPages(t: Trace, revert: set<nat>, skip: set<nat>, n: int): (r: set<nat>)
    requires Labels(t)
    ensures r != {} ==> Target(t, n) < |t.hist|
  {
    TargetIs(t, n, RING_SLOTS);
    set p: nat | p < MAX_PAGES && Sound(t, revert, skip, n, p)
  }

  /** Memory m has every such page as the target entry has it. */
  ghost predicate BackAt(t: Trace, revert: set<nat>, skip: set<nat>, n: int, m: Memory)
    requires Labels(t)
  {
    forall p: nat :: p < MAX_PAGES && p in SoundPages(t, revert, skip, n) ==> m[p] == t.hist[Target(t, n)].mem[p]
  }

  /** The same of the bytes outside the recorded regions. */
  ghost predicate BytesBackAt(t: Trace, revert: set<nat>, skip: set<nat>, n: int, m: Memory, regs: seq<Reg>)
    requires Labels(t)
  {
    forall x: nat :: x < ARENA_SIZE && !InRegs(regs, x) && PageOf(x) in SoundPages(t, revert, skip, n) ==>
      ByteAt(m, x) == ByteAt(t.hist[Target(t, n)].mem, x)
  }

  function Noted(watch: set<nat>, m: Memory): (pages: map<nat, Page>)
    ensures forall p :: p in pages <==> p in watch && p < MAX_PAGES
    ensures forall p :: p in pages ==> pages[p] == m[p]
  {
    map p | p in watch && p < MAX_PAGES :: m[p]
  }

  ghost predicate SamePages(pages: set<nat>, m: Memory, m': Memory) {
    forall p :: p in pages && p < MAX_PAGES ==> m'[p] == m[p]
  }

  /** Memory m with the recorded regions as live has them. */
  ghost predicate Overlaid(live: Memory, regs: seq<Reg>, m: Memory, m': Memory) {
    forall x: nat :: x < ARENA_SIZE ==> ByteAt(m', x) == if InRegs(regs, x) then ByteAt(live, x) else ByteAt(m, x)
  }

  /** Bytes of recorded regions and of skipped pages are as they were. */
  ghost predicate Epochs(live: Memory, regs: seq<Reg>, skip: set<nat>, m: Memory) {
    forall x: nat :: x < ARENA_SIZE && (InRegs(regs, x) || PageOf(x) in skip) ==> ByteAt(m, x) == ByteAt(live, x)
  }

  lemma BytesFollow(t: Trace, revert: set<nat>, skip: set<nat>, n: int, live: Memory, m: Memory, m': Memory,
                    regs: seq<Reg>)
    requires Labels(t) && BackAt(t, revert, skip, n, m)
    requires SamePages(skip, live, m) && Overlaid(live, regs, m, m')
    ensures BytesBackAt(t, revert, skip, n, m', regs) && Epochs(live, regs, skip, m')
  {
  }

  /** The store a load leaves, as the trace's step has it and page by page. */
  lemma LoadedIs(t: Trace, n: int, mode: Mode, skip: set<nat>, s': Store)
    requires Inv(t) && s' == Load(t.s, Undone(t.s, n, mode), skip, n)
    ensures Legal(t, OpLoad(n, mode, skip)) && Step(t, OpLoad(n, mode, skip)).s == s'
    ensures BackAt(t, Undone(t.s, n, mode), skip, n, s'.live)
    ensures SamePages(skip, t.s.live, s'.live)
  {
    TargetIs(t, n, RING_SLOTS);
    forall p: nat | p < MAX_PAGES && p in SoundPages(t, Undone(t.s, n, mode), skip, n)
      ensures s'.live[p] == t.hist[Target(t, n)].mem[p]
    {
      RestoreIsExact(t, Undone(t.s, n, mode), skip, n, p);
    }
  }

  /** Every page that frame n is restorable on, unless it was skipped, has what the target entry has. */
  ghost predicate Regained(t: Trace, n: int, skip: set<nat>, m: Memory)
    requires Labels(t)
  {
    forall p: nat :: p < MAX_PAGES && Restorable(t, n, p) && p !in skip ==>
      Target(t, n) < |t.hist| && m[p] == t.hist[Target(t, n)].mem[p]
  }

  lemma WindowRegains(t: Trace, n: int, cfull: set<nat>, skip: set<nat>)
    requires Labels(t)
    ensures Regained(t, n, skip, Restore(t.s, Undone(t.s, n, InWindow(cfull, true)), skip, n))
  {
    forall p: nat | p < MAX_PAGES && Restorable(t, n, p) && p !in skip
      ensures Target(t, n) < |t.hist|
      ensures Restore(t.s, Undone(t.s, n, InWindow(cfull, true)), skip, n)[p] == t.hist[Target(t, n)].mem[p]
    {
      RestorableIsRight(t, n, Undone(t.s, n, InWindow(cfull, true)), skip, p);
    }
  }

  lemma RingAscends(t: Trace)
    requires Labels(t)
    ensures Ascending(t.s.slots)
  {
    forall a: nat, b: nat | a < b < RING_SLOTS && t.s.slots[a].Some? && t.s.slots[b].Some?
      ensures t.s.slots[a].value.frame < t.s.slots[b].value.frame
    {
      assert Ascends(t, a, b);
    }
  }
}

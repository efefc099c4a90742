/** The engine with the background fold switched on. */
module DeferredEngine {
  import opened Pages
  import opened DeltaStore
  import opened Provenance
  import opened RestoreTheorems
  import DF = DeferredFold
  import FP = FoldProtocol

  // A machine runs the two threads of the deferred fold beside the history of a store that folds at once: a
  // save begins, evicts its slot and refills it in several steps, with the worker's steps in between; writes
  // and loads come between saves. Whenever the pending folds are drained, as they are before a rollback, the
  // machine's store is that store.

  /** head is the slot the next save evicts and refills. */
  datatype Machine = Machine(e: DF.Engine, t: Trace, head: nat)

  datatype Move =
    | Thread(a: FP.Step)                    // of either thread, touching no slot's content
    | Begin                                 // a save: the full-ring check, unless the slot is not valid
    | Defer                                 // its slot is evicted to the worker
    | Inline                                // or folded on the main thread, where that is safe
    | Keep(frame: int, order: seq<nat>)     // the slot is refilled and the save done
    | Lose(need: nat)                       // a larger buffer could not be had: the save fails
    | Do(op: Op)                            // a write, a move of the frontier, or a load

  predicate IsSave(op: Op) {
    op.OpSave? || op.OpFail?
  }

  /** No pending fold, and no save under way. */
  predicate Drained(m: Machine) {
    m.e.st.main.Idle? && m.e.st.completed >= m.e.st.submitted
  }

  /** What the move is for the two threads. */
  function ActOf(m: Machine, v: Move): DF.Act
    requires m.head < |m.e.caps| && !v.Do?
  {
    match v
    case Thread(a) => DF.Other(a)
    case Begin => if m.e.caps[m.head].Some? then DF.Evict(m.head) else DF.Skip(m.head)
    case Defer => DF.Assign
    case Inline => DF.Inline
    case Keep(frame, order) => DF.Capture(DeltaStore.Capture(m.t.s.live, order, frame))
    case Lose(need) => DF.CaptureFails(need)
  }

  /** What it is for the store that folds at once: a save happens when its slot is refilled. */
  function OpsOf(v: Move): seq<Op> {
    match v
    case Keep(frame, order) => [OpSave(frame, order)]
    case Lose(_) => [OpFail]
    case Do(op) => [op]
    case _ => []
  }

  /** Loads wait for the drain; frames rise and the harvest is complete, as a save has it. */
  ghost predicate Enabled(m: Machine, v: Move)
    requires Provenance.Inv(m.t) && m.head < |m.e.caps| && |m.e.st.submit| == FP.FOLD_RING
  {
    match v
    case Do(op) => m.e.st.main.Idle? && !IsSave(op) && Legal(m.t, op) && (op.OpLoad? ==> Drained(m))
    case Keep(frame, order) => Legal(m.t, OpSave(frame, order)) && DF.Enabled(m.e, ActOf(m, v))
    case _ => DF.Enabled(m.e, ActOf(m, v))
  }

  // ---------- the coupling ----------

  predicate SaveAt(main: FP.Main, s: nat) {
    main.Idle? || main.slot == s
  }

  predicate Evicted(main: FP.Main) {
    main.Detaching? || main.Publishing? || main.Refilling?
  }

  /** The slots in ring order, from head on. */
  function InOrder(head: nat, caps: seq<Option<Delta>>): (r: seq<Option<Delta>>)
    requires |caps| == RING_SLOTS
    ensures |r| == RING_SLOTS && forall j :: 0 <= j < RING_SLOTS ==> r[j] == caps[(head + j) % RING_SLOTS]
  {
    seq(RING_SLOTS, j requires 0 <= j < RING_SLOTS => caps[(head + j) % RING_SLOTS])
  }

  /** The slots in ring order are those of the store, but for the one a save has in hand. The log of evicted
      deltas comes to the store's baseline - with the oldest slot folded in, once the save has evicted it. */
  ghost predicate Coupled(
      head: nat, main: FP.Main, caps: seq<Option<Delta>>, log: seq<Delta>, s: Store, base: map<nat, Page>, room: nat)
  {
    && |caps| == RING_SLOTS && |s.slots| == RING_SLOTS && head < RING_SLOTS && SaveAt(main, head)
    && InOrder(head, caps)[1..] == s.slots[1..]
    && if Evicted(main) then caps[head].None? && DF.FoldAll(base, room, log) == Fold(s.base, s.room, s.slots[0])
       else caps[head] == s.slots[0] && DF.FoldAll(base, room, log) == (s.base, s.room)
  }

  ghost predicate IsCoupled(m: Machine, base: map<nat, Page>, room: nat) {
    Coupled(m.head, m.e.st.main, m.e.caps, m.e.log, m.t.s, base, room)
  }

  ghost predicate Inv(m: Machine, base: map<nat, Page>, room: nat) {
    DF.Inv(m.e, base, room) && Provenance.Inv(m.t) && IsCoupled(m, base, room)
  }

  // ---------- what the two threads do to the slots ----------

  /** A step of the engine is possible. */
  ghost predicate Ready(e: DF.Engine, act: DF.Act) {
    && FP.Shape(e.st) && |e.caps| == RING_SLOTS && DF.MainCap(e) && DF.Enabled(e, act)
    && FP.Enabled(e.st, DF.Low(e, act))
  }

  lemma IsReady(e: DF.Engine, act: DF.Act, base: map<nat, Page>, room: nat)
    requires DF.Inv(e, base, room) && DF.Enabled(e, act)
    ensures Ready(e, act) && DF.Inv(DF.Next(e, act), base, room)
  {
    DF.StepKeepsInv(e, act, base, room);
  }

  /** A move is possible. */
  ghost predicate Can(m: Machine, v: Move) {
    && Provenance.Inv(m.t) && m.head < RING_SLOTS == |m.e.caps| && |m.e.st.submit| == FP.FOLD_RING
    && Enabled(m, v) && (!v.Do? ==> Ready(m.e, ActOf(m, v)))
  }

  ghost function Next(m: Machine, v: Move): Machine
    requires Can(m, v)
  {
    match v
    case Do(op) => m.(t := Step(m.t, op))
    case Keep(frame, order) => Refilled(m, ActOf(m, v), Step(m.t, OpSave(frame, order)))
    case Lose(_) => Refilled(m, ActOf(m, v), Step(m.t, OpFail))
    case _ => m.(e := DF.Next(m.e, ActOf(m, v)))
  }

  ghost function Refilled(m: Machine, act: DF.Act, t': Trace): Machine
    requires Ready(m.e, act)
  {
    Machine(DF.Next(m.e, act), t', (m.head + 1) % RING_SLOTS)
  }

  lemma ThreadIs(e: DF.Engine, a: FP.Step, s: nat)
    requires Ready(e, DF.Other(a))
    ensures var e' := DF.Next(e, DF.Other(a));
      && e'.caps == e.caps && e'.log == e.log && Evicted(e'.st.main) == Evicted(e.st.main)
      && (SaveAt(e.st.main, s) ==> SaveAt(e'.st.main, s))
  {
  }

  lemma BeginIs(e: DF.Engine, s: nat)
    requires s < |e.caps| && var act := if e.caps[s].Some? then DF.Evict(s) else DF.Skip(s); Ready(e, act)
    ensures var e' := DF.Next(e, if e.caps[s].Some? then DF.Evict(s) else DF.Skip(s));
      && e'.caps == e.caps && e'.log == e.log && SaveAt(e'.st.main, s)
      && !Evicted(e.st.main) && Evicted(e'.st.main) == e.caps[s].None?
  {
  }

  lemma EvictIs(e: DF.Engine, act: DF.Act)
    requires Ready(e, act) && (act.Assign? || act.Inline?)
    ensures e.st.main.Building? && e.st.main.slot < |e.caps| && e.caps[e.st.main.slot].Some?
    ensures var e', s := DF.Next(e, act), e.st.main.slot;
      && e'.caps == e.caps[s := None] && e'.log == e.log + [e.caps[s].value]
      && !e'.st.main.Idle? && e'.st.main.slot == s && Evicted(e'.st.main)
  {
  }

  /** What the step leaves in the slot. */
  function Captured(act: DF.Act): Option<Delta> {
    if act.Capture? then Some(act.d) else None
  }

  lemma RefillIs(e: DF.Engine, act: DF.Act)
    requires Ready(e, act) && (act.Capture? || act.CaptureFails?)
    ensures e.st.main.Refilling? && e.st.main.slot < |e.caps| && e.caps[e.st.main.slot].None?
    ensures var e' := DF.Next(e, act);
      && e'.caps == e.caps[e.st.main.slot := Captured(act)]
      && e'.log == e.log && e'.st.main.Idle?
  {
  }

  // ---------- what a step does to the store ----------

  lemma OpKeepsRing(t: Trace, op: Op)
    requires Provenance.Inv(t) && Legal(t, op) && !IsSave(op)
    ensures var s' := Step(t, op).s; s'.slots == t.s.slots && s'.base == t.s.base && s'.room == t.s.room
  {
  }

  /** What the last slot holds after a save. */
  function NewSlot(t: Trace, op: Op): Option<Delta>
    requires IsSave(op)
  {
    match op
    case OpSave(frame, order) => Some(DeltaStore.Capture(t.s.live, order, frame))
    case _ => None
  }

  /** The oldest slot is folded, and o takes the newest place. */
  ghost predicate Shifts(s: Store, s': Store, o: Option<Delta>) {
    |s.slots| == RING_SLOTS && s'.slots == s.slots[1..] + [o] && (s'.base, s'.room) == Fold(s.base, s.room, s.slots[0])
  }

  lemma SaveShifts(t: Trace, op: Op)
    requires Provenance.Inv(t) && Legal(t, op) && IsSave(op)
    ensures Shifts(t.s, Step(t, op).s, NewSlot(t, op))
  {
  }

  // ---------- each move keeps the coupling ----------

  lemma EvictCouples(head: nat, main: FP.Main, main': FP.Main, caps: seq<Option<Delta>>, log: seq<Delta>, s: Store,
                     base: map<nat, Page>, room: nat)
    requires Coupled(head, main, caps, log, s, base, room) && !Evicted(main) && caps[head].Some?
    requires Evicted(main') && main'.slot == head
    ensures Coupled(head, main', caps[head := None], log + [caps[head].value], s, base, room)
  {
    DF.FoldOneMore(base, room, log, caps[head].value);
    SetHead(head, caps, None);
  }

  lemma SetHead(head: nat, caps: seq<Option<Delta>>, o: Option<Delta>)
    requires |caps| == RING_SLOTS && head < RING_SLOTS
    ensures InOrder(head, caps[head := o])[1..] == InOrder(head, caps)[1..]
  {
  }

  lemma RoundOnce(head: nat, j: nat)
    requires head < RING_SLOTS && j < RING_SLOTS
    ensures ((head + 1) % RING_SLOTS + j) % RING_SLOTS == (head + (j + 1)) % RING_SLOTS
    ensures (head + (j + 1)) % RING_SLOTS == head <==> j == RING_SLOTS - 1
  {
  }

  /** Refilling the head slot and moving on is one shift of the ring. */
  lemma Shifted(head: nat, caps: seq<Option<Delta>>, o: Option<Delta>)
    requires |caps| == RING_SLOTS && head < RING_SLOTS
    ensures InOrder((head + 1) % RING_SLOTS, caps[head := o]) == InOrder(head, caps)[1..] + [o]
  {
    var a, b := InOrder((head + 1) % RING_SLOTS, caps[head := o]), InOrder(head, caps)[1..] + [o];
    forall j | 0 <= j < RING_SLOTS ensures a[j] == b[j] {
      RoundOnce(head, j);
    }
  }

  lemma RefillCouples(head: nat, main: FP.Main, caps: seq<Option<Delta>>, log: seq<Delta>, s: Store, s': Store,
                      o: Option<Delta>, base: map<nat, Page>, room: nat)
    requires Coupled(head, main, caps, log, s, base, room) && Evicted(main)
    requires Shifts(s, s', o)
    ensures Coupled((head + 1) % RING_SLOTS, FP.Idle, caps[head := o], log, s', base, room)
  {
    Shifted(head, caps, o);
    var now := InOrder((head + 1) % RING_SLOTS, caps[head := o]);
    assert now == s'.slots;
    assert now[0] == caps[head := o][(head + 1) % RING_SLOTS];
  }

  /** The machine after a step of the two threads is coupled to store s'. */
  ghost predicate Leads(m: Machine, act: DF.Act, head: nat, s': Store, base: map<nat, Page>, room: nat)
    requires Ready(m.e, act)
  {
    var e' := DF.Next(m.e, act);
    Coupled(head, e'.st.main, e'.caps, e'.log, s', base, room)
  }

  lemma ThreadLeads(m: Machine, a: FP.Step, base: map<nat, Page>, room: nat)
    requires IsCoupled(m, base, room) && Ready(m.e, DF.Other(a))
    ensures Leads(m, DF.Other(a), m.head, m.t.s, base, room)
  {
    ThreadIs(m.e, a, m.head);
  }

  lemma BeginLeads(m: Machine, base: map<nat, Page>, room: nat)
    requires IsCoupled(m, base, room) && Ready(m.e, ActOf(m, Begin))
    ensures Leads(m, ActOf(m, Begin), m.head, m.t.s, base, room)
  {
    BeginIs(m.e, m.head);
  }

  lemma EvictLeads(m: Machine, act: DF.Act, base: map<nat, Page>, room: nat)
    requires IsCoupled(m, base, room) && Ready(m.e, act) && (act.Assign? || act.Inline?)
    ensures Leads(m, act, m.head, m.t.s, base, room)
  {
    EvictIs(m.e, act);
    EvictCouples(m.head, m.e.st.main, DF.Next(m.e, act).st.main, m.e.caps, m.e.log, m.t.s, base, room);
  }

  lemma SaveKeeps(m: Machine, act: DF.Act, t': Trace, base: map<nat, Page>, room: nat)
    requires IsCoupled(m, base, room) && Ready(m.e, act) && (act.Capture? || act.CaptureFails?)
    requires Shifts(m.t.s, t'.s, Captured(act))
    ensures IsCoupled(Refilled(m, act, t'), base, room)
  {
    RefillIs(m.e, act);
    RefillCouples(m.head, m.e.st.main, m.e.caps, m.e.log, m.t.s, t'.s, Captured(act), base, room);
  }

  lemma MoveKeepsCoupled(m: Machine, v: Move, base: map<nat, Page>, room: nat)
    requires IsCoupled(m, base, room) && Can(m, v)
    ensures IsCoupled(Next(m, v), base, room)
  {
    match v
    case Do(op) => OpKeepsRing(m.t, op);
    case Keep(frame, order) =>
      SaveShifts(m.t, OpSave(frame, order));
      SaveKeeps(m, ActOf(m, v), Step(m.t, OpSave(frame, order)), base, room);
    case Lose(_) =>
      SaveShifts(m.t, OpFail);
      SaveKeeps(m, ActOf(m, v), Step(m.t, OpFail), base, room);
    case Thread(a) => ThreadLeads(m, a, base, room);
    case Begin => BeginLeads(m, base, room);
    case Defer => EvictLeads(m, DF.Assign, base, room);
    case Inline => EvictLeads(m, DF.Inline, base, room);
  }

  lemma MoveKeepsInv(m: Machine, v: Move, base: map<nat, Page>, room: nat)
    requires Inv(m, base, room) && Enabled(m, v)
    ensures Can(m, v) && Inv(Next(m, v), base, room)
  {
    if v.Do? {
      StepKeepsInv(m.t, v.op);
    } else {
      IsReady(m.e, ActOf(m, v), base, room);
      if v.Keep? {
        StepKeepsInv(m.t, OpSave(v.frame, v.order));
      } else if v.Lose? {
        StepKeepsInv(m.t, OpFail);
      }
    }
    MoveKeepsCoupled(m, v, base, room);
  }

  // ---------- every interleaving ----------

  ghost predicate LegalRun(m: Machine, moves: seq<Move>, base: map<nat, Page>, room: nat)
    requires Inv(m, base, room)
    decreases |moves|
  {
    moves == [] || (
      && Enabled(m, moves[0])
      && (MoveKeepsInv(m, moves[0], base, room); LegalRun(Next(m, moves[0]), moves[1..], base, room)))
  }

  ghost function Run(m: Machine, moves: seq<Move>, base: map<nat, Page>, room: nat): (r: Machine)
    requires Inv(m, base, room) && LegalRun(m, moves, base, room)
    ensures Inv(r, base, room)
    decreases |moves|
  {
    if moves == [] then m
    else
      MoveKeepsInv(m, moves[0], base, room);
      Run(Next(m, moves[0]), moves[1..], base, room)
  }

  /** What the store that folds at once has been through. */
  function OpsIn(moves: seq<Move>): seq<Op> {
    if moves == [] then [] else OpsOf(moves[0]) + OpsIn(moves[1..])
  }

  lemma OneOp(t: Trace, op: Op, ops: seq<Op>)
    requires Provenance.Inv(t) && Legal(t, op)
    requires Provenance.Inv(Step(t, op)) && Provenance.LegalRun(Step(t, op), ops)
    ensures Provenance.LegalRun(t, [op] + ops)
    ensures Provenance.Run(t, [op] + ops) == Provenance.Run(Step(t, op), ops)
  {
    assert ([op] + ops)[1..] == ops;
  }

  /** The move is that operation of the store, or none. */
  lemma MoveIs(m: Machine, v: Move)
    requires Can(m, v)
    ensures var m' := Next(m, v);
      if OpsOf(v) == [] then m'.t == m.t else Legal(m.t, OpsOf(v)[0]) && m'.t == Step(m.t, OpsOf(v)[0])
  {
  }

  lemma {:induction false} RunIs(m: Machine, moves: seq<Move>, base: map<nat, Page>, room: nat)
    requires Inv(m, base, room) && LegalRun(m, moves, base, room)
    ensures Provenance.LegalRun(m.t, OpsIn(moves))
    ensures Run(m, moves, base, room).t == Provenance.Run(m.t, OpsIn(moves))
    decreases |moves|
  {
    if moves == [] {
    } else {
      MoveKeepsInv(m, moves[0], base, room);
      MoveIs(m, moves[0]);
      RunIs(Next(m, moves[0]), moves[1..], base, room);
      if OpsOf(moves[0]) == [] {
        assert OpsIn(moves) == OpsIn(moves[1..]);
      } else {
        assert OpsOf(moves[0]) == [OpsOf(moves[0])[0]];
        OneOp(m.t, OpsOf(moves[0])[0], OpsIn(moves[1..]));
      }
    }
  }

  // ---------- restoring from it ----------

  // ---------- no move is ever missing ----------

  /** A load can be made exactly between saves, once the completed count has caught up with the submitted. */
  lemma LoadsWait(m: Machine, n: int, mode: Mode, skip: set<nat>)
    requires Provenance.Inv(m.t) && m.head < |m.e.caps| && |m.e.st.submit| == FP.FOLD_RING
    ensures Enabled(m, Do(OpLoad(n, mode, skip))) <==>
      m.e.st.main.Idle? && m.e.st.completed >= m.e.st.submitted
  {
  }

  /** What the worker does next. */
  function WorkerStep(st: FP.State): FP.Step
    requires |st.submit| == FP.FOLD_RING
  {
    match st.worker
    case Parked => FP.Take
    case Copying(i) => if i < st.submit[st.tail % FP.FOLD_RING].count then FP.Copy else FP.Consume
    case Consumed(_, _) => FP.Return
    case Returned(_) => FP.Complete
  }

  /** A save never gets stuck: between saves one can begin; the main thread can always go on with one under
      way, deferring the eviction and then keeping any page list and frame a save may have; and while it
      waits for the ring to drain, the worker has a step, or the wait is over. */
  lemma NeverStuck(m: Machine, base: map<nat, Page>, room: nat)
    requires Inv(m, base, room)
    ensures m.e.st.main.Idle? ==> Can(m, Begin)
    ensures m.e.st.main.Draining? ==> Can(m, Thread(FP.DrainReturns)) || Can(m, Thread(WorkerStep(m.e.st)))
    ensures m.e.st.main.Building? ==> Can(m, Defer)
    ensures m.e.st.main.Detaching? ==> Can(m, Thread(FP.Detach))
    ensures m.e.st.main.Publishing? ==> Can(m, Thread(FP.Publish))
    ensures m.e.st.main.Refilling? ==>
      forall frame, order :: Legal(m.t, OpSave(frame, order)) ==> Can(m, Keep(frame, order))
  {
    match m.e.st.main
    case Idle => CanBegin(m, base, room);
    case Draining(_) => CanWait(m, base, room);
    case Building(_) => MoveIsReady(m, Defer, base, room);
    case Detaching(_) => MoveIsReady(m, Thread(FP.Detach), base, room);
    case Publishing(_) => MoveIsReady(m, Thread(FP.Publish), base, room);
    case Refilling(_) =>
      forall frame, order | Legal(m.t, OpSave(frame, order)) ensures Can(m, Keep(frame, order)) {
        CanKeep(m, base, room, frame, order);
      }
  }

  lemma CanBegin(m: Machine, base: map<nat, Page>, room: nat)
    requires Inv(m, base, room) && m.e.st.main.Idle?
    ensures Can(m, Begin)
  {
    assert DF.CapOk(m.e, m.head);
    MoveIsReady(m, Begin, base, room);
  }

  lemma CanWait(m: Machine, base: map<nat, Page>, room: nat)
    requires Inv(m, base, room) && m.e.st.main.Draining?
    ensures Can(m, Thread(FP.DrainReturns)) || Can(m, Thread(WorkerStep(m.e.st)))
  {
    if m.e.st.completed >= m.e.st.submitted {
      MoveIsReady(m, Thread(FP.DrainReturns), base, room);
    } else {
      MoveIsReady(m, Thread(WorkerStep(m.e.st)), base, room);
    }
  }

  lemma CanKeep(m: Machine, base: map<nat, Page>, room: nat, frame: int, order: seq<nat>)
    requires Inv(m, base, room) && m.e.st.main.Refilling? && Legal(m.t, OpSave(frame, order))
    ensures Can(m, Keep(frame, order))
  {
    assert DeltaStore.Capture(m.t.s.live, order, frame).Wf();
    MoveIsReady(m, Keep(frame, order), base, room);
  }

  lemma MoveIsReady(m: Machine, v: Move, base: map<nat, Page>, room: nat)
    requires Inv(m, base, room) && !v.Do? && Enabled(m, v)
    ensures Can(m, v)
  {
    IsReady(m.e, ActOf(m, v), base, room);
  }

  /** The store a load sees: the baseline is what the two threads have made of it. */
  function Seen(m: Machine): Store {
    m.t.s.(base := DF.View(m.e.loc, m.e.st.store), room := m.e.room)
  }

  /** Once drained, the machine's store is the one that folds at once. */
  lemma DrainedIsStore(m: Machine, base: map<nat, Page>, room: nat)
    requires Inv(m, base, room) && m.e.st.main.Idle? && m.e.st.completed >= m.e.st.submitted
    ensures Seen(m) == m.t.s
  {
    assert m.e.st.tail == FP.Built(m.e.st);
  }

  /** The captured baseline is in place, and no save has been made. */
  ghost predicate Captures(e: DF.Engine, t: Trace) {
    DF.Fresh(e) && DF.View(e.loc, e.st.store) == t.s.base && e.room == t.s.room
  }

  lemma StartCoupled(e: DF.Engine, live: Memory, committed: set<nat>, countdown: int, limit: nat)
    requires Captures(e, Start(live, committed, countdown, limit))
    requires Provenance.Inv(Start(live, committed, countdown, limit))
    ensures var t := Start(live, committed, countdown, limit); Inv(Machine(e, t, 0), t.s.base, t.s.room)
  {
    DF.FreshInv(e);
  }

  /** Exact restore with the background fold. After the baseline capture and any run of saves, writes and
      loads, under every interleaving with the worker, a load made once the pending folds are drained
      sees the very store that folds at once; so it is right on a page exactly when the page is Sound
      after the same operations there. */
  lemma DeferredRestore(e: DF.Engine, live: Memory, committed: set<nat>, countdown: int, limit: nat,
                        moves: seq<Move>, n: int, mode: Mode, skip: set<nat>, p: nat)
    requires var t := Start(live, committed, countdown, limit);
      && Provenance.Inv(t) && Captures(e, t) && Inv(Machine(e, t, 0), t.s.base, t.s.room)
      && LegalRun(Machine(e, t, 0), moves, t.s.base, t.s.room)
      && var st := Run(Machine(e, t, 0), moves, t.s.base, t.s.room).e.st;
         st.main.Idle? && st.completed >= st.submitted
    requires p < MAX_PAGES
    ensures var t := Start(live, committed, countdown, limit);
      var m := Run(Machine(e, t, 0), moves, t.s.base, t.s.room);
      Provenance.LegalRun(t, OpsIn(moves)) && m.t == Provenance.Run(t, OpsIn(moves)) && Seen(m) == m.t.s
    ensures var t := Start(live, committed, countdown, limit);
      var m := Run(Machine(e, t, 0), moves, t.s.base, t.s.room);
      var revert := Undone(Seen(m), n, mode);
      && (AlwaysRight(m.t, revert, skip, n, p) <==> Sound(m.t, revert, skip, n, p))
      && (Sound(m.t, revert, skip, n, p) ==>
            Target(m.t, n) < |m.t.hist| && Restore(Seen(m), revert, skip, n)[p] == m.t.hist[Target(m.t, n)].mem[p])
  {
    var t := Start(live, committed, countdown, limit);
    var m := Run(Machine(e, t, 0), moves, t.s.base, t.s.room);
    RunIs(Machine(e, t, 0), moves, t.s.base, t.s.room);
    DrainedIsStore(m, t.s.base, t.s.room);
    TargetIs(m.t, n, RING_SLOTS);
    RestoreIsExact(m.t, Undone(m.t.s, n, mode), skip, n, p);
  }
}

/** The deferred fold of src/arena.cpp as a state machine of two threads. */
module FoldProtocol {
  import opened Pages

  // The main thread resolves destinations and hands an evicted slot's page buffer to a background worker
  // through a ring of eight jobs; the worker copies the pages into the baseline and hands the buffer back
  // through a second ring. Each step below makes at most one change that the other thread can see; whatever
  // else it reads or writes belongs to its own thread at that point. The two threads' steps interleave freely.

  const FOLD_RING: nat := 8

  /** A job in the submit ring; its destination list is the backing store of the same ring index. */
  datatype Job = Job(src: nat, count: nat, seqNo: nat)

  /** Where the main thread is in a save: past the full-ring check, waiting for the worker, job
      built, buffer detached, or job published. */
  datatype Main =
    | Idle
    | Draining(slot: nat)
    | Building(slot: nat)
    | Detaching(slot: nat)
    | Publishing(slot: nat)
    | Refilling(slot: nat)

  /** Where the worker is: parked, copying page i, past the consume, past the return. */
  datatype Worker = Parked | Copying(i: nat) | Consumed(src: nat, seqNo: nat) | Returned(seqNo: nat)

  /** Buffers are named by number; pages maps each to its contents and next is the first unused
      name. store is the baseline, by destination address. sync is what the synchronous fold would
      have made of it: a specification device the program does not have. */
  datatype State = State(
    store: map<nat, Page>, pages: map<nat, seq<Page>>, next: nat, slots: seq<Option<nat>>,
    submit: seq<Job>, dstStore: seq<seq<Option<nat>>>, head: nat, tail: nat, submitted: nat, completed: nat,
    ret: seq<nat>, retHead: nat, retTail: nat, main: Main, worker: Worker, sync: map<nat, Page>)

  datatype Step =
    | Evict(s: nat)                           // full-ring check
    | Skip(s: nat)                            // the slot was not valid: nothing to fold
    | DrainReturns
    | Build(dsts: seq<Option<nat>>)
    | FoldInline(dsts: seq<Option<nat>>)      // no destination list: main copies the pages itself
    | Detach
    | Publish
    | Refill(content: seq<Page>)
    | RefillFails(need: nat)                  // a larger buffer could not be had
    | Take
    | Copy
    | Consume
    | Return
    | Complete

  /** The slot has a buffer of n pages or more. */
  predicate Fits(st: State, s: nat, n: nat) {
    s < |st.slots| && st.slots[s].Some? && st.slots[s].value in st.pages && n <= |st.pages[st.slots[s].value]|
  }

  /** Copying pages i.. of a job into the store, skipping gaps. */
  function Apply(store: map<nat, Page>, dsts: seq<Option<nat>>, data: seq<Page>, i: nat): map<nat, Page>
    requires |dsts| <= |data|
    decreases |dsts| - i
  {
    if i >= |dsts| then store
    else Apply(if dsts[i].Some? then store[dsts[i].value := data[i]] else store, dsts, data, i + 1)
  }

  // ---------- shape ----------

  /** Jobs built so far; the last one is not yet published while main detaches and publishes. */
  function Built(st: State): nat {
    st.head + if st.main.Detaching? || st.main.Publishing? then 1 else 0
  }

  predicate MainOk(st: State)
    requires |st.slots| == RING_SLOTS
  {
    match st.main
    case Idle => true
    case Draining(s) => Fits(st, s, 0)
    case Building(s) => Fits(st, s, 0) && st.head - st.tail < FOLD_RING
    case Detaching(s) => s < RING_SLOTS && st.head - st.tail < FOLD_RING
    case Publishing(s) => s < RING_SLOTS && st.head - st.tail < FOLD_RING
    case Refilling(s) => s < RING_SLOTS
  }

  predicate JobOk(st: State, k: nat)
    requires |st.submit| == |st.dstStore| == FOLD_RING
  {
    var j := st.submit[k % FOLD_RING];
    && j.src in st.pages
    && j.count == |st.dstStore[k % FOLD_RING]| <= |st.pages[j.src]|
    && j.seqNo == k + 1
  }

  ghost predicate Shape(st: State) {
    && |st.slots| == RING_SLOTS && |st.submit| == |st.dstStore| == |st.ret| == FOLD_RING
    && st.tail <= st.head <= st.tail + FOLD_RING
    && st.retTail <= st.retHead <= st.retTail + FOLD_RING
    && MainOk(st)
    && (forall k :: st.tail <= k < Built(st) ==> JobOk(st, k))
    && (st.worker.Copying? ==> st.tail < st.head && st.worker.i <= st.submit[st.tail % FOLD_RING].count)
    && st.submitted == Built(st)
    && (match st.worker
        case Consumed(_, n) => n == st.tail == st.completed + 1
        case Returned(n) => n == st.tail == st.completed + 1
        case _ => st.completed == st.tail)
  }

  // ---------- what the pending work will write ----------

  function Targets(dsts: seq<Option<nat>>, i: nat): set<nat> {
    set k | i <= k < |dsts| && dsts[k].Some? :: dsts[k].value
  }

  /** The addresses jobs k.. will still write. */
  function JobTargets(st: State, k: nat): set<nat>
    requires Shape(st) && st.tail <= k <= Built(st)
    decreases Built(st) - k
  {
    if k == Built(st) then {} else Targets(st.dstStore[k % FOLD_RING], 0) + JobTargets(st, k + 1)
  }

  function PendingTargets(st: State): set<nat>
    requires Shape(st)
  {
    if st.worker.Copying? then Targets(st.dstStore[st.tail % FOLD_RING], st.worker.i) + JobTargets(st, st.tail + 1)
    else JobTargets(st, st.tail)
  }

  // ---------- enabled steps ----------

  /** An inline fold is allowed only where it touches no pending destination; InlineFoldSafeIff says why. */
  ghost predicate Enabled(st: State, a: Step)
    requires |st.submit| == FOLD_RING
  {
    match a
    case Evict(s) => st.main.Idle? && s < |st.slots| && st.slots[s].Some? && st.slots[s].value in st.pages
    case Skip(s) => st.main.Idle? && s < |st.slots|
    case DrainReturns => st.main.Draining? && st.completed >= st.submitted
    case Build(dsts) => st.main.Building? && Fits(st, st.main.slot, |dsts|)
    case FoldInline(dsts) =>
      && st.main.Building? && Fits(st, st.main.slot, |dsts|)
      && Shape(st) && Targets(dsts, 0) !! PendingTargets(st)
    case Detach => st.main.Detaching?
    case Publish => st.main.Publishing?
    case Refill(_) => st.main.Refilling?
    case RefillFails(need) => st.main.Refilling? && !Fits(st, st.main.slot, need)
    case Take => st.worker.Parked? && st.tail != st.head
    case Copy => st.worker.Copying? && st.worker.i < st.submit[st.tail % FOLD_RING].count
    case Consume => st.worker.Copying? && st.worker.i >= st.submit[st.tail % FOLD_RING].count
    case Return => st.worker.Consumed?
    case Complete => st.worker.Returned?
  }

  // ---------- ownership ----------

  datatype Owner = InSlot(i: nat) | InJob(k: nat) | InWorker | InReturn(k: nat)

  /** The buffer an owner holds. A slot being detached has already given its buffer to the job. */
  function Held(st: State, o: Owner): Option<nat>
    requires |st.slots| == RING_SLOTS && |st.submit| == |st.ret| == FOLD_RING
  {
    match o
    case InSlot(i) => if i < RING_SLOTS && st.main != Detaching(i) then st.slots[i] else None
    case InJob(k) => if st.tail <= k < Built(st) then Some(st.submit[k % FOLD_RING].src) else None
    case InWorker => if st.worker.Consumed? then Some(st.worker.src) else None
    case InReturn(k) => if st.retTail <= k < st.retHead then Some(st.ret[k % FOLD_RING]) else None
  }

  /** No buffer is held by two owners, and every buffer held is allocated. */
  ghost predicate OneOwner(st: State)
    requires Shape(st)
  {
    && (forall o, o' :: o != o' && Held(st, o).Some? && Held(st, o').Some? ==> Held(st, o).value != Held(st, o').value)
    && (forall o :: Held(st, o).Some? ==> Held(st, o).value in st.pages)
    && (forall b :: b in st.pages ==> b < st.next)
  }

  // ---------- what the pending work amounts to ----------

  /** The store after jobs k.. run to the end. */
  function RunJobs(st: State, store: map<nat, Page>, k: nat): map<nat, Page>
    requires Shape(st) && st.tail <= k <= Built(st)
    decreases Built(st) - k
  {
    if k == Built(st) then store
    else
      assert JobOk(st, k);
      RunJobs(st, Apply(store, st.dstStore[k % FOLD_RING], st.pages[st.submit[k % FOLD_RING].src], 0), k + 1)
  }

  /** The store once the worker has finished everything that is built. */
  function Drained(st: State): map<nat, Page>
    requires Shape(st)
  {
    if st.worker.Copying? then
      assert JobOk(st, st.tail);
      var ri := st.tail % FOLD_RING;
      RunJobs(st, Apply(st.store, st.dstStore[ri], st.pages[st.submit[ri].src], st.worker.i), st.tail + 1)
    else RunJobs(st, st.store, st.tail)
  }

  ghost predicate Inv(st: State) {
    Shape(st) && OneOwner(st) && Drained(st) == st.sync
  }

  // ---------- the transitions ----------

  /** Folding a slot on the main thread while jobs are in flight, as a save does when no
      destination list can be allocated or deferring was just switched off. */
  function InlineFold(st: State, dsts: seq<Option<nat>>, data: seq<Page>): State
    requires |dsts| <= |data|
  {
    st.(store := Apply(st.store, dsts, data, 0), sync := Apply(st.sync, dsts, data, 0))
  }

  function Next(st: State, a: Step): State
    requires Shape(st) && Enabled(st, a)
  {
    var ri, ti := st.head % FOLD_RING, st.tail % FOLD_RING;
    match a
    case Evict(s) => st.(main := if st.head - st.tail >= FOLD_RING then Draining(s) else Building(s))
    case Skip(s) => st.(main := Refilling(s))
    case DrainReturns => st.(main := Building(st.main.slot))
    case Build(dsts) =>
      var src := st.slots[st.main.slot].value;
      st.(dstStore := st.dstStore[ri := dsts], submitted := st.submitted + 1,
          submit := st.submit[ri := Job(src, |dsts|, st.submitted + 1)],
          sync := Apply(st.sync, dsts, st.pages[src], 0), main := Detaching(st.main.slot))
    case FoldInline(dsts) =>
      InlineFold(st, dsts, st.pages[st.slots[st.main.slot].value]).(main := Refilling(st.main.slot))
    case Detach =>
      if st.retTail == st.retHead then
        st.(slots := st.slots[st.main.slot := None], main := Publishing(st.main.slot))
      else
        st.(slots := st.slots[st.main.slot := Some(st.ret[st.retTail % FOLD_RING])], retTail := st.retTail + 1,
            main := Publishing(st.main.slot))
    case Publish => st.(head := st.head + 1, main := Refilling(st.main.slot))
    case Refill(content) =>
      var o := st.slots[st.main.slot];
      if Fits(st, st.main.slot, |content|) then
        st.(pages := st.pages[o.value := content + st.pages[o.value][|content|..]], main := Idle)
      else
        st.(pages := st.pages[st.next := content], next := st.next + 1,
            slots := st.slots[st.main.slot := Some(st.next)], main := Idle)
    case RefillFails(_) => st.(slots := st.slots[st.main.slot := None], main := Idle)
    case Take => st.(worker := Copying(0))
    case Copy =>
      assert JobOk(st, st.tail);
      var d := st.dstStore[ti][st.worker.i];
      st.(store := if d.Some? then st.store[d.value := st.pages[st.submit[ti].src][st.worker.i]] else st.store,
          worker := Copying(st.worker.i + 1))
    case Consume => st.(tail := st.tail + 1, worker := Consumed(st.submit[ti].src, st.submit[ti].seqNo))
    case Return =>
      if st.retHead - st.retTail >= FOLD_RING then st.(worker := Returned(st.worker.seqNo))
      else st.(ret := st.ret[st.retHead % FOLD_RING := st.worker.src], retHead := st.retHead + 1,
               worker := Returned(st.worker.seqNo))
    case Complete => st.(completed := st.worker.seqNo, worker := Parked)
  }

  /** A save waits for the ring to drain exactly when all 8 places of it are taken, and a worker gives its
      buffer up exactly when all 8 places for returns are. */
  lemma WaitsIff(st: State, s: nat)
    requires Shape(st)
    ensures Enabled(st, Evict(s)) ==>
      Next(st, Evict(s)).main == if st.head - st.tail == 8 then Draining(s) else Building(s)
    ensures Enabled(st, Return) ==>
      Next(st, Return).retHead == if st.retHead - st.retTail == 8 then st.retHead else st.retHead + 1
  {
  }

  // ---------- each step keeps the invariant ----------

  lemma RingApart(j: nat, h: nat)
    requires j < h < j + FOLD_RING
    ensures j % FOLD_RING != h % FOLD_RING
  {
  }

  predicate SameJob(st: State, st': State, k: nat)
    requires Shape(st) && Shape(st') && st.tail <= k < Built(st) && st'.tail <= k < Built(st')
  {
    var j, j' := st.submit[k % FOLD_RING], st'.submit[k % FOLD_RING];
    assert JobOk(st, k) && JobOk(st', k);
    j == j' && st.dstStore[k % FOLD_RING] == st'.dstStore[k % FOLD_RING] && st.pages[j.src] == st'.pages[j'.src]
  }

  lemma {:induction false} JobsSame(st: State, st': State, store: map<nat, Page>, k: nat)
    requires Shape(st) && Shape(st') && Built(st) == Built(st')
    requires st.tail <= k <= Built(st) && st'.tail <= k
    requires forall j :: k <= j < Built(st) ==> SameJob(st, st', j)
    ensures RunJobs(st, store, k) == RunJobs(st', store, k)
    decreases Built(st) - k
  {
    if k == Built(st) {
    } else {
      assert SameJob(st, st', k);
      assert JobOk(st, k) && JobOk(st', k);
      JobsSame(st, st', Apply(store, st.dstStore[k % FOLD_RING], st.pages[st.submit[k % FOLD_RING].src], 0), k + 1);
    }
  }

  lemma {:induction false} OneJobMore(st: State, st': State, store: map<nat, Page>, k: nat)
    requires Shape(st) && Shape(st') && Built(st') == Built(st) + 1 && st'.tail <= st.tail <= k <= Built(st)
    requires forall j :: k <= j < Built(st) ==> SameJob(st, st', j)
    ensures JobOk(st', Built(st))
    ensures RunJobs(st', store, k) ==
      var ri := Built(st) % FOLD_RING;
      Apply(RunJobs(st, store, k), st'.dstStore[ri], st'.pages[st'.submit[ri].src], 0)
    decreases Built(st) - k
  {
    assert JobOk(st', Built(st));
    assert JobOk(st', k);
    if k == Built(st) {
    } else {
      assert SameJob(st, st', k);
      assert JobOk(st, k);
      OneJobMore(st, st', Apply(store, st.dstStore[k % FOLD_RING], st.pages[st.submit[k % FOLD_RING].src], 0), k + 1);
    }
  }

  /** Steps that touch neither jobs nor pages leave the pending work as it is. */
  lemma DrainedSame(st: State, st': State)
    requires Shape(st) && Shape(st') && Built(st) == Built(st') && st.tail == st'.tail
    requires st.worker.Copying? == st'.worker.Copying? && (st.worker.Copying? ==> st.worker == st'.worker)
    requires st.store == st'.store
    requires forall j :: st.tail <= j < Built(st) ==> SameJob(st, st', j)
    ensures Drained(st) == Drained(st')
  {
    if st.worker.Copying? {
      assert SameJob(st, st', st.tail);
      assert JobOk(st, st.tail) && JobOk(st', st.tail);
      var ri := st.tail % FOLD_RING;
      JobsSame(st, st', Apply(st.store, st.dstStore[ri], st.pages[st.submit[ri].src], st.worker.i), st.tail + 1);
    } else {
      JobsSame(st, st', st.store, st.tail);
    }
  }

  predicate ByWorker(a: Step) {
    a.Take? || a.Copy? || a.Consume? || a.Return? || a.Complete?
  }

  lemma BuildShape(st: State, dsts: seq<Option<nat>>)
    requires Inv(st) && Enabled(st, Build(dsts))
    ensures Shape(Next(st, Build(dsts)))
  {
    var st' := Next(st, Build(dsts));
    forall k | st'.tail <= k < Built(st') ensures JobOk(st', k) {
      if k < st.head {
        assert JobOk(st, k);
        RingApart(k, st.head);
      }
    }
    if st.worker.Copying? {
      RingApart(st.tail, st.head);
    }
  }

  lemma MainShape(st: State, a: Step)
    requires Inv(st) && Enabled(st, a) && !ByWorker(a) && !a.Build? && !a.Refill?
    ensures Shape(Next(st, a))
  {
    forall k | st.tail <= k < Built(st) ensures JobOk(Next(st, a), k) {
      assert JobOk(st, k);
    }
  }

  lemma RefillShape(st: State, a: Step)
    requires Inv(st) && Enabled(st, a) && a.Refill?
    ensures Shape(Next(st, a))
  {
    forall k | st.tail <= k < Built(st) ensures JobOk(Next(st, a), k) {
      assert JobOk(st, k);
    }
  }

  lemma WorkerShape(st: State, a: Step)
    requires Inv(st) && Enabled(st, a) && ByWorker(a)
    ensures Shape(Next(st, a))
  {
    var st' := Next(st, a);
    forall k | st'.tail <= k < Built(st') ensures JobOk(st', k) {
      assert JobOk(st, k);
    }
    if a.Consume? {
      assert JobOk(st, st.tail);
    }
  }

  lemma StepShape(st: State, a: Step)
    requires Inv(st) && Enabled(st, a)
    ensures Shape(Next(st, a))
  {
    if ByWorker(a) {
      WorkerShape(st, a);
    } else if a.Build? {
      BuildShape(st, a.dsts);
    } else if a.Refill? {
      RefillShape(st, a);
    } else {
      MainShape(st, a);
    }
  }

  /** A step that moves no buffer. */
  predicate MovesNothing(a: Step) {
    !(a.Build? || a.Detach? || a.Refill? || a.RefillFails? || a.Consume? || a.Return?)
  }

  lemma SameOwner(st: State, a: Step)
    requires Inv(st) && Enabled(st, a) && Shape(Next(st, a)) && MovesNothing(a)
    ensures OneOwner(Next(st, a))
  {
    assert forall o :: Held(Next(st, a), o) == Held(st, o);
  }

  lemma StepOwner(st: State, a: Step)
    requires Inv(st) && Enabled(st, a) && Shape(Next(st, a))
    ensures OneOwner(Next(st, a))
  {
    if MovesNothing(a) {
      SameOwner(st, a);
    } else {
      forall o, o' | o != o' && Held(Next(st, a), o).Some? && Held(Next(st, a), o').Some?
        ensures Held(Next(st, a), o).value != Held(Next(st, a), o').value
      {
        TwoOwners(st, a, o, o');
      }
      forall o | Held(Next(st, a), o).Some? ensures Held(Next(st, a), o).value in Next(st, a).pages {
        HeldBefore(st, a, o);
      }
    }
  }

  lemma TwoOwners(st: State, a: Step, o: Owner, o': Owner)
    requires Inv(st) && Enabled(st, a) && Shape(Next(st, a)) && !MovesNothing(a)
    requires o != o' && Held(Next(st, a), o).Some? && Held(Next(st, a), o').Some?
    ensures Held(Next(st, a), o).value != Held(Next(st, a), o').value
  {
    HeldBefore(st, a, o);
    HeldBefore(st, a, o');
    assert Before(st, a, o) != Before(st, a, o');
  }

  /** The owner that held, before step a, what o holds after it. */
  function Before(st: State, a: Step, o: Owner): Owner {
    match a
    case Build(_) => if o == InJob(st.head) && st.main.Building? then InSlot(st.main.slot) else o
    case Detach => if st.main.Detaching? && o == InSlot(st.main.slot) then InReturn(st.retTail) else o
    case Consume => if o == InWorker then InJob(st.tail) else o
    case Return => if o == InReturn(st.retHead) then InWorker else o
    case _ => o
  }

  /** What o holds after step a was held before it, or is a buffer allocated just now. */
  predicate Inherited(st: State, a: Step, o: Owner)
    requires Shape(st) && Enabled(st, a) && Shape(Next(st, a))
  {
    || Held(Next(st, a), o) == Held(st, Before(st, a, o))
    || (a.Refill? && o == InSlot(st.main.slot) && Held(Next(st, a), o) == Some(st.next))
  }

  lemma HeldBefore(st: State, a: Step, o: Owner)
    requires Inv(st) && Enabled(st, a) && Shape(Next(st, a)) && Held(Next(st, a), o).Some?
    ensures Inherited(st, a, o)
  {
    if ByWorker(a) {
      HeldBeforeWorker(st, a, o);
    } else {
      HeldBeforeMain(st, a, o);
    }
  }

  lemma HeldBeforeWorker(st: State, a: Step, o: Owner)
    requires Inv(st) && Enabled(st, a) && ByWorker(a) && Shape(Next(st, a)) && Held(Next(st, a), o).Some?
    ensures Inherited(st, a, o)
  {
    if a.Return? && o.InReturn? && st.retTail <= o.k < st.retHead && st.retHead - st.retTail < FOLD_RING {
      RingApart(o.k, st.retHead);
    }
  }

  lemma HeldBeforeMain(st: State, a: Step, o: Owner)
    requires Inv(st) && Enabled(st, a) && !ByWorker(a) && Shape(Next(st, a)) && Held(Next(st, a), o).Some?
    ensures Inherited(st, a, o)
  {
    if a.Build? && o.InJob? && st.tail <= o.k < st.head {
      RingApart(o.k, st.head);
    }
  }

  /** Building a job appends it to the pending work, as the synchronous fold would at that point.
      Its destination list is the backing store of no job still unread. */
  lemma BuildDrained(st: State, dsts: seq<Option<nat>>)
    requires Inv(st) && Enabled(st, Build(dsts)) && Shape(Next(st, Build(dsts)))
    ensures Drained(Next(st, Build(dsts))) == Next(st, Build(dsts)).sync
    ensures forall k :: st.tail <= k < st.head ==> k % FOLD_RING != st.head % FOLD_RING
  {
    var st' := Next(st, Build(dsts));
    forall k | st.tail <= k < st.head ensures SameJob(st, st', k) && k % FOLD_RING != st.head % FOLD_RING {
      RingApart(k, st.head);
      assert JobOk(st, k) && JobOk(st', k);
    }
    if st.worker.Copying? {
      assert SameJob(st, st', st.tail) && JobOk(st, st.tail);
      var ri := st.tail % FOLD_RING;
      OneJobMore(st, st', Apply(st.store, st.dstStore[ri], st.pages[st.submit[ri].src], st.worker.i), st.tail + 1);
    } else {
      OneJobMore(st, st', st.store, st.tail);
    }
  }

  lemma MainDrained(st: State, a: Step)
    requires Inv(st) && Enabled(st, a) && !ByWorker(a) && !a.Build? && !a.FoldInline? && Shape(Next(st, a))
    ensures Drained(Next(st, a)) == Next(st, a).sync
  {
    var st' := Next(st, a);
    forall k | st.tail <= k < Built(st) ensures SameJob(st, st', k) {
      MainKeepsJob(st, a, k);
    }
    DrainedSame(st, st');
  }

  lemma MainKeepsJob(st: State, a: Step, k: nat)
    requires Inv(st) && Enabled(st, a) && !ByWorker(a) && !a.Build? && !a.FoldInline? && Shape(Next(st, a))
    requires st.tail <= k < Built(st)
    ensures SameJob(st, Next(st, a), k)
  {
    assert JobOk(st, k) && JobOk(Next(st, a), k);
    if a.Refill? {
      var mine, theirs := Held(st, InSlot(st.main.slot)), Held(st, InJob(k));
      assert mine == st.slots[st.main.slot] && theirs == Some(st.submit[k % FOLD_RING].src);
      assert mine.Some? ==> mine.value != theirs.value;
    }
  }

  /** An inline fold that touches no pending destination leaves the pending work right. */
  lemma FoldInlineDrained(st: State, dsts: seq<Option<nat>>)
    requires Inv(st) && Enabled(st, FoldInline(dsts)) && Shape(Next(st, FoldInline(dsts)))
    ensures Drained(Next(st, FoldInline(dsts))) == Next(st, FoldInline(dsts)).sync
  {
    var mid := InlineFold(st, dsts, st.pages[st.slots[st.main.slot].value]);
    InlineFoldSafe(st, dsts, st.pages[st.slots[st.main.slot].value]);
    forall k | st.tail <= k < Built(st) ensures SameJob(mid, Next(st, FoldInline(dsts)), k) {
      assert JobOk(mid, k) && JobOk(Next(st, FoldInline(dsts)), k);
    }
    DrainedSame(mid, Next(st, FoldInline(dsts)));
  }

  lemma WorkerDrained(st: State, a: Step)
    requires Inv(st) && Enabled(st, a) && ByWorker(a) && Shape(Next(st, a))
    ensures Drained(Next(st, a)) == Next(st, a).sync
  {
    if a.Return? || a.Complete? {
      var st' := Next(st, a);
      forall k | st'.tail <= k < Built(st) ensures SameJob(st, st', k) {
        assert JobOk(st, k) && JobOk(st', k);
      }
      DrainedSame(st, st');
    } else {
      CopyDrained(st, a);
    }
  }

  /** Taking a job or copying one of its pages changes only how far the head job has got. */
  lemma CopyDrained(st: State, a: Step)
    requires Inv(st) && Enabled(st, a) && ByWorker(a) && Shape(Next(st, a)) && !a.Return? && !a.Complete?
    ensures Drained(Next(st, a)) == Next(st, a).sync
  {
    forall k | Next(st, a).tail <= k < Built(st) ensures SameJob(st, Next(st, a), k) {
      assert JobOk(st, k) && JobOk(Next(st, a), k);
    }
    assert JobOk(st, st.tail);
    var ri := st.tail % FOLD_RING;
    var dsts, data := st.dstStore[ri], st.pages[st.submit[ri].src];
    if a.Take? {
      JobsSame(st, Next(st, a), Apply(st.store, dsts, data, 0), st.tail + 1);
    } else {
      JobsSame(st, Next(st, a), Apply(st.store, dsts, data, st.worker.i), st.tail + 1);
    }
  }

  lemma StepKeepsInv(st: State, a: Step)
    requires Inv(st) && Enabled(st, a)
    ensures Inv(Next(st, a))
  {
    StepShape(st, a);
    StepOwner(st, a);
    if ByWorker(a) {
      WorkerDrained(st, a);
    } else if a.Build? {
      BuildDrained(st, a.dsts);
    } else if a.FoldInline? {
      FoldInlineDrained(st, a.dsts);
    } else {
      MainDrained(st, a);
    }
  }

  // ---------- every interleaving ----------

  ghost predicate LegalRun(st: State, steps: seq<Step>)
    requires Inv(st)
    decreases |steps|
  {
    steps == [] || (
      && Enabled(st, steps[0])
      && (StepKeepsInv(st, steps[0]); LegalRun(Next(st, steps[0]), steps[1..])))
  }

  ghost function Run(st: State, steps: seq<Step>): (r: State)
    requires Inv(st) && LegalRun(st, steps)
    ensures Inv(r)
    decreases |steps|
  {
    if steps == [] then st
    else
      StepKeepsInv(st, steps[0]);
      Run(Next(st, steps[0]), steps[1..])
  }

  /** No job in the rings, and every slot with a buffer of its own. */
  ghost predicate Fresh(st: State) {
    && |st.slots| == RING_SLOTS && |st.submit| == |st.dstStore| == |st.ret| == FOLD_RING
    && st.head == st.tail == st.submitted == st.completed == st.retHead == st.retTail == 0
    && st.main.Idle? && st.worker.Parked? && st.sync == st.store
    && (forall i :: 0 <= i < RING_SLOTS && st.slots[i].Some? ==> st.slots[i].value in st.pages)
    && (forall i, j :: 0 <= i < j < RING_SLOTS && st.slots[i].Some? && st.slots[j].Some? ==> st.slots[i] != st.slots[j])
    && (forall b :: b in st.pages ==> b < st.next)
  }

  /** Deferred fold refines synchronous fold: under every interleaving, whenever the completed
      count has caught up with the submitted one - the condition fold_drain waits for - the
      baseline is what the synchronous fold makes it. */
  lemma DrainedIsSynchronous(st: State, steps: seq<Step>)
    requires Inv(st) && LegalRun(st, steps)
    ensures var r := Run(st, steps); r.completed >= r.submitted ==> r.store == r.sync
  {
    var r := Run(st, steps);
    if r.completed >= r.submitted {
      assert r.tail == Built(r);
    }
  }

  lemma FreshInv(st: State)
    requires Fresh(st)
    ensures Inv(st)
  {
  }

  /** While a job is in flight no slot refers to its buffer, so no save overwrites what the worker
      still has to read, and the return ring does not hand it out. */
  lemma InFlightBufferIsPrivate(st: State, k: nat, i: nat, n: nat)
    requires Inv(st) && st.tail <= k < st.head
    ensures i < RING_SLOTS && st.main != Detaching(i) ==> st.slots[i] != Some(st.submit[k % FOLD_RING].src)
    ensures st.retTail <= n < st.retHead ==> st.ret[n % FOLD_RING] != st.submit[k % FOLD_RING].src
    ensures k < n < st.head ==> st.submit[n % FOLD_RING].src != st.submit[k % FOLD_RING].src
  {
    assert Held(st, InJob(k)).Some?;
    assert i < RING_SLOTS ==> Held(st, InSlot(i)).None? || Held(st, InSlot(i)) != Held(st, InJob(k));
    assert InReturn(n) != InJob(k) && (Held(st, InReturn(n)).None? || Held(st, InReturn(n)) != Held(st, InJob(k)));
    assert n != k ==> Held(st, InJob(n)).None? || Held(st, InJob(n)) != Held(st, InJob(k));
  }

  /** fold_drain returns: with every job published, the worker alone catches up. */
  lemma {:induction false} DrainTerminates(st: State) returns (steps: seq<Step>)
    requires Inv(st) && Built(st) == st.head
    ensures LegalRun(st, steps) && Run(st, steps).completed >= st.submitted
    ensures forall a :: a in steps ==> ByWorker(a)
    decreases st.submitted - st.completed, WorkLeft(st)
  {
    if st.completed >= st.submitted {
      return [];
    }
    var a := match st.worker
      case Parked => Take
      case Copying(i) => if i < st.submit[st.tail % FOLD_RING].count then Copy else Consume
      case Consumed(_, _) => Return
      case Returned(_) => Complete;
    StepKeepsInv(st, a);
    var rest := DrainTerminates(Next(st, a));
    steps := [a] + rest;
    assert steps[1..] == rest;
  }

  function WorkLeft(st: State): nat
    requires Shape(st)
  {
    match st.worker
    case Parked =>
      if st.tail < st.head then st.submit[st.tail % FOLD_RING].count + 4 else 4
    case Copying(i) => st.submit[st.tail % FOLD_RING].count - i + 3
    case Consumed(_, _) => 2
    case Returned(_) => 1
  }

  // ---------- the inline fold ----------

  lemma {:induction false} ApplyOver(
      store: map<nat, Page>, store': map<nat, Page>, dsts: seq<Option<nat>>, data: seq<Page>, i: nat, x: nat)
    requires |dsts| <= |data|
    requires x in Targets(dsts, i) || ((x in store <==> x in store') && (x in store ==> store[x] == store'[x]))
    ensures var (r, r') := (Apply(store, dsts, data, i), Apply(store', dsts, data, i));
      (x in r <==> x in r') && (x in r ==> r[x] == r'[x])
    ensures x in Targets(dsts, i) ==> x in Apply(store, dsts, data, i)
    ensures x !in Targets(dsts, i) ==>
      var r := Apply(store, dsts, data, i); (x in r <==> x in store) && (x in r ==> r[x] == store[x])
    decreases |dsts| - i
  {
    if i >= |dsts| {
    } else {
      var a: map<nat, Page> := if dsts[i].Some? then store[dsts[i].value := data[i]] else store;
      var a': map<nat, Page> := if dsts[i].Some? then store'[dsts[i].value := data[i]] else store';
      assert Targets(dsts, i) == Targets(dsts, i + 1) + if dsts[i].Some? then {dsts[i].value} else {};
      ApplyOver(a, a', dsts, data, i + 1, x);
    }
  }

  lemma {:induction false} JobsOver(
      st: State, st': State, store: map<nat, Page>, store': map<nat, Page>, k: nat, x: nat)
    requires Shape(st) && Shape(st') && st' == st.(store := st'.store, sync := st'.sync) && st.tail <= k <= Built(st)
    requires x in JobTargets(st, k) || ((x in store <==> x in store') && (x in store ==> store[x] == store'[x]))
    ensures var (r, r') := (RunJobs(st, store, k), RunJobs(st', store', k));
      (x in r <==> x in r') && (x in r ==> r[x] == r'[x])
    ensures x in JobTargets(st, k) ==> x in RunJobs(st, store, k)
    ensures x !in JobTargets(st, k) ==>
      var r := RunJobs(st, store, k); (x in r <==> x in store) && (x in r ==> r[x] == store[x])
    decreases Built(st) - k
  {
    if k == Built(st) {
    } else {
      assert JobOk(st, k) && JobOk(st', k);
      var dsts, data := st.dstStore[k % FOLD_RING], st.pages[st.submit[k % FOLD_RING].src];
      if x in JobTargets(st, k + 1) {
        JobsOver(st, st', Apply(store, dsts, data, 0), Apply(store', dsts, data, 0), k + 1, x);
      } else {
        ApplyOver(store, store', dsts, data, 0, x);
        JobsOver(st, st', Apply(store, dsts, data, 0), Apply(store', dsts, data, 0), k + 1, x);
      }
    }
  }

  /** Pending work fixes exactly the addresses it will write, whatever the store holds there. */
  lemma DrainedOver(st: State, st': State, x: nat)
    requires Shape(st) && Shape(st') && st' == st.(store := st'.store, sync := st'.sync)
    ensures x in PendingTargets(st) ==> x in Drained(st) && x in Drained(st') && Drained(st)[x] == Drained(st')[x]
    ensures x !in PendingTargets(st) ==>
      (x in Drained(st') <==> x in st'.store) && (x in st'.store ==> Drained(st')[x] == st'.store[x])
  {
    if st.worker.Copying? {
      assert JobOk(st, st.tail);
      var ri := st.tail % FOLD_RING;
      var dsts, data, i := st.dstStore[ri], st.pages[st.submit[ri].src], st.worker.i;
      if x !in JobTargets(st, st.tail + 1) && x !in Targets(dsts, i) {
        ApplyOver(st'.store, st'.store, dsts, data, i, x);
        JobsOver(st', st', Apply(st'.store, dsts, data, i), Apply(st'.store, dsts, data, i), st.tail + 1, x);
        JobTargetsSame(st, st', st.tail + 1);
      } else {
        if x in Targets(dsts, i) {
          ApplyOver(st.store, st'.store, dsts, data, i, x);
        }
        JobsOver(st, st', Apply(st.store, dsts, data, i), Apply(st'.store, dsts, data, i), st.tail + 1, x);
      }
    } else if x in JobTargets(st, st.tail) {
      JobsOver(st, st', st.store, st'.store, st.tail, x);
    } else {
      JobTargetsSame(st, st', st.tail);
      JobsOver(st', st', st'.store, st'.store, st.tail, x);
    }
  }

  lemma {:induction false} JobTargetsSame(st: State, st': State, k: nat)
    requires Shape(st) && Shape(st') && st' == st.(store := st'.store, sync := st'.sync) && st.tail <= k <= Built(st)
    ensures JobTargets(st, k) == JobTargets(st', k)
    decreases Built(st) - k
  {
    if k == Built(st) {
    } else {
      JobTargetsSame(st, st', k + 1);
    }
  }

  lemma {:induction false} ApplyConstant(store: map<nat, Page>, dsts: seq<Option<nat>>, c: Page, i: nat, x: nat)
    requires x in Targets(dsts, i)
    ensures var r := Apply(store, dsts, seq(|dsts|, _ => c), i); x in r && r[x] == c
    decreases |dsts| - i
  {
    var data: seq<Page> := seq(|dsts|, _ => c);
    var next: map<nat, Page> := if dsts[i].Some? then store[dsts[i].value := c] else store;
    if x in Targets(dsts, i + 1) {
      ApplyConstant(next, dsts, c, i + 1, x);
    } else {
      assert Targets(dsts, i) == Targets(dsts, i + 1) + if dsts[i].Some? then {dsts[i].value} else {};
      ApplyOver(next, next, dsts, data, i + 1, x);
    }
  }

  lemma InlineFoldSafe(st: State, dsts: seq<Option<nat>>, data: seq<Page>)
    requires Inv(st) && |dsts| <= |data| && Targets(dsts, 0) !! PendingTargets(st)
    ensures Inv(InlineFold(st, dsts, data))
  {
    var st' := InlineFold(st, dsts, data);
    forall k | st.tail <= k < Built(st) ensures JobOk(st', k) {
      assert JobOk(st, k);
    }
    assert forall o :: Held(st', o) == Held(st, o);
    var d := Drained(st');
    forall x ensures (x in d <==> x in st'.sync) && (x in d ==> d[x] == st'.sync[x]) {
      DrainedOver(st, st', x);
      DrainedOver(st, st, x);
      if x in PendingTargets(st) {
        ApplyOver(st.sync, st.sync, dsts, data, 0, x);
      } else {
        ApplyOver(st.store, st.sync, dsts, data, 0, x);
      }
    }
    assert d == st'.sync;
  }

  /** The inline fold agrees with the synchronous one, whatever the pages hold, if and only if no
      job in flight still has one of its destinations to write. Otherwise the worker later puts an
      older page over the newer one. The full-ring test does not exclude this; an idle worker does. */
  lemma InlineFoldSafeIff(st: State, dsts: seq<Option<nat>>)
    requires Inv(st)
    ensures (forall data: seq<Page> | |data| == |dsts| :: Inv(InlineFold(st, dsts, data)))
      <==> Targets(dsts, 0) !! PendingTargets(st)
    ensures st.tail == Built(st) ==> Targets(dsts, 0) !! PendingTargets(st)
  {
    if Targets(dsts, 0) !! PendingTargets(st) {
      forall data: seq<Page> | |data| == |dsts| ensures Inv(InlineFold(st, dsts, data)) {
        InlineFoldSafe(st, dsts, data);
      }
    } else {
      var x :| x in Targets(dsts, 0) && x in PendingTargets(st);
      DrainedOver(st, st, x);
      var b := st.sync[x];
      var c: Page := b[0 := if b[0] == 0 then 1 else 0];
      assert c[0] != b[0];
      var data: seq<Page> := seq(|dsts|, _ => c);
      ApplyConstant(st.sync, dsts, c, 0, x);
      assert InlineFold(st, dsts, data).sync[x] == c;
      if Inv(InlineFold(st, dsts, data)) {
        DrainedOver(st, InlineFold(st, dsts, data), x);
        assert false;
      }
    }
  }
}

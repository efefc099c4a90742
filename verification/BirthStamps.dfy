/** The open-addressed birth-stamp table (src/idspine.cpp) and the log of births and deaths that it
    stands for. */
module BirthStamps {
  import opened Pages

  const CAP: nat := 0x4_0000
  const MAX_PROBE: nat := 128
  const FRAME_NEVER: int := 0x7FFF_FFFF
  const U64: nat := 0x1_0000_0000_0000_0000

  /** block 0 marks a slot never claimed; a dead block keeps its slot. */
  datatype Slot = Slot(block: nat, serial: nat, live: bool, birth: int, death: int, size: nat)

  // ---------- hashing and probing ----------

  function Xor(a: nat, b: nat): nat
    decreases a + b
  {
    if a == 0 && b == 0 then 0 else (a % 2 + b % 2) % 2 + 2 * Xor(a / 2, b / 2)
  }

  function Bit(a: nat, k: nat): nat
    decreases k
  {
    if k == 0 then a % 2 else Bit(a / 2, k - 1)
  }

  /** Xor adds each pair of bits mod 2. */
  lemma {:induction false} XorBit(a: nat, b: nat, k: nat)
    ensures Bit(Xor(a, b), k) == (Bit(a, k) + Bit(b, k)) % 2
    decreases k
  {
    XorParts(a, b);
    if k == 0 {
    } else {
      XorBit(a / 2, b / 2, k - 1);
    }
  }

  lemma XorParts(a: nat, b: nat)
    ensures Xor(a, b) % 2 == (a % 2 + b % 2) % 2 && Xor(a, b) / 2 == Xor(a / 2, b / 2)
  {
    var x, y := (a % 2 + b % 2) % 2, Xor(a / 2, b / 2);
    assert Xor(a, b) == x + 2 * y;
  }

  function HashBlock(block: nat): (h: nat)
    ensures h < CAP
  {
    var x := block / 32;
    var y := Xor(x, x / 0x2_0000_0000) * 0xff51afd7ed558ccd % U64;
    Xor(y, y / 0x2_0000_0000) % CAP
  }

  /** The slot looked at in step i of a search for block. */
  function Probe(block: nat, i: nat): (s: nat)
    ensures s < CAP
  {
    (HashBlock(block) + i) % CAP
  }

  /** The step in which a search for block reaches slot s. */
  function Dist(block: nat, s: nat): (i: nat)
    ensures i < CAP
  {
    (s - HashBlock(block)) % CAP
  }

  lemma ProbeDist(block: nat, s: nat)
    requires s < CAP
    ensures Probe(block, Dist(block, s)) == s
  {
    var h := HashBlock(block);
    if s >= h {
      assert (s - h) % CAP == s - h;
    } else {
      assert (s - h) % CAP == s - h + CAP;
    }
  }

  lemma DistProbe(block: nat, i: nat)
    requires i < CAP
    ensures Dist(block, Probe(block, i)) == i
  {
    var h := HashBlock(block);
    if h + i < CAP {
      assert Probe(block, i) == h + i;
    } else {
      assert Probe(block, i) == h + i - CAP;
      assert (i - CAP) % CAP == i;
    }
  }

  // ---------- the table as a map ----------

  ghost predicate Unique(t: seq<Slot>) {
    forall s, u :: 0 <= s < |t| && 0 <= u < |t| && t[s].block == t[u].block != 0 ==> s == u
  }

  ghost predicate Taken(t: seq<Slot>, block: nat, j: nat)
    requires |t| == CAP
  {
    t[Probe(block, j)].block != 0
  }

  /** The block in slot s sits within reach of its home slot, with no empty slot before it. */
  ghost predicate Seated(t: seq<Slot>, s: nat)
    requires |t| == CAP && s < CAP
  {
    t[s].block != 0 ==>
      Dist(t[s].block, s) < MAX_PROBE && forall j: nat :: j < Dist(t[s].block, s) ==> Taken(t, t[s].block, j)
  }

  ghost predicate Reachable(t: seq<Slot>)
    requires |t| == CAP
  {
    forall s: nat :: s < CAP ==> Seated(t, s)
  }

  ghost predicate Probed(t: seq<Slot>) {
    |t| == CAP && Unique(t) && Reachable(t)
  }

  ghost function View(t: seq<Slot>): map<nat, Slot>
    requires Unique(t)
  {
    map s | 0 <= s < |t| && t[s].block != 0 :: t[s].block := t[s]
  }

  ghost predicate Missed(t: seq<Slot>, block: nat, i: nat)
    requires |t| == CAP
  {
    forall j: nat :: j < i ==> Taken(t, block, j) && t[Probe(block, j)].block != block
  }

  /** All 128 slots that a search for block looks at are claimed. */
  ghost predicate RunFull(t: seq<Slot>, block: nat)
    requires |t| == CAP
  {
    forall j: nat :: j < 128 ==> Taken(t, block, j)
  }

  /** A search that ends at an empty slot, or at its bound, was for a block the table does not hold. */
  lemma SearchEnds(t: seq<Slot>, block: nat, i: nat)
    requires Probed(t) && block != 0 && Missed(t, block, i)
    requires i == MAX_PROBE || (i < MAX_PROBE && t[Probe(block, i)].block == 0)
    ensures block !in View(t)
  {
    forall s | 0 <= s < |t| ensures t[s].block != block {
      SearchMisses(t, block, i, s);
    }
  }

  lemma SearchMisses(t: seq<Slot>, block: nat, i: nat, s: nat)
    requires Probed(t) && block != 0 && Missed(t, block, i) && s < CAP
    requires i == MAX_PROBE || (i < MAX_PROBE && t[Probe(block, i)].block == 0)
    ensures t[s].block != block
  {
    ProbeDist(block, s);
    var d := Dist(block, s);
    assert Seated(t, s);
    assert i < MAX_PROBE ==> !Taken(t, block, i);
    assert d < i ==> t[Probe(block, d)].block != block;
  }

  /** Filling or rewriting a slot empties none, so no probe run gets a gap. */
  lemma StaysSeated(t: seq<Slot>, s: nat, x: Slot, u: nat)
    requires |t| == CAP && s < CAP && u < CAP && u != s && Seated(t, u) && x.block != 0
    ensures Seated(t[s := x], u)
  {
    var t' := t[s := x];
    if t'[u].block != 0 {
      forall j: nat | j < Dist(t'[u].block, u) ensures Taken(t', t'[u].block, j) {
        assert Taken(t, t[u].block, j);
      }
    }
  }

  lemma ViewSet(t: seq<Slot>, s: nat, x: Slot)
    requires Unique(t) && s < |t| && x.block != 0 && t[s].block in {0, x.block}
    requires t[s].block == 0 ==> x.block !in View(t)
    ensures Unique(t[s := x]) && View(t[s := x]) == View(t)[x.block := x]
  {
    var t' := t[s := x];
    forall u | 0 <= u < |t| && u != s && t[u].block != 0 ensures t[u].block != x.block {
      assert t[u].block in View(t);
    }
    forall b ensures b in View(t') <==> b in View(t)[x.block := x] {
      if b in View(t) && b != x.block {
        var u :| 0 <= u < |t| && t[u].block == b;
        assert t'[u].block == b;
      }
      assert t'[s].block == x.block;
    }
  }

  lemma Overwrite(t: seq<Slot>, s: nat, x: Slot)
    requires Probed(t) && s < |t| && t[s].block == x.block != 0
    ensures Probed(t[s := x]) && View(t[s := x]) == View(t)[x.block := x]
  {
    ViewSet(t, s, x);
    var t' := t[s := x];
    forall u: nat | u < CAP ensures Seated(t', u) {
      assert Seated(t, u);
      if u != s {
        StaysSeated(t, s, x, u);
      } else {
        forall j: nat | j < Dist(x.block, s) ensures Taken(t', x.block, j) {
          assert Taken(t, x.block, j);
        }
      }
    }
  }

  lemma Claim(t: seq<Slot>, i: nat, x: Slot)
    requires Probed(t) && x.block != 0 && x.block !in View(t)
    requires i < MAX_PROBE && Missed(t, x.block, i) && t[Probe(x.block, i)].block == 0
    ensures Probed(t[Probe(x.block, i) := x]) && View(t[Probe(x.block, i) := x]) == View(t)[x.block := x]
  {
    var s := Probe(x.block, i);
    var t' := t[s := x];
    ViewSet(t, s, x);
    DistProbe(x.block, i);
    forall u: nat | u < CAP ensures Seated(t', u) {
      assert Seated(t, u);
      if u != s {
        StaysSeated(t, s, x, u);
      } else {
        forall j: nat | j < i ensures Taken(t', x.block, j) {
          assert Taken(t, x.block, j);
        }
      }
    }
  }

  // ---------- the log ----------

  /** kept is false for a birth that found no slot. */
  datatype Event =
    | Put(block: nat, frame: int, size: nat, kept: bool)
    | Retire(block: nat, frame: int)

  datatype Spine = Spine(
    recs: map<nat, Slot>, ctr: nat, births: nat, reuses: nat, deaths: nat, live: int, distinct: nat, full: nat)

  function Apply(s: Spine, e: Event): Spine {
    match e
    case Put(b, frame, size, kept) =>
      if !kept then s.(full := s.full + 1)
      else
        var known := b in s.recs;
        var wasLive := known && s.recs[b].live;
        s.(recs := s.recs[b := Slot(b, s.ctr + 1, true, frame, FRAME_NEVER, size)], ctr := s.ctr + 1,
           births := if known then s.births else s.births + 1, reuses := if known then s.reuses + 1 else s.reuses,
           live := if wasLive then s.live else s.live + 1, distinct := if known then s.distinct else s.distinct + 1)
    case Retire(b, frame) =>
      if b !in s.recs then s
      else
        var wasLive := s.recs[b].live;
        s.(recs := s.recs[b := s.recs[b].(death := frame, live := false)],
           deaths := if wasLive then s.deaths + 1 else s.deaths, live := if wasLive then s.live - 1 else s.live)
  }

  function Replay(log: seq<Event>): Spine
    decreases |log|
  {
    if log == [] then Spine(map[], 0, 0, 0, 0, 0, 0, 0)
    else Apply(Replay(log[..|log| - 1]), log[|log| - 1])
  }

  /** Only a block without a record is ever turned away. */
  ghost predicate LegalLog(log: seq<Event>)
    decreases |log|
  {
    log == [] ||
    (LegalLog(log[..|log| - 1]) &&
     var e := log[|log| - 1];
     e.Put? && !e.kept ==> e.block !in Replay(log[..|log| - 1]).recs)
  }

  lemma Appended(log: seq<Event>, e: Event)
    ensures Replay(log + [e]) == Apply(Replay(log), e)
    ensures LegalLog(log + [e]) <==> LegalLog(log) && (e.Put? && !e.kept ==> e.block !in Replay(log).recs)
  {
    assert (log + [e])[..|log|] == log;
  }

  lemma Prefixed(log: seq<Event>, i: nat)
    requires i < |log|
    ensures Replay(log[..i + 1]) == Apply(Replay(log[..i]), log[i])
    ensures LegalLog(log[..i + 1]) <==>
      LegalLog(log[..i]) && (log[i].Put? && !log[i].kept ==> log[i].block !in Replay(log[..i]).recs)
  {
    assert log[..i + 1] == log[..i] + [log[i]];
    Appended(log[..i], log[i]);
  }

  function Stamp(log: seq<Event>, block: nat): nat {
    var recs := Replay(log).recs;
    if block in recs then recs[block].serial else 0
  }

  predicate IsBirth(e: Event, block: nat) {
    e.Put? && e.block == block
  }

  predicate IsDeath(e: Event, block: nat) {
    e.Retire? && e.block == block
  }

  /** Serials run from 1 to the counter, and no two records share one. */
  ghost predicate Numbered(s: Spine) {
    && (forall b :: b in s.recs ==> 0 < s.recs[b].serial <= s.ctr)
    && (forall b, c :: b in s.recs && c in s.recs && s.recs[b].serial == s.recs[c].serial ==> b == c)
  }

  /** The tallies count what they are named for. */
  ghost predicate Tallied(s: Spine) {
    s.live == |LiveBlocks(s.recs)| && s.distinct == s.births == |s.recs.Keys| && s.births + s.reuses == s.ctr
  }

  ghost function LiveBlocks(recs: map<nat, Slot>): set<nat> {
    set b | b in recs && recs[b].live
  }

  lemma LiveSet(recs: map<nat, Slot>, b: nat, x: Slot)
    ensures LiveBlocks(recs[b := x]) == if x.live then LiveBlocks(recs) + {b} else LiveBlocks(recs) - {b}
    ensures recs[b := x].Keys == recs.Keys + {b}
  {
  }

  lemma StepTallied(s: Spine, e: Event)
    requires Tallied(s)
    ensures Tallied(Apply(s, e))
  {
    var s' := Apply(s, e);
    if s'.recs != s.recs || (e.block in s.recs && e.block in s'.recs) {
      LiveSet(s.recs, e.block, s'.recs[e.block]);
    }
  }

  /** g_live is the number of live slots at every moment, and a stamp names one block. */
  lemma {:induction false} AlwaysTallied(log: seq<Event>)
    ensures Tallied(Replay(log)) && Numbered(Replay(log))
    decreases |log|
  {
    if log != [] {
      AlwaysTallied(log[..|log| - 1]);
      StepTallied(Replay(log[..|log| - 1]), log[|log| - 1]);
    } else {
      assert LiveBlocks(map[]) == {};
    }
  }

  // ---------- the tallies, counted over the log ----------

  /** Event i is a birth that got a slot. */
  ghost predicate Claims(log: seq<Event>, i: nat) {
    i < |log| && log[i].Put? && log[i].kept
  }

  /** Event i is a birth that got none. */
  ghost predicate Refused(log: seq<Event>, i: nat) {
    i < |log| && log[i].Put? && !log[i].kept
  }

  /** Event i is a birth of a block that had a slot already. */
  ghost predicate Reuses(log: seq<Event>, i: nat) {
    Claims(log, i) && exists p: nat :: p < i && Claims(log, p) && log[p].block == log[i].block
  }

  /** Before event n, block was born with a slot and has not died since. */
  ghost predicate AliveBefore(log: seq<Event>, n: nat, block: nat) {
    n <= |log| && exists p: nat ::
      p < n && Claims(log, p) && log[p].block == block && forall k :: p < k < n ==> !IsDeath(log[k], block)
  }

  /** Event i is the death of a living block. */
  ghost predicate Ends(log: seq<Event>, i: nat) {
    i < |log| && log[i].Retire? && AliveBefore(log, i, log[i].block)
  }

  datatype Tally = Kept | Reuse | Refusal | Death

  ghost predicate Counts(log: seq<Event>, i: nat, what: Tally) {
    match what
    case Kept => Claims(log, i)
    case Reuse => Reuses(log, i)
    case Refusal => Refused(log, i)
    case Death => Ends(log, i)
  }

  /** The events among the first n that a tally counts. */
  ghost function Counted(log: seq<Event>, n: nat, what: Tally): set<nat> {
    set i: nat | i < n && Counts(log, i, what)
  }

  /** The table has a record of exactly the blocks born with a slot, and it says alive while they are. */
  lemma {:induction false} RecordIff(log: seq<Event>, n: nat, block: nat)
    requires n <= |log|
    ensures block in Replay(log[..n]).recs <==> exists p: nat :: p < n && Claims(log, p) && log[p].block == block
    ensures block in Replay(log[..n]).recs && Replay(log[..n]).recs[block].live <==> AliveBefore(log, n, block)
    decreases n
  {
    if n == 0 {
    } else {
      RecordIff(log, n - 1, block);
      Prefixed(log, n - 1);
      AliveNext(log, n - 1, block);
      if IsBirth(log[n - 1], block) && log[n - 1].kept {
        assert Claims(log, n - 1);
      }
    }
  }

  lemma AliveNext(log: seq<Event>, n: nat, block: nat)
    requires n < |log|
    ensures AliveBefore(log, n + 1, block) <==>
      (Claims(log, n) && log[n].block == block) || (AliveBefore(log, n, block) && !IsDeath(log[n], block))
  {
    if Claims(log, n) && log[n].block == block {
      assert AliveBefore(log, n + 1, block);
    } else if AliveBefore(log, n, block) && !IsDeath(log[n], block) {
      var p: nat :| p < n && Claims(log, p) && log[p].block == block
        && forall k :: p < k < n ==> !IsDeath(log[k], block);
      assert AliveBefore(log, n + 1, block);
    }
  }

  lemma OneMore(log: seq<Event>, n: nat, what: Tally)
    ensures |Counted(log, n + 1, what)| == |Counted(log, n, what)| + if Counts(log, n, what) then 1 else 0
  {
    var s, s' := Counted(log, n, what), Counted(log, n + 1, what);
    assert s' == if Counts(log, n, what) then s + {n} else s;
  }

  lemma CountsStep(log: seq<Event>, n: nat)
    requires n < |log|
    ensures var s, s' := Replay(log[..n]), Replay(log[..n + 1]);
      && s'.ctr == s.ctr + (if Claims(log, n) then 1 else 0)
      && s'.reuses == s.reuses + (if Reuses(log, n) then 1 else 0)
      && s'.full == s.full + (if Refused(log, n) then 1 else 0)
      && s'.deaths == s.deaths + (if Ends(log, n) then 1 else 0)
  {
    Prefixed(log, n);
    RecordIff(log, n, log[n].block);
  }

  /** The counters count events of the log: the serial counter the births that got a slot, of which the
      reuse counter those of blocks with an earlier one, the full counter the births that got none, and
      the death counter the deaths of living blocks. */
  lemma {:induction false} CountersOverLog(log: seq<Event>, n: nat)
    requires n <= |log|
    ensures var s := Replay(log[..n]);
      && s.ctr == |Counted(log, n, Kept)| && s.reuses == |Counted(log, n, Reuse)|
      && s.full == |Counted(log, n, Refusal)| && s.deaths == |Counted(log, n, Death)|
    decreases n
  {
    if n == 0 {
      forall what: Tally ensures |Counted(log, 0, what)| == 0 {
        assert Counted(log, 0, what) == {};
      }
    } else {
      CountersOverLog(log, n - 1);
      CountsStep(log, n - 1);
      OneMore(log, n - 1, Kept);
      OneMore(log, n - 1, Reuse);
      OneMore(log, n - 1, Refusal);
      OneMore(log, n - 1, Death);
    }
  }

  // ---------- stamps ----------

  /** A known block stays known, under a stamp that never falls, and rises at each rebirth. */
  lemma {:induction false} StampsGrow(log: seq<Event>, i: nat, j: nat, block: nat)
    requires i <= j <= |log| && LegalLog(log[..j]) && Stamp(log[..i], block) != 0
    ensures Stamp(log[..j], block) >= Stamp(log[..i], block)
    ensures Stamp(log[..j], block) == Stamp(log[..i], block) <==> forall k :: i <= k < j ==> !IsBirth(log[k], block)
    decreases j
  {
    if i == j {
    } else {
      Prefixed(log, j - 1);
      StampsGrow(log, i, j - 1, block);
      StampSteps(log, j - 1, block);
    }
  }

  /** A known block gets a new, higher stamp when it is born again, and keeps its stamp otherwise. */
  lemma StampSteps(log: seq<Event>, j: nat, block: nat)
    requires j < |log| && LegalLog(log[..j + 1]) && Stamp(log[..j], block) != 0
    ensures if IsBirth(log[j], block) then Stamp(log[..j + 1], block) > Stamp(log[..j], block)
            else Stamp(log[..j + 1], block) == Stamp(log[..j], block)
  {
    Prefixed(log, j);
    AlwaysTallied(log[..j]);
  }

  lemma {:induction false} LegalPrefix(log: seq<Event>, i: nat)
    requires LegalLog(log) && i <= |log|
    ensures LegalLog(log[..i])
    decreases |log|
  {
    if i == |log| {
      assert log[..i] == log;
    } else {
      LegalPrefix(log[..|log| - 1], i);
      assert log[..|log| - 1][..i] == log[..i];
    }
  }

  /** Two equal, nonzero stamps of a block at two moments say exactly that the block was not born
      again in between. */
  lemma SameStampMeansSameLife(log: seq<Event>, i: nat, j: nat, block: nat)
    requires i <= j <= |log| && LegalLog(log) && Stamp(log[..i], block) != 0
    ensures Stamp(log[..i], block) == Stamp(log[..j], block) <==> forall k :: i <= k < j ==> !IsBirth(log[k], block)
  {
    LegalPrefix(log, j);
    StampsGrow(log, i, j, block);
  }

  /** The record of a block is that of its last birth p, numbered among the births that got a slot, with
      the frame of the last death after p if there is one. */
  lemma {:induction false} RecordIsLastLife(log: seq<Event>, p: nat, n: nat, block: nat)
    requires p < n <= |log| && IsBirth(log[p], block) && log[p].kept
    requires forall k :: p < k < n ==> !IsBirth(log[k], block)
    ensures block in Replay(log[..n]).recs
    ensures var r := Replay(log[..n]).recs[block];
      && r.birth == log[p].frame && r.size == log[p].size && r.serial == |Counted(log, p + 1, Kept)|
      && (r.live <==> forall k :: p < k < n ==> !IsDeath(log[k], block))
      && (r.live ==> r.death == 0x7FFF_FFFF)
      && (forall d :: p < d < n && IsDeath(log[d], block) && (forall k :: d < k < n ==> !IsDeath(log[k], block)) ==>
            r.death == log[d].frame)
    decreases n
  {
    Prefixed(log, n - 1);
    if n == p + 1 {
      CountersOverLog(log, n);
      return;
    }
    RecordIsLastLife(log, p, n - 1, block);
    var r := Replay(log[..n]).recs[block];
    if IsDeath(log[n - 1], block) {
      assert r.death == log[n - 1].frame && !r.live;
    }
  }

  // ---------- the table ----------

  class Spines {
    const tab: array<Slot>
    var ctr: nat
    var births: nat
    var reuses: nat
    var deaths: nat
    var live: int
    var distinct: nat
    var full: nat
    ghost var log: seq<Event>

    ghost predicate Valid()
      reads this, tab
    {
      Probed(tab[..]) && LegalLog(log) && State() == Replay(log)
    }

    ghost function State(): Spine
      reads this, tab
      requires Unique(tab[..])
    {
      Spine(View(tab[..]), ctr, births, reuses, deaths, live, distinct, full)
    }

    constructor ()
      ensures Valid() && fresh(tab) && log == [] && tab.Length == 0x4_0000
    {
      tab := new Slot[CAP](_ => Slot(0, 0, false, 0, 0, 0));
      ctr, births, reuses, deaths, live, distinct, full := 0, 0, 0, 0, 0, 0, 0;
      log := [];
      new;
      assert View(tab[..]) == map[];
    }

    /** A birth. It is turned away exactly when the block is unknown and its 128 slots are taken. */
    method Put(block: nat, size: nat, frame: int)
      requires Valid() && 0 < block < 0x1_0000_0000_0000_0000
      modifies this, tab
      ensures Valid()
      ensures old(block in View(tab[..]) || !RunFull(tab[..], block)) ==>
        log == old(log) + [Event.Put(block, frame, size, true)]
      ensures old(block !in View(tab[..]) && RunFull(tab[..], block)) ==>
        log == old(log) + [Event.Put(block, frame, size, false)]
    {
      var i := 0;
      while i < MAX_PROBE
        invariant i <= MAX_PROBE && Missed(tab[..], block, i)
      {
        var s := Probe(block, i);
        var cur := tab[s].block;
        if cur == block {
          assert tab[..][s].block == block && block in View(tab[..]);
          Revive(s, block, size, frame);
          return;
        }
        if cur == 0 {
          assert tab[..][s].block == 0 && !Taken(tab[..], block, i);
          SearchEnds(tab[..], block, i);
          Fill(i, block, size, frame);
          return;
        }
        assert Taken(tab[..], block, i);
        i := i + 1;
      }
      SearchEnds(tab[..], block, i);
      Appended(log, Event.Put(block, frame, size, false));
      full := full + 1;
      log := log + [Event.Put(block, frame, size, false)];
    }

    /** A known slab handed out again. */
    method Revive(s: nat, block: nat, size: nat, frame: int)
      requires Valid() && block != 0 && s < tab.Length && tab[s].block == block
      modifies this, tab
      ensures Valid() && log == old(log) + [Event.Put(block, frame, size, true)]
    {
      ghost var t := tab[..];
      assert View(t)[block] == t[s];
      var prev := tab[s].live;
      ctr := ctr + 1;
      tab[s] := Slot(block, ctr, true, frame, FRAME_NEVER, size);
      reuses := reuses + 1;
      if !prev {
        live := live + 1;
      }
      assert tab[..] == t[s := tab[s]];
      Overwrite(t, s, tab[s]);
      Appended(log, Event.Put(block, frame, size, true));
      log := log + [Event.Put(block, frame, size, true)];
    }

    /** A fresh slot claimed. */
    method Fill(i: nat, block: nat, size: nat, frame: int)
      requires Valid() && block != 0 && i < MAX_PROBE && Missed(tab[..], block, i)
      requires tab[Probe(block, i)].block == 0 && block !in View(tab[..])
      modifies this, tab
      ensures Valid() && log == old(log) + [Event.Put(block, frame, size, true)]
    {
      ghost var t := tab[..];
      var s := Probe(block, i);
      ctr := ctr + 1;
      tab[s] := Slot(block, ctr, true, frame, FRAME_NEVER, size);
      births := births + 1;
      live := live + 1;
      distinct := distinct + 1;
      assert tab[..] == t[s := tab[s]];
      Claim(t, i, tab[s]);
      Appended(log, Event.Put(block, frame, size, true));
      log := log + [Event.Put(block, frame, size, true)];
    }

    /** The slot of a block, or CAP. */
    method Find(block: nat) returns (s: nat)
      requires Valid() && 0 < block < 0x1_0000_0000_0000_0000
      ensures s < CAP ==> tab[s].block == block && block in View(tab[..]) && View(tab[..])[block] == tab[s]
      ensures s >= CAP ==> block !in View(tab[..])
    {
      var i := 0;
      while i < MAX_PROBE
        invariant i <= MAX_PROBE && Missed(tab[..], block, i)
      {
        s := Probe(block, i);
        var cur := tab[s].block;
        if cur == block {
          assert tab[..][s].block == block;
          return;
        }
        if cur == 0 {
          assert tab[..][s].block == 0;
          SearchEnds(tab[..], block, i);
          return CAP;
        }
        assert Taken(tab[..], block, i);
        i := i + 1;
      }
      SearchEnds(tab[..], block, i);
      s := CAP;
    }

    /** A death: the slot becomes a tombstone; an unknown block is ignored. */
    method Retire(block: nat, frame: int)
      requires Valid() && 0 < block < 0x1_0000_0000_0000_0000
      modifies this, tab
      ensures Valid() && log == old(log) + [Event.Retire(block, frame)]
    {
      ghost var t := tab[..];
      var s := Find(block);
      Appended(log, Event.Retire(block, frame));
      if s < CAP {
        var prev := tab[s].live;
        tab[s] := tab[s].(death := frame, live := false);
        if prev {
          deaths := deaths + 1;
          live := live - 1;
        }
        assert tab[..] == t[s := tab[s]];
        Overwrite(t, s, tab[s]);
      }
      log := log + [Event.Retire(block, frame)];
    }

    method StampOfBlock(block: nat) returns (serial: nat)
      requires Valid() && 0 < block < 0x1_0000_0000_0000_0000
      ensures serial == Stamp(log, block)
    {
      var s := Find(block);
      serial := if s < CAP then tab[s].serial else 0;
    }

    method LiveAt(block: nat) returns (r: bool)
      requires Valid() && 0 < block < 0x1_0000_0000_0000_0000
      ensures r <==> block in Replay(log).recs && Replay(log).recs[block].live
    {
      var s := Find(block);
      r := s < CAP && tab[s].live;
    }

    /** Birth frame, death frame and serial of the latest life the log knows of. */
    method Lookup(block: nat) returns (r: Option<Slot>)
      requires Valid() && 0 < block < 0x1_0000_0000_0000_0000
      ensures r == if block in Replay(log).recs then Some(Replay(log).recs[block]) else None
    {
      var s := Find(block);
      r := if s < CAP then Some(tab[s]) else None;
    }
  }
}

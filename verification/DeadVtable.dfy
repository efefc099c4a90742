/** Unlinking entities with invalid vtables, from the other end of the same lines
    (src/dead_vtable_unlink.cpp). */
module DeadVtable {
  import opened UnitLists
  import LinkRepair

  const WALK: nat := 512
  const U64: nat := 0x1_0000_0000_0000_0000
  const U32: nat := 0x1_0000_0000

  /** A nonzero vtable inside the game module, the offset taken mod 2^64. */
  predicate Alive(base: nat, vt: nat) {
    vt != 0 && (vt - base) % U64 < 0xE0_0000
  }

  /** Some number of turns of the 64-bit ring after the module's base, inside its first 0xE00000 bytes. */
  ghost predicate InModule(base: nat, vt: nat) {
    vt != 0 && exists k: int :: base <= vt + k * 0x1_0000_0000_0000_0000 < base + 0xE0_0000
  }

  lemma AliveIs(base: nat, vt: nat)
    ensures Alive(base, vt) <==> InModule(base, vt)
  {
    var k, r := (vt - base) / U64, (vt - base) % U64;
    assert vt - base == k * U64 + r;
    if Alive(base, vt) {
      assert base <= vt + -k * 0x1_0000_0000_0000_0000 < base + 0xE0_0000;
    }
    if j: int :| base <= vt + j * 0x1_0000_0000_0000_0000 < base + 0xE0_0000 {
      SameTurn(k + j, r, vt + j * U64 - base);
    }
  }

  lemma SameTurn(k: int, r: nat, x: nat)
    requires x == k * U64 + r && r < U64 && x < U64
    ensures x == r
  {
    assert k == 0;
  }

  /** Dispatch bits clear and the line id at its sentinel. */
  function DeadState(state: nat): nat {
    state % U32 / 0x800 * 0x800 + 0x3F8
  }

  // ---------- one removal ----------

  function Unlink(s: Lists, ent: nat, line: nat): (s': Lists)
    requires s.Whole() && line < LINES && ent in s.heap
    ensures s'.Whole() && s'.heap.Keys == s.heap.Keys
  {
    var prev, next := s.heap[ent].fwd, s.heap[ent].back;
    var atTail, atHead := prev == 0 || prev !in s.heap, next == 0 || next !in s.heap;
    var h1 := if atTail then s.heap else s.heap[prev := s.heap[prev].(back := next)];
    var h2 := if atHead then h1 else h1[next := h1[next].(fwd := prev)];
    Lists(h2[ent := h2[ent].(state := DeadState(h2[ent].state), fwd := 0, back := 0)],
          if atHead then s.heads[line := prev] else s.heads, if atTail then s.tails[line := next] else s.tails)
  }

  function ScanLine(s: Lists, base: nat, ent: nat, line: nat, fuel: nat): (s': Lists)
    requires s.Whole() && line < LINES
    ensures s'.Whole() && s'.heap.Keys == s.heap.Keys
    decreases fuel, |s.heap|
  {
    if ent == 0 || fuel == 0 || ent !in s.heap then s
    else
      ScanLine(if Alive(base, s.heap[ent].vt) then s else Unlink(s, ent, line), base, s.heap[ent].back, line, fuel - 1)
  }

  /** The first n lines scanned. */
  function Scan(s: Lists, base: nat, n: nat): (s': Lists)
    requires s.Whole() && n <= LINES
    ensures s'.Whole() && s'.heap.Keys == s.heap.Keys
    decreases n, |s.heap|
  {
    if n == 0 then s else var a := Scan(s, base, n - 1); ScanLine(a, base, a.tails[n - 1], n - 1, WALK)
  }

  method UnlinkFromScheduler(q: Scheduler, ent: nat, line: nat)
    requires q.Valid() && line < LINES && ent in q.heap
    modifies q, q.heads, q.tails
    ensures q.Valid() && q.Now() == Unlink(old(q.Now()), ent, line)
  {
    var prev, next := q.heap[ent].fwd, q.heap[ent].back;
    if prev != 0 && prev in q.heap {
      q.heap := q.heap[prev := q.heap[prev].(back := next)];
    } else {
      q.tails[line] := next;
    }
    if next != 0 && next in q.heap {
      q.heap := q.heap[next := q.heap[next].(fwd := prev)];
    } else {
      q.heads[line] := prev;
    }
    q.heap := q.heap[ent := q.heap[ent].(state := DeadState(q.heap[ent].state))];
    q.heap := q.heap[ent := q.heap[ent].(fwd := 0)];
    q.heap := q.heap[ent := q.heap[ent].(back := 0)];
  }

  method Validate(q: Scheduler, base: nat)
    requires q.Valid()
    modifies q, q.heads, q.tails
    ensures q.Valid() && q.Now() == Scan(old(q.Now()), base, LINES)
  {
    for line := 0 to LINES
      invariant q.Valid() && q.Now() == Scan(old(q.Now()), base, line)
    {
      var ent, walk := q.tails[line], 0;
      ghost var done := ScanLine(q.Now(), base, ent, line, WALK);
      while ent != 0 && walk < WALK
        invariant q.Valid() && walk <= WALK && done == ScanLine(q.Now(), base, ent, line, WALK - walk)
        decreases WALK - walk
      {
        if ent !in q.heap {
          break;
        }
        var next, vt := q.heap[ent].back, q.heap[ent].vt;
        if !Alive(base, vt) {
          UnlinkFromScheduler(q, ent, line);
        }
        ent := next;
        walk := walk + 1;
      }
    }
  }

  // ---------- healthy lines ----------

  predicate InMemory(heap: Heap, v: seq<nat>) {
    forall i :: 0 <= i < |v| ==> v[i] in heap
  }

  function At(v: seq<nat>, i: int): nat {
    if 0 <= i < |v| then v[i] else 0
  }

  ghost predicate Joined(heap: Heap, v: seq<nat>, i: nat)
    requires i < |v|
  {
    Canon(v[i]) && v[i] in heap && heap[v[i]].fwd == At(v, i - 1) && heap[v[i]].back == At(v, i + 1)
  }

  ghost predicate AllJoined(heap: Heap, v: seq<nat>) {
    forall i :: 0 <= i < |v| ==> Joined(heap, v, i)
  }

  /** The line holds the entities v, from its tail slot to its head slot, linked both ways. */
  ghost predicate Holds(s: Lists, line: nat, v: seq<nat>)
    requires s.Whole() && line < LINES
  {
    s.tails[line] == At(v, 0) && s.heads[line] == At(v, |v| - 1) && AllJoined(s.heap, v)
  }

  lemma {:induction false} NoRepeats(heap: Heap, v: seq<nat>, i: nat, j: nat)
    requires AllJoined(heap, v) && i < j < |v|
    ensures v[i] != v[j]
    decreases |v| - j
  {
    assert Joined(heap, v, i) && Joined(heap, v, j);
    if v[i] == v[j] {
      assert Joined(heap, v, i + 1);
      if j + 1 < |v| {
        NoRepeats(heap, v, i + 1, j + 1);
      }
    }
  }

  function Without(v: seq<nat>, i: nat): (r: seq<nat>)
    requires i < |v|
    ensures |r| == |v| - 1 && forall k :: 0 <= k < |r| ==> r[k] == if k < i then v[k] else v[k + 1]
  {
    v[..i] + v[i + 1..]
  }

  ghost predicate SameVt(h: Heap, h': Heap) {
    h'.Keys == h.Keys && forall x :: x in h ==> h'[x].vt == h[x].vt
  }

  /** What work on one line of entities u may change. */
  ghost predicate LineOnly(s: Lists, s': Lists, line: nat, u: set<nat>)
    requires s.Whole() && s'.Whole()
  {
    && SameVt(s.heap, s'.heap)
    && (forall l :: 0 <= l < LINES && l != line ==> s'.heads[l] == s.heads[l] && s'.tails[l] == s.tails[l])
    && (forall x :: x in s.heap && x !in u ==> s'.heap[x] == s.heap[x])
  }

  ghost predicate Within(v: seq<nat>, u: set<nat>) {
    forall x :: x in v ==> x in u
  }

  /** Removing one entity leaves the rest of its line linked both ways, and nothing else touched. */
  lemma Removed(s: Lists, line: nat, v: seq<nat>, i: nat, u: set<nat>)
    requires s.Whole() && line < LINES && Holds(s, line, v) && i < |v| && v[i] in s.heap && Within(v, u)
    ensures var s' := Unlink(s, v[i], line);
      Holds(s', line, Without(v, i)) && LineOnly(s, s', line, u)
  {
    var s', r := Unlink(s, v[i], line), Without(v, i);
    assert Joined(s.heap, v, i);
    if i > 0 {
      assert Joined(s.heap, v, i - 1);
    }
    if i + 1 < |v| {
      assert Joined(s.heap, v, i + 1);
    }
    forall k | 0 <= k < |r| ensures Joined(s'.heap, r, k) {
      var p := if k < i then k else k + 1;
      assert Joined(s.heap, v, p);
      OthersDiffer(s.heap, v, p);
    }
  }

  /** An entity removed from its line: links cleared, sentinel line id, no dispatch bits. */
  function Mark(e: Entity): Entity {
    Entity(e.vt, DeadState(e.state), 0, 0)
  }

  /** The vtable is kept, both links are cleared, the low eleven bits of the 32-bit state word read 0x3f8,
      and the others are as they were. */
  ghost predicate Marked(e: Entity, e': Entity) {
    && e'.vt == e.vt && e'.fwd == 0 && e'.back == 0
    && e'.state % 0x800 == 0x3f8 && e'.state / 0x800 == e.state % 0x1_0000_0000 / 0x800
  }

  lemma MarkIs(e: Entity)
    ensures Marked(e, Mark(e))
  {
    var q := e.state % U32 / 0x800;
    assert (q * 0x800 + 0x3F8) / 0x800 == q && (q * 0x800 + 0x3F8) % 0x800 == 0x3F8;
  }

  lemma RemovedMarks(s: Lists, line: nat, v: seq<nat>, i: nat)
    requires s.Whole() && line < LINES && Holds(s, line, v) && i < |v| && v[i] in s.heap
    ensures var s' := Unlink(s, v[i], line);
      && s'.heap[v[i]] == Mark(s.heap[v[i]])
      && forall x :: x in s.heap && x != v[i] ==> s'.heap[x].state == s.heap[x].state
  {
    assert Joined(s.heap, v, i);
    OthersDiffer(s.heap, v, i);
  }

  lemma OthersDiffer(heap: Heap, v: seq<nat>, p: nat)
    requires AllJoined(heap, v) && p < |v|
    ensures forall m :: 0 <= m < |v| && m != p ==> v[m] != v[p]
  {
    forall m | 0 <= m < |v| && m != p ensures v[m] != v[p] {
      if m < p {
        NoRepeats(heap, v, m, p);
      } else {
        NoRepeats(heap, v, p, m);
      }
    }
  }

  // ---------- a whole scan ----------

  /** Entity x is somewhere on the line v, past the walk's n entities or with a vtable of the module. */
  ghost predicate Survives(heap: Heap, base: nat, v: seq<nat>, n: nat, x: nat)
    requires InMemory(heap, v)
  {
    exists i :: 0 <= i < |v| && v[i] == x && (i >= n || InModule(base, heap[x].vt))
  }

  /** Kept are exactly those. */
  lemma {:induction false} KeptIs(heap: Heap, base: nat, v: seq<nat>, n: nat, x: nat)
    requires InMemory(heap, v)
    ensures x in Kept(heap, base, v, n) <==> Survives(heap, base, v, n, x)
    decreases n
  {
    if v == [] {
    } else if n == 0 {
      if x in v {
        var i :| 0 <= i < |v| && v[i] == x;
        assert Survives(heap, base, v, n, x);
      }
    } else {
      KeptIs(heap, base, v[1..], n - 1, x);
      AliveIs(base, heap[v[0]].vt);
      SurvivesNext(heap, base, v, n, x);
    }
  }

  lemma SurvivesNext(heap: Heap, base: nat, v: seq<nat>, n: nat, x: nat)
    requires InMemory(heap, v) && v != [] && n > 0
    ensures Survives(heap, base, v, n, x) <==>
      (v[0] == x && InModule(base, heap[x].vt)) || Survives(heap, base, v[1..], n - 1, x)
  {
    if v[0] == x && InModule(base, heap[x].vt) {
      assert Survives(heap, base, v, n, x);
    }
    if Survives(heap, base, v[1..], n - 1, x) {
      var i :| 0 <= i < |v| - 1 && v[1..][i] == x && (i >= n - 1 || InModule(base, heap[x].vt));
      assert v[i + 1] == x;
    }
    if i :| 0 < i < |v| && v[i] == x && (i >= n || InModule(base, heap[x].vt)) {
      assert v[1..][i - 1] == x;
    }
  }

  /** v with the dead ones among its first n entities left out. */
  function Kept(heap: Heap, base: nat, v: seq<nat>, n: nat): seq<nat>
    requires InMemory(heap, v)
    decreases n, |heap|
  {
    if v == [] || n == 0 then v
    else (if Alive(base, heap[v[0]].vt) then [v[0]] else []) + Kept(heap, base, v[1..], n - 1)
  }

  lemma {:induction false} KeptSame(h: Heap, h': Heap, base: nat, v: seq<nat>, n: nat)
    requires SameVt(h, h') && InMemory(h, v)
    ensures Kept(h', base, v, n) == Kept(h, base, v, n)
    decreases n
  {
    if v == [] || n == 0 {
    } else {
      KeptSame(h, h', base, v[1..], n - 1);
    }
  }

  lemma LineOnlyJoins(s: Lists, s1: Lists, s2: Lists, line: nat, u: set<nat>)
    requires s.Whole() && s1.Whole() && s2.Whole() && LineOnly(s, s1, line, u) && LineOnly(s1, s2, line, u)
    ensures LineOnly(s, s2, line, u)
  {
  }

  lemma First(s: Lists, line: nat, k: seq<nat>, v: seq<nat>)
    requires s.Whole() && line < LINES && Holds(s, line, k + v) && v != []
    ensures (k + v)[|k|] == v[0] != 0 && v[0] in s.heap && s.heap[v[0]].back == At(v[1..], 0)
    ensures Without(k + v, |k|) == k + v[1..] && v[0] !in k + v[1..]
  {
    assert Joined(s.heap, k + v, |k|);
    OthersDiffer(s.heap, k + v, |k|);
    var r := Without(k + v, |k|);
    assert r == k + v[1..];
    forall m | 0 <= m < |r| ensures r[m] != v[0] {
      assert r[m] == (k + v)[if m < |k| then m else m + 1];
    }
  }

  /** One turn of the scan over the entities v still ahead, k having been kept so far. */
  function Turned(s: Lists, base: nat, line: nat, v: seq<nat>): (s': Lists)
    requires s.Whole() && line < LINES && v != [] && v[0] in s.heap
    ensures s'.Whole()
  {
    if Alive(base, s.heap[v[0]].vt) then s else Unlink(s, v[0], line)
  }

  function KeptSoFar(s: Lists, base: nat, k: seq<nat>, v: seq<nat>): seq<nat>
    requires v != [] && v[0] in s.heap
  {
    if Alive(base, s.heap[v[0]].vt) then k + [v[0]] else k
  }

  /** The line stays linked, and nothing off the line changes. */
  lemma TurnHolds(s: Lists, base: nat, line: nat, k: seq<nat>, v: seq<nat>, u: set<nat>)
    requires s.Whole() && line < LINES && Holds(s, line, k + v) && v != [] && v[0] in s.heap && Within(k + v, u)
    ensures Holds(Turned(s, base, line, v), line, KeptSoFar(s, base, k, v) + v[1..])
    ensures LineOnly(s, Turned(s, base, line, v), line, u) && Within(KeptSoFar(s, base, k, v) + v[1..], u)
  {
    First(s, line, k, v);
    if Alive(base, s.heap[v[0]].vt) {
      assert k + v == k + [v[0]] + v[1..];
    } else {
      Removed(s, line, k + v, |k|, u);
    }
  }

  lemma TurnScans(s: Lists, base: nat, line: nat, k: seq<nat>, v: seq<nat>, fuel: nat)
    requires s.Whole() && line < LINES && Holds(s, line, k + v) && v != [] && v[0] in s.heap && fuel > 0
    ensures ScanLine(s, base, At(v, 0), line, fuel) ==
      ScanLine(Turned(s, base, line, v), base, At(v[1..], 0), line, fuel - 1)
  {
    First(s, line, k, v);
  }

  lemma TurnKeeps(s: Lists, base: nat, k: seq<nat>, v: seq<nat>, fuel: nat)
    requires v != [] && fuel > 0 && InMemory(s.heap, v)
    ensures k + Kept(s.heap, base, v, fuel) == KeptSoFar(s, base, k, v) + Kept(s.heap, base, v[1..], fuel - 1)
  {
    var rest := Kept(s.heap, base, v[1..], fuel - 1);
    assert [] + rest == rest && k + ([v[0]] + rest) == k + [v[0]] + rest;
  }

  /** A dead entity is marked and leaves the line; the entities ahead keep their state. */
  lemma TurnMarks(s: Lists, base: nat, line: nat, k: seq<nat>, v: seq<nat>)
    requires s.Whole() && line < LINES && Holds(s, line, k + v) && v != [] && v[0] in s.heap
    ensures !Alive(base, s.heap[v[0]].vt) ==>
      Turned(s, base, line, v).heap[v[0]] == Mark(s.heap[v[0]]) && v[0] !in KeptSoFar(s, base, k, v) + v[1..]
    ensures forall i :: 0 < i < |v| && v[i] in s.heap ==>
      Turned(s, base, line, v).heap[v[i]].state == s.heap[v[i]].state
  {
    First(s, line, k, v);
    if !Alive(base, s.heap[v[0]].vt) {
      RemovedMarks(s, line, k + v, |k|);
      forall i | 0 < i < |v| ensures v[i] != v[0] {
        assert v[1..][i - 1] == v[i] && v[i] in k + v[1..];
      }
    }
  }

  /** One turn: the line stays linked, the walk goes on, and nothing off the line changes. A dead entity at
      its head is marked and leaves; the one at i, further on, keeps its state. */
  lemma Turn(s: Lists, base: nat, line: nat, k: seq<nat>, v: seq<nat>, fuel: nat, u: set<nat>, i: nat)
    returns (s1: Lists, k1: seq<nat>, u1: set<nat>)
    requires s.Whole() && line < LINES && Holds(s, line, k + v) && v != [] && fuel > 0 && Within(k + v, u)
    requires InMemory(s.heap, v)
    ensures s1.Whole() && Holds(s1, line, k1 + v[1..]) && LineOnly(s, s1, line, u) && Within(k1 + v[1..], u)
    ensures InMemory(s1.heap, v[1..])
    ensures ScanLine(s, base, At(v, 0), line, fuel) == ScanLine(s1, base, At(v[1..], 0), line, fuel - 1)
    ensures k1 == KeptSoFar(s, base, k, v) && Within(k1 + v[1..], u1)
    ensures !Alive(base, s.heap[v[0]].vt) ==> s1.heap[v[0]] == Mark(s.heap[v[0]]) && v[0] !in u1
    ensures 0 < i < |v| ==> Mark(s1.heap[v[i]]) == Mark(s.heap[v[i]])
  {
    s1, k1 := Turned(s, base, line, v), KeptSoFar(s, base, k, v);
    TurnHolds(s, base, line, k, v, u);
    TurnScans(s, base, line, k, v, fuel);
    TurnMarks(s, base, line, k, v);
    u1 := if Alive(base, s.heap[v[0]].vt) then u else u - {v[0]};
  }

  /** A scan touches nothing but the entities of its line. */
  lemma {:induction false} ScanLineOnly(
      s: Lists, base: nat, line: nat, k: seq<nat>, v: seq<nat>, fuel: nat, u: set<nat>)
    requires s.Whole() && line < LINES && Holds(s, line, k + v) && Within(k + v, u)
    requires InMemory(s.heap, v)
    ensures LineOnly(s, ScanLine(s, base, At(v, 0), line, fuel), line, u)
    decreases fuel
  {
    if v == [] || fuel == 0 {
    } else {
      var s1, k1, u1 := Turn(s, base, line, k, v, fuel, u, fuel);
      ScanLineOnly(s1, base, line, k1, v[1..], fuel - 1, u);
      LineOnlyJoins(s, s1, ScanLine(s1, base, At(v[1..], 0), line, fuel - 1), line, u);
    }
  }

  lemma {:induction false} ScanKeeps(
      s: Lists, base: nat, line: nat, k: seq<nat>, v: seq<nat>, fuel: nat, u: set<nat>)
    requires s.Whole() && line < LINES && Holds(s, line, k + v) && Within(k + v, u)
    requires InMemory(s.heap, v)
    ensures Holds(ScanLine(s, base, At(v, 0), line, fuel), line, k + Kept(s.heap, base, v, fuel))
    decreases fuel
  {
    if v == [] || fuel == 0 {
    } else {
      var s1, k1, u1 := Turn(s, base, line, k, v, fuel, u, fuel);
      TurnKeeps(s, base, k, v, fuel);
      ScanKeeps(s1, base, line, k1, v[1..], fuel - 1, u);
      KeptSame(s.heap, s1.heap, base, v[1..], fuel - 1);
    }
  }

  ghost function Entities(v: seq<nat>): (u: set<nat>)
    ensures forall x :: x in u <==> x in v
  {
    set x | x in v
  }

  /** What has left the line is not touched again. */
  lemma LeftAlone(
      s: Lists, s': Lists, base: nat, line: nat, k: seq<nat>, v: seq<nat>, fuel: nat, u: set<nat>, x: nat)
    requires s.Whole() && line < LINES && Holds(s, line, k + v) && Within(k + v, u) && x in s.heap && x !in u
    requires InMemory(s.heap, v)
    requires s' == ScanLine(s, base, At(v, 0), line, fuel)
    ensures x in s'.heap && s'.heap[x] == s.heap[x]
  {
    ScanLineOnly(s, base, line, k, v, fuel, u);
  }

  /** The head entity, if dead, carries the mark for good. */
  lemma HeadMarked(
      s: Lists, s': Lists, base: nat, line: nat, k: seq<nat>, v: seq<nat>, fuel: nat, u: set<nat>)
    requires s.Whole() && line < LINES && Holds(s, line, k + v) && v != [] && fuel > 0 && Within(k + v, u)
    requires InMemory(s.heap, v)
    requires !Alive(base, s.heap[v[0]].vt) && s' == ScanLine(s, base, At(v, 0), line, fuel)
    ensures v[0] in s'.heap && s'.heap[v[0]] == Mark(s.heap[v[0]])
  {
    var s1, k1, u1 := Turn(s, base, line, k, v, fuel, u, fuel);
    LeftAlone(s1, s', base, line, k1, v[1..], fuel - 1, u1, v[0]);
  }

  /** The dead entities that were scanned carry the mark, with both links cleared. */
  lemma {:induction false} ScanMarks(
      s: Lists, s': Lists, base: nat, line: nat, k: seq<nat>, v: seq<nat>, fuel: nat, u: set<nat>, i: nat)
    requires s.Whole() && line < LINES && Holds(s, line, k + v) && Within(k + v, u)
    requires InMemory(s.heap, v)
    requires i < |v| && i < fuel && !InModule(base, s.heap[v[i]].vt)
    requires s' == ScanLine(s, base, At(v, 0), line, fuel)
    ensures v[i] in s'.heap && s'.heap[v[i]] == Mark(s.heap[v[i]]) && Marked(s.heap[v[i]], s'.heap[v[i]])
    decreases fuel
  {
    AliveIs(base, s.heap[v[i]].vt);
    MarkIs(s.heap[v[i]]);
    if i == 0 {
      HeadMarked(s, s', base, line, k, v, fuel, u);
    } else {
      var s1, k1, u1 := Turn(s, base, line, k, v, fuel, u, i);
      assert v[1..][i - 1] == v[i];
      ScanMarks(s1, s', base, line, k1, v[1..], fuel - 1, u, i - 1);
    }
  }

  /** Every line holds its own entities. */
  ghost predicate Healthy(s: Lists, lines: seq<seq<nat>>) {
    && s.Whole() && |lines| == LINES
    && (forall l :: 0 <= l < LINES ==> Holds(s, l, lines[l]))
    && (forall l, m, x :: 0 <= l < LINES && 0 <= m < LINES && x in lines[l] && x in lines[m] ==> l == m)
  }

  /** Every line with its dead entities left out. */
  ghost function Filtered(heap: Heap, base: nat, lines: seq<seq<nat>>, n: nat): (r: seq<seq<nat>>)
    requires forall l, i :: 0 <= l < |lines| && 0 <= i < |lines[l]| ==> lines[l][i] in heap
    ensures |r| == |lines|
  {
    seq(|lines|, l requires 0 <= l < |lines| => if l < n then Kept(heap, base, lines[l], WALK) else lines[l])
  }

  lemma {:induction false} KeptWithin(heap: Heap, base: nat, v: seq<nat>, n: nat)
    requires InMemory(heap, v)
    ensures forall x :: x in Kept(heap, base, v, n) ==> x in v
    decreases n
  {
    if v == [] || n == 0 {
    } else {
      KeptWithin(heap, base, v[1..], n - 1);
    }
  }

  lemma StillHolds(s: Lists, s': Lists, line: nat, u: set<nat>, l: nat, w: seq<nat>)
    requires s.Whole() && s'.Whole() && line < LINES && l < LINES && l != line && LineOnly(s, s', line, u)
    requires Holds(s, l, w) && forall x :: x in w ==> x !in u
    ensures Holds(s', l, w)
  {
    forall i | 0 <= i < |w| ensures Joined(s'.heap, w, i) {
      assert Joined(s.heap, w, i);
    }
  }

  lemma InHeap(s: Lists, lines: seq<seq<nat>>)
    requires Healthy(s, lines)
    ensures forall l, i :: 0 <= l < |lines| && 0 <= i < |lines[l]| ==> lines[l][i] in s.heap
  {
    forall l, i | 0 <= l < |lines| && 0 <= i < |lines[l]| ensures lines[l][i] in s.heap {
      assert Holds(s, l, lines[l]) && Joined(s.heap, lines[l], i);
    }
  }

  /** One line scanned, the others not looked at. */
  lemma OneLineFiltered(s: Lists, base: nat, lines: seq<seq<nat>>, line: nat, kept: seq<nat>)
    requires Healthy(s, lines) && line < LINES && forall i :: 0 <= i < |lines[line]| ==> lines[line][i] in s.heap
    requires kept == Kept(s.heap, base, lines[line], WALK)
    ensures var s' := ScanLine(s, base, s.tails[line], line, WALK);
      Healthy(s', lines[line := kept]) && SameVt(s.heap, s'.heap)
  {
    var s', v := ScanLine(s, base, s.tails[line], line, WALK), lines[line];
    assert Holds(s, line, v) && [] + v == v && [] + kept == kept;
    var u := Entities(v);
    ScanKeeps(s, base, line, [], v, WALK, u);
    ScanLineOnly(s, base, line, [], v, WALK, u);
    KeptWithin(s.heap, base, v, WALK);
    var lines' := lines[line := kept];
    forall l | 0 <= l < LINES ensures Holds(s', l, lines'[l]) {
      if l != line {
        assert Holds(s, l, lines[l]);
        StillHolds(s, s', line, u, l, lines[l]);
      }
    }
    forall l, m, x | 0 <= l < LINES && 0 <= m < LINES && x in lines'[l] && x in lines'[m] ensures l == m {
      assert x in lines[l] && x in lines[m];
    }
  }

  /** A scan turns each healthy line into its living entities, in order, linked both ways, with both
      end slots right. */
  lemma {:induction false} ScanFilters(s: Lists, base: nat, lines: seq<seq<nat>>, n: nat)
    requires Healthy(s, lines) && n <= LINES
    requires forall l, i :: 0 <= l < |lines| && 0 <= i < |lines[l]| ==> lines[l][i] in s.heap
    ensures Healthy(Scan(s, base, n), Filtered(s.heap, base, lines, n)) && SameVt(s.heap, Scan(s, base, n).heap)
    decreases n
  {
    if n == 0 {
      assert Filtered(s.heap, base, lines, 0) == lines;
    } else {
      var before := Filtered(s.heap, base, lines, n - 1);
      var a, v := Scan(s, base, n - 1), lines[n - 1];
      ScanFilters(s, base, lines, n - 1);
      KeptSame(s.heap, a.heap, base, v, WALK);
      OneLineFiltered(a, base, before, n - 1, Kept(s.heap, base, v, WALK));
      assert Filtered(s.heap, base, lines, n) == before[n - 1 := Kept(s.heap, base, v, WALK)];
    }
  }

  /** After the whole scan a line has exactly those of its entities that stand past the 512 the walk looks
      at or have a vtable of the module. */
  lemma WhoStays(s: Lists, base: nat, lines: seq<seq<nat>>, l: nat, x: nat)
    requires Healthy(s, lines) && l < LINES
    requires forall k, i :: 0 <= k < |lines| && 0 <= i < |lines[k]| ==> lines[k][i] in s.heap
    ensures x in Filtered(s.heap, base, lines, LINES)[l] <==>
      exists i :: 0 <= i < |lines[l]| && lines[l][i] == x && (i >= 512 || InModule(base, s.heap[x].vt))
  {
    KeptIs(s.heap, base, lines[l], WALK, x);
  }

  /** Scanning a line does not touch what was on another. */
  lemma OffLine(s: Lists, base: nat, lines: seq<seq<nat>>, n: nat, x: nat)
    requires Healthy(s, lines) && n < LINES && x in s.heap && x !in lines[n]
    requires forall l, i :: 0 <= l < |lines| && 0 <= i < |lines[l]| ==> lines[l][i] in s.heap
    ensures Scan(s, base, n + 1).heap[x] == Scan(s, base, n).heap[x]
  {
    var a, v := Scan(s, base, n), lines[n];
    ScanFilters(s, base, lines, n);
    assert Filtered(s.heap, base, lines, n)[n] == v && Holds(a, n, v) && [] + v == v;
    ScanLineOnly(a, base, n, [], v, WALK, Entities(v));
  }

  lemma {:induction false} NotYetScanned(s: Lists, base: nat, lines: seq<seq<nat>>, n: nat, l: nat, x: nat)
    requires Healthy(s, lines) && n <= l < LINES && x in lines[l] && x in s.heap
    requires forall k, i :: 0 <= k < |lines| && 0 <= i < |lines[k]| ==> lines[k][i] in s.heap
    ensures Scan(s, base, n).heap[x] == s.heap[x]
    decreases n
  {
    if n == 0 {
    } else {
      NotYetScanned(s, base, lines, n - 1, l, x);
      OffLine(s, base, lines, n - 1, x);
    }
  }

  /** After the scan every entity with a bad vtable among the first 512 of its line is marked dead. */
  lemma {:induction false} DeadMarked(s: Lists, base: nat, lines: seq<seq<nat>>, n: nat, l: nat, i: nat)
    requires Healthy(s, lines) && l < n <= LINES && i < |lines[l]| && i < 512
    requires forall k, j :: 0 <= k < |lines| && 0 <= j < |lines[k]| ==> lines[k][j] in s.heap
    requires !InModule(base, s.heap[lines[l][i]].vt)
    ensures Marked(s.heap[lines[l][i]], Scan(s, base, n).heap[lines[l][i]])
    decreases n
  {
    var a, v := Scan(s, base, n - 1), lines[l];
    if n == l + 1 {
      NotYetScanned(s, base, lines, l, l, v[i]);
      ScanFilters(s, base, lines, l);
      assert Filtered(s.heap, base, lines, l)[l] == v && Holds(a, l, v) && [] + v == v;
      ScanMarks(a, Scan(s, base, n), base, l, [], v, WALK, Entities(v), i);
    } else {
      DeadMarked(s, base, lines, n - 1, l, i);
      OffLine(s, base, lines, n - 1, v[i]);
    }
  }

  // ---------- and then the sever pass ----------

  lemma {:induction false} EndsClean(s: Lists, line: nat, v: seq<nat>, i: nat, fuel: nat)
    requires s.Whole() && line < LINES && Holds(s, line, v) && i < |v| && v[i] in s.heap
    ensures var w := LinkRepair.Reach(s.heap, v[i], fuel);
      |w| <= fuel ==> s.heap[LinkRepair.Last(w)].fwd == 0
    decreases i
  {
    assert Joined(s.heap, v, i);
    if i == 0 || fuel == 0 {
    } else {
      assert Joined(s.heap, v, i - 1);
      EndsClean(s, line, v, i - 1, fuel - 1);
      var w, u := LinkRepair.Reach(s.heap, v[i], fuel), LinkRepair.Reach(s.heap, v[i - 1], fuel - 1);
      assert w == [v[i]] + u && LinkRepair.Last(w) == LinkRepair.Last(u);
    }
  }

  lemma {:induction false} HealthySeversNothing(s: Lists, lines: seq<seq<nat>>, n: nat)
    requires Healthy(s, lines) && n <= LINES
    ensures LinkRepair.Pass(s, n) == s && LinkRepair.PassSevers(s, n) == 0
    decreases n
  {
    if n == 0 {
    } else {
      HealthySeversNothing(s, lines, n - 1);
      var line := n - 1;
      var v := lines[line];
      assert Holds(s, line, v);
      if v != [] {
        assert Joined(s.heap, v, |v| - 1);
        EndsClean(s, line, v, |v| - 1, LinkRepair.GUARD);
      }
    }
  }

  /** The sever pass, which walks the same lines from the other end, finds nothing to do after a
      scan of a healthy scheduler. */
  lemma ScanThenSeverNothing(s: Lists, base: nat, lines: seq<seq<nat>>, n: nat)
    requires Healthy(s, lines) && n <= LINES
    ensures var s' := Scan(s, base, LINES); LinkRepair.Pass(s', n) == s' && LinkRepair.PassSevers(s', n) == 0
  {
    InHeap(s, lines);
    ScanFilters(s, base, lines, LINES);
    HealthySeversNothing(Scan(s, base, LINES), Filtered(s.heap, base, lines, LINES), n);
  }
}

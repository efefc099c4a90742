/** Severing torn links after a rollback (src/coherent_set_repair.cpp). */
module LinkRepair {
  import opened UnitLists

  const GUARD: nat := 4096

  predicate Torn(heap: Heap, next: nat, node: nat) {
    !Canon(next) || next !in heap || heap[next].back != node
  }

  predicate Skipped(line: nat) {
    line == 7 || line == 8
  }

  predicate HeadTorn(s: Lists, line: nat)
    requires s.Whole() && line < LINES
  {
    s.heads[line] != 0 && (!Canon(s.heads[line]) || s.heads[line] !in s.heap)
  }

  /** The line has a first node to walk from. */
  predicate Walked(s: Lists, line: nat)
    requires s.Whole() && line < LINES
  {
    s.heads[line] != 0 && Canon(s.heads[line]) && s.heads[line] in s.heap
  }

  /** The reciprocal links followed from node, at most fuel of them. */
  function Reach(heap: Heap, node: nat, fuel: nat): (w: seq<nat>)
    requires node in heap
    ensures 1 <= |w| <= fuel + 1 && w[0] == node
    ensures forall i :: 0 <= i < |w| ==> w[i] in heap
    decreases fuel, |heap|
  {
    var next := heap[node].fwd;
    if fuel == 0 || next == 0 || Torn(heap, next, node) then [node] else [node] + Reach(heap, next, fuel - 1)
  }

  function Last(w: seq<nat>): nat
    requires w != []
  {
    w[|w| - 1]
  }

  /** One link of a healthy line: forward and back again. */
  ghost predicate Mutual(heap: Heap, a: nat, b: nat) {
    a in heap && b in heap && 0x10000 <= b < 0x7FFF_FFFF_FFFF && heap[a].fwd == b && heap[b].back == a
  }

  ghost predicate Linked(heap: Heap, w: seq<nat>) {
    forall i :: 0 < i < |w| ==> Mutual(heap, w[i - 1], w[i])
  }

  /** Reach is the longest prefix with sound links: each link is mutual, and short of the guard the
      walk stops only where the next link is null or torn. */
  lemma {:induction false} ReachIsLongest(heap: Heap, node: nat, fuel: nat)
    requires node in heap
    ensures var w := Reach(heap, node, fuel);
      && Linked(heap, w)
      && (|w| <= fuel ==> var next := heap[Last(w)].fwd;
            next < 0x10000 || next >= 0x7FFF_FFFF_FFFF || next !in heap || heap[next].back != Last(w))
    decreases fuel
  {
    var next := heap[node].fwd;
    if fuel == 0 || next == 0 || Torn(heap, next, node) {
    } else {
      ReachIsLongest(heap, next, fuel - 1);
      var w, v := Reach(heap, node, fuel), Reach(heap, next, fuel - 1);
      assert w == [node] + v && Last(w) == Last(v);
      forall i | 0 < i < |w| ensures Mutual(heap, w[i - 1], w[i]) {
        if i > 1 {
          assert Mutual(heap, v[i - 2], v[i - 1]);
        }
      }
    }
  }

  // ---------- the pass ----------

  ghost predicate Cuts(s: Lists, line: nat)
    requires s.Whole() && line < LINES && Walked(s, line)
  {
    var w := Reach(s.heap, s.heads[line], GUARD);
    |w| <= GUARD && s.heap[Last(w)].fwd != 0
  }

  ghost function SeverLine(s: Lists, line: nat): (s': Lists)
    requires s.Whole() && line < LINES
    ensures s'.Whole()
  {
    if HeadTorn(s, line) then
      s.(heads := s.heads[line := 0], tails := s.tails[line := 0])
    else if Walked(s, line) && Cuts(s, line) then
      var e := Last(Reach(s.heap, s.heads[line], GUARD));
      s.(heap := s.heap[e := s.heap[e].(fwd := 0)], tails := s.tails[line := e])
    else
      s
  }

  /** What a pass over line counts as severed. */
  ghost function Severs(s: Lists, line: nat): nat
    requires s.Whole() && line < LINES
  {
    if HeadTorn(s, line) || (Walked(s, line) && Cuts(s, line)) then 1 else 0
  }

  /** The first n lines repaired. */
  ghost function Pass(s: Lists, n: nat): (s': Lists)
    requires s.Whole() && n <= LINES
    ensures s'.Whole()
    decreases n, |s.heap|
  {
    if n == 0 then s
    else if Skipped(n - 1) then Pass(s, n - 1)
    else SeverLine(Pass(s, n - 1), n - 1)
  }

  ghost function PassSevers(s: Lists, n: nat): nat
    requires s.Whole() && n <= LINES
    decreases n, |s.heap|
  {
    if n == 0 then 0
    else PassSevers(s, n - 1) + if Skipped(n - 1) then 0 else Severs(Pass(s, n - 1), n - 1)
  }

  method RepairLine(q: Scheduler, line: nat) returns (severed: nat)
    requires q.Valid() && line < LINES
    modifies q, q.heads, q.tails
    ensures q.Valid() && q.Now() == SeverLine(old(q.Now()), line)
    ensures severed == Severs(old(q.Now()), line)
  {
    severed := 0;
    var head := q.heads[line];
    if head == 0 {
      return;
    }
    if !Canon(head) || head !in q.heap {
      q.heads[line] := 0;
      q.tails[line] := 0;
      return 1;
    }
    ghost var whole := Reach(q.heap, head, GUARD);
    var node, guard := head, 0;
    while guard < GUARD
      invariant guard <= GUARD && node in q.heap && q.Now() == old(q.Now())
      invariant guard < |whole| && whole[guard..] == Reach(q.heap, node, GUARD - guard)
      decreases GUARD - guard
    {
      var next := q.heap[node].fwd;
      if next == 0 {
        assert Last(whole) == Last(whole[guard..]);
        return;
      }
      if Torn(q.heap, next, node) {
        assert Last(whole) == Last(whole[guard..]) == node;
        q.heap := q.heap[node := q.heap[node].(fwd := 0)];
        q.tails[line] := node;
        return 1;
      }
      assert whole[guard..][1..] == whole[guard + 1..];
      node := next;
      guard := guard + 1;
    }
  }

  method RepairLinks(q: Scheduler, lineCount: nat) returns (severed: nat)
    requires q.Valid()
    modifies q, q.heads, q.tails
    ensures q.Valid()
    ensures var n := if lineCount > LINES then LINES else lineCount;
      q.Now() == Pass(old(q.Now()), n) && severed == PassSevers(old(q.Now()), n)
  {
    var n := if lineCount > LINES then LINES else lineCount;
    severed := 0;
    for line := 0 to n
      invariant q.Valid() && q.Now() == Pass(old(q.Now()), line) && severed == PassSevers(old(q.Now()), line)
    {
      if !Skipped(line) {
        var one := RepairLine(q, line);
        severed := severed + one;
      }
    }
  }

  // ---------- what a pass does ----------

  /** h' is h with some dead ends cut. */
  ghost predicate OnlyCuts(h: Heap, h': Heap) {
    && h'.Keys == h.Keys
    && forall x :: x in h ==> h'[x] == h[x] || (h'[x] == h[x].(fwd := 0) && Torn(h, h[x].fwd, x))
  }

  lemma {:induction false} SameReach(h: Heap, h': Heap, node: nat, fuel: nat)
    requires OnlyCuts(h, h') && node in h
    ensures Reach(h', node, fuel) == Reach(h, node, fuel)
    decreases fuel
  {
    var next := h[node].fwd;
    if fuel == 0 || next == 0 || Torn(h, next, node) {
    } else {
      assert next in h && !Torn(h', next, node);
      SameReach(h, h', next, fuel - 1);
    }
  }

  lemma CutsCompose(h: Heap, h': Heap, h'': Heap)
    requires OnlyCuts(h, h') && OnlyCuts(h', h'')
    ensures OnlyCuts(h, h'')
  {
    forall x | x in h ensures h''[x] == h[x] || (h''[x] == h[x].(fwd := 0) && Torn(h, h[x].fwd, x)) {
      assert x in h' && x in h'';
      if h''[x] != h'[x] && h'[x] == h[x] {
        assert Torn(h', h[x].fwd, x);
        if h[x].fwd in h {
          assert h'[h[x].fwd].back == h[h[x].fwd].back;
        }
      }
    }
  }

  lemma SeverOnlyCuts(s: Lists, line: nat)
    requires s.Whole() && line < LINES
    ensures OnlyCuts(s.heap, SeverLine(s, line).heap)
  {
    if Walked(s, line) {
      ReachIsLongest(s.heap, s.heads[line], GUARD);
    }
  }

  lemma {:induction false} PassOnlyCuts(s: Lists, n: nat)
    requires s.Whole() && n <= LINES
    ensures OnlyCuts(s.heap, Pass(s, n).heap)
    decreases n
  {
    if n == 0 {
    } else {
      PassOnlyCuts(s, n - 1);
      if !Skipped(n - 1) {
        SeverOnlyCuts(Pass(s, n - 1), n - 1);
        CutsCompose(s.heap, Pass(s, n - 1).heap, Pass(s, n).heap);
      }
    }
  }

  /** A line's slots are as they were before its turn, and as they were made in its turn after it. */
  lemma {:induction false} SlotsKept(s: Lists, m: nat, n: nat, line: nat)
    requires s.Whole() && m <= n <= LINES && line < LINES
    requires line < m || n <= line || line == 7 || line == 8
    ensures Pass(s, n).heads[line] == Pass(s, m).heads[line] && Pass(s, n).tails[line] == Pass(s, m).tails[line]
    decreases n
  {
    if m == n {
    } else {
      SlotsKept(s, m, n - 1, line);
    }
  }

  lemma {:induction false} LaterCuts(s: Lists, m: nat, n: nat)
    requires s.Whole() && m <= n <= LINES
    ensures OnlyCuts(Pass(s, m).heap, Pass(s, n).heap)
    decreases n
  {
    if m == n {
    } else {
      LaterCuts(s, m, n - 1);
      if !Skipped(n - 1) {
        SeverOnlyCuts(Pass(s, n - 1), n - 1);
        CutsCompose(Pass(s, m).heap, Pass(s, n - 1).heap, Pass(s, n).heap);
      }
    }
  }

  /** The null-terminated line of the nodes w. */
  ghost predicate Closed(heap: Heap, w: seq<nat>) {
    w != [] && Linked(heap, w) && Last(w) in heap && heap[Last(w)].fwd == 0
  }

  /** After a pass a torn head has emptied its line; any other line under the guard is its longest
      sound prefix, null-terminated; a line beyond the guard keeps its sound first nodes. */
  lemma LineRepaired(s: Lists, n: nat, line: nat)
    requires s.Whole() && line < n <= LINES && line != 7 && line != 8
    ensures var s', head := Pass(s, n), s.heads[line];
      && (head == 0 ==> s'.heads[line] == 0 && s'.tails[line] == s.tails[line])
      && (head != 0 && (head < 0x10000 || head >= 0x7FFF_FFFF_FFFF || head !in s.heap) ==>
            s'.heads[line] == 0 && s'.tails[line] == 0)
      && (0x10000 <= head < 0x7FFF_FFFF_FFFF && head in s.heap ==>
            var w := Reach(s.heap, head, GUARD);
            && s'.heads[line] == head && head in s'.heap
            && Reach(s'.heap, head, GUARD) == w && Linked(s'.heap, w)
            && (|w| <= 4096 ==> Closed(s'.heap, w)))
  {
    SlotsKept(s, 0, line, line);
    SlotsKept(s, line + 1, n, line);
    PassOnlyCuts(s, line);
    if Walked(s, line) {
      WalkedRepaired(s, n, line);
    }
  }

  lemma WalkedRepaired(s: Lists, n: nat, line: nat)
    requires s.Whole() && line < n <= LINES && !Skipped(line) && Walked(s, line)
    ensures var w, s' := Reach(s.heap, s.heads[line], GUARD), Pass(s, n);
      && s.heads[line] in s'.heap && Reach(s'.heap, s.heads[line], GUARD) == w && Linked(s'.heap, w)
      && (|w| <= GUARD ==> Closed(s'.heap, w))
  {
    var a, b, s' := Pass(s, line), Pass(s, line + 1), Pass(s, n);
    SlotsKept(s, 0, line, line);
    PassOnlyCuts(s, line);
    PassOnlyCuts(s, n);
    LaterCuts(s, line + 1, n);
    SameReach(s.heap, a.heap, s.heads[line], GUARD);
    SameReach(s.heap, s'.heap, s.heads[line], GUARD);
    ReachIsLongest(s'.heap, s.heads[line], GUARD);
    var w := Reach(s.heap, s.heads[line], GUARD);
    if |w| <= GUARD {
      assert b.heap[Last(w)].fwd == 0;
    }
  }

  /** Lines start at nodes without a back link, each at its own. */
  ghost predicate Rooted(s: Lists, n: nat)
    requires s.Whole() && n <= LINES
  {
    && (forall l :: 0 <= l < n && l != 7 && l != 8 && Started(s, l) ==> s.heap[s.heads[l]].back == 0)
    && (forall l, k ::
          (0 <= l < n && 0 <= k < n && l != 7 && l != 8 && k != 7 && k != 8
           && Started(s, l) && s.heads[l] == s.heads[k]) ==> l == k)
  }

  /** Two sound prefixes from nodes without a back link share a node only at the same place, and
      then they start together. */
  lemma {:induction false} Apart(heap: Heap, w: seq<nat>, v: seq<nat>, i: nat, j: nat)
    requires Linked(heap, w) && Linked(heap, v) && i < |w| && j < |v| && w[i] == v[j]
    requires w[0] in heap && heap[w[0]].back == 0 && v[0] in heap && heap[v[0]].back == 0
    requires forall k :: 0 <= k < |w| ==> w[k] != 0
    requires forall k :: 0 <= k < |v| ==> v[k] != 0
    ensures i == j && w[0] == v[0]
    decreases i
  {
    if i > 0 {
      assert Mutual(heap, w[i - 1], w[i]);
    }
    if j > 0 {
      assert Mutual(heap, v[j - 1], v[j]);
    }
    if i == 0 || j == 0 {
    } else {
      Apart(heap, w, v, i - 1, j - 1);
    }
  }

  lemma {:induction false} ReachNonNull(heap: Heap, node: nat, fuel: nat)
    requires node in heap && node != 0
    ensures forall k :: 0 <= k < |Reach(heap, node, fuel)| ==> Reach(heap, node, fuel)[k] != 0
    decreases fuel
  {
    var next := heap[node].fwd;
    if fuel == 0 || next == 0 || Torn(heap, next, node) {
    } else {
      ReachNonNull(heap, next, fuel - 1);
    }
  }

  /** A walk from a node without a back link never comes back to a node it has seen, so it is no
      longer than memory has entities. */
  lemma NeverRevisits(heap: Heap, node: nat, fuel: nat)
    requires node in heap && node != 0 && heap[node].back == 0
    ensures var w := Reach(heap, node, fuel);
      (forall i, j :: 0 <= i < j < |w| ==> w[i] != w[j]) && |w| <= |heap|
  {
    var w := Reach(heap, node, fuel);
    ReachIsLongest(heap, node, fuel);
    ReachNonNull(heap, node, fuel);
    forall i, j | 0 <= i < j < |w| ensures w[i] != w[j] {
      if w[i] == w[j] {
        Apart(heap, w, w, i, j);
      }
    }
    DistinctFits(w, heap.Keys);
  }

  lemma {:induction false} DistinctFits(w: seq<nat>, keys: set<nat>)
    requires forall i, j :: 0 <= i < j < |w| ==> w[i] != w[j]
    requires forall i :: 0 <= i < |w| ==> w[i] in keys
    ensures |w| <= |keys|
  {
    if w == [] {
    } else {
      DistinctFits(w[1..], keys - {w[0]});
    }
  }

  /** Lines of a rooted scheduler share no node within their sound prefixes. */
  lemma PrefixesDisjoint(s: Lists, n: nat, l: nat, k: nat, fuel: nat, i: nat, j: nat)
    requires s.Whole() && n <= LINES && Rooted(s, n) && l < n && k < n && l != k
    requires l != 7 && l != 8 && k != 7 && k != 8 && Started(s, l) && Started(s, k)
    requires i < |Reach(s.heap, s.heads[l], fuel)| && j < |Reach(s.heap, s.heads[k], fuel)|
    ensures Reach(s.heap, s.heads[l], fuel)[i] != Reach(s.heap, s.heads[k], fuel)[j]
  {
    var w, v := Reach(s.heap, s.heads[l], fuel), Reach(s.heap, s.heads[k], fuel);
    ReachIsLongest(s.heap, s.heads[l], fuel);
    ReachIsLongest(s.heap, s.heads[k], fuel);
    ReachNonNull(s.heap, s.heads[l], fuel);
    ReachNonNull(s.heap, s.heads[k], fuel);
    if w[i] == v[j] {
      Apart(s.heap, w, v, i, j);
    }
  }

  /** The line has a first node. */
  ghost predicate Started(s: Lists, line: nat)
    requires s.Whole() && line < LINES
  {
    0x10000 <= s.heads[line] < 0x7FFF_FFFF_FFFF && s.heads[line] in s.heap
  }

  /** e is where some line among the first n ends under the guard. */
  ghost predicate IsEnd(s: Lists, n: nat, e: nat)
    requires s.Whole() && n <= LINES
  {
    exists l :: 0 <= l < n && l != 7 && l != 8 && Started(s, l) && EndOf(s, l) == e
  }

  ghost function EndOf(s: Lists, line: nat): nat
    requires s.Whole() && line < LINES && Started(s, line)
  {
    Last(Reach(s.heap, s.heads[line], GUARD))
  }

  /** Nothing but the ends of walked lines is written. */
  lemma {:induction false} OnlyEndsWritten(s: Lists, n: nat, x: nat)
    requires s.Whole() && n <= LINES && x in s.heap && !IsEnd(s, n, x)
    ensures x in Pass(s, n).heap && Pass(s, n).heap[x] == s.heap[x]
    decreases n
  {
    if n == 0 {
    } else {
      var l := n - 1;
      var a := Pass(s, l);
      OnlyEndsWritten(s, l, x);
      if !Skipped(l) {
        SlotsKept(s, 0, l, l);
        PassOnlyCuts(s, l);
        if Walked(a, l) {
          SameReach(s.heap, a.heap, s.heads[l], GUARD);
          assert Started(s, l) && EndOf(s, l) != x;
        }
      }
    }
  }

  /** In a rooted scheduler a line that had to be cut is re-anchored at its new last node, and any
      other line keeps its tail. */
  lemma TailReanchored(s: Lists, n: nat, line: nat)
    requires s.Whole() && line < n <= LINES && line != 7 && line != 8 && Rooted(s, n) && Started(s, line)
    ensures var e := EndOf(s, line);
      Pass(s, n).tails[line] ==
        if |Reach(s.heap, s.heads[line], GUARD)| <= 4096 && s.heap[e].fwd != 0 then e else s.tails[line]
  {
    var a := Pass(s, line);
    SlotsKept(s, 0, line, line);
    SlotsKept(s, line + 1, n, line);
    PassOnlyCuts(s, line);
    SameReach(s.heap, a.heap, s.heads[line], GUARD);
    OwnEnd(s, n, line);
    OnlyEndsWritten(s, line, EndOf(s, line));
  }

  /** No line of a rooted scheduler ends where an earlier one does. */
  lemma OwnEnd(s: Lists, n: nat, line: nat)
    requires s.Whole() && line < n <= LINES && line != 7 && line != 8 && Rooted(s, n) && Started(s, line)
    ensures !IsEnd(s, line, EndOf(s, line))
  {
    forall l | 0 <= l < line && l != 7 && l != 8 && Started(s, l) ensures EndOf(s, l) != EndOf(s, line) {
      var w, v := Reach(s.heap, s.heads[l], GUARD), Reach(s.heap, s.heads[line], GUARD);
      PrefixesDisjoint(s, n, l, line, GUARD, |w| - 1, |v| - 1);
    }
  }

  ghost predicate Alters(s: Lists, line: nat)
    requires s.Whole() && line < LINES
  {
    Pass(s, line + 1) != Pass(s, line)
  }

  /** The lines among the first n whose turn changed something. */
  ghost function Changed(s: Lists, n: nat): set<nat>
    requires s.Whole() && n <= LINES
  {
    set l: nat | l < n && Alters(s, l)
  }

  lemma SeversIs(s: Lists, line: nat)
    requires s.Whole() && line < LINES
    ensures Severs(s, line) == if SeverLine(s, line) != s then 1 else 0
  {
    if Walked(s, line) && Cuts(s, line) {
      var e := Last(Reach(s.heap, s.heads[line], GUARD));
      assert SeverLine(s, line).heap[e].fwd == 0;
    } else if HeadTorn(s, line) {
      assert SeverLine(s, line).heads[line] == 0;
    }
  }

  lemma TurnCounts(s: Lists, n: nat)
    requires s.Whole() && n < LINES
    ensures PassSevers(s, n + 1) == PassSevers(s, n) + if Alters(s, n) then 1 else 0
  {
    SeversIs(Pass(s, n), n);
  }

  /** The count a pass returns is the number of lines it changed. */
  lemma {:induction false} CountsChanges(s: Lists, n: nat)
    requires s.Whole() && n <= LINES
    ensures PassSevers(s, n) == |Changed(s, n)|
    decreases n
  {
    if n == 0 {
      assert Changed(s, 0) == {};
    } else {
      CountsChanges(s, n - 1);
      TurnCounts(s, n - 1);
      var a := Changed(s, n - 1);
      assert Changed(s, n) == if Alters(s, n - 1) then a + {n - 1} else a;
    }
  }

  lemma Settled(s: Lists, n: nat, line: nat)
    requires s.Whole() && line < n <= LINES && !Skipped(line)
    ensures SeverLine(Pass(s, n), line) == Pass(s, n) && Severs(Pass(s, n), line) == 0
  {
    LineRepaired(s, n, line);
  }

  /** A second pass severs nothing, whatever memory looked like before the first. */
  lemma {:induction false} SecondPassSeversNothing(s: Lists, n: nat, m: nat)
    requires s.Whole() && m <= n <= LINES
    ensures Pass(Pass(s, n), m) == Pass(s, n) && PassSevers(Pass(s, n), m) == 0
    decreases m
  {
    if m == 0 {
    } else {
      SecondPassSeversNothing(s, n, m - 1);
      if !Skipped(m - 1) {
        Settled(s, n, m - 1);
      }
    }
  }
}

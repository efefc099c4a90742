/** Capturing each effect's child list at save and re-threading it by identity after a restore
    (src/byid.cpp). Memory is one record per committed object. */
module Rethread {
  const WALK_MAX: nat := 512
  const MAX_EDGES: nat := 8192
  const LINES: nat := 128
  const HEAD_OFF: nat := 0x218
  const NEXT_OFF: nat := 0x18
  const U32: nat := 0x1_0000_0000
  const RING: nat := 64

  /** Word 0, the owner at +0x10, the next child at +0x18, the next entity of the line at +0x20, the
      consume gate at +0x128, and the first child at +0x218. */
  datatype Obj = Obj(vt: nat, owner: nat, next: nat, lineNext: nat, gate: nat, kids: nat)

  type Heap = map<nat, Obj>

  datatype Carrier = Effect | EntRef | Tail

  /** A captured link; idA is the line, and idB the position within the child list. */
  datatype Edge = Edge(carrier: Carrier, src: nat, link: nat, backExpect: nat, vtLo: nat, idA: nat, idB: nat)

  predicate Canon(x: nat) {
    0x10000 <= x < 0x8000_0000_0000
  }

  predicate Committed(h: Heap, x: nat) {
    Canon(x) && x in h
  }

  // ---------- capture ----------

  /** The children from x on, position bi in the list of ent, reached through field. */
  function KidEdges(h: Heap, ent: nat, line: nat, field: nat, x: nat, bi: nat): (r: seq<Edge>)
    ensures |r| <= if bi <= WALK_MAX then WALK_MAX - bi else 0
    decreases WALK_MAX - bi, |h|
  {
    if bi >= WALK_MAX || !Committed(h, x) then []
    else
      [Edge(Effect, field, x, ent, h[x].vt % U32, line, bi)] +
      if h[x].next == x then [] else KidEdges(h, ent, line, x + NEXT_OFF, h[x].next, bi + 1)
  }

  /** A child list is captured only when its first child points back at ent. */
  predicate HasList(h: Heap, ent: nat) {
    ent in h && Committed(h, h[ent].kids) && h[h[ent].kids].owner == ent
  }

  function ListEdges(h: Heap, ent: nat, line: nat): seq<Edge> {
    if HasList(h, ent) then KidEdges(h, ent, line, ent + HEAD_OFF, h[ent].kids, 0) else []
  }

  /** refs are the references found in the body of each entity. */
  type Refs = map<nat, seq<Edge>>

  ghost predicate NoLists(refs: Refs) {
    forall x, i :: x in refs && 0 <= i < |refs[x]| ==> refs[x][i].carrier != Effect
  }

  function RefsOf(refs: Refs, ent: nat): seq<Edge> {
    if ent in refs then refs[ent] else []
  }

  function LineEdges(h: Heap, refs: Refs, line: nat, ent: nat, chain: nat): seq<Edge>
    decreases WALK_MAX - chain, |h|
  {
    if chain >= WALK_MAX || !Committed(h, ent) then []
    else
      ListEdges(h, ent, line) + RefsOf(refs, ent) +
      if h[ent].lineNext == ent then [] else LineEdges(h, refs, line, h[ent].lineNext, chain + 1)
  }

  function AllEdges(h: Heap, refs: Refs, heads: seq<nat>, n: nat): seq<Edge>
    requires n <= |heads|
    decreases n, |h|
  {
    if n == 0 then [] else AllEdges(h, refs, heads, n - 1) + LineEdges(h, refs, n - 1, heads[n - 1], 0)
  }

  /** The whole walk: every line, then the pointers in the singleton tails. */
  function Walk(h: Heap, refs: Refs, heads: seq<nat>, tails: seq<Edge>): seq<Edge> {
    AllEdges(h, refs, heads, |heads|) + tails
  }

  function Capped(es: seq<Edge>): seq<Edge> {
    if |es| <= MAX_EDGES then es else es[..MAX_EDGES]
  }

  // ---------- re-threading ----------

  /** The child is still what was captured: committed, of the same type, owned by the same parent. */
  predicate Coherent(h: Heap, e: Edge) {
    && Committed(h, e.link)
    && h[e.link].vt % U32 == e.vtLo
    && (e.carrier == Effect ==> h[e.link].owner == e.backExpect)
  }

  predicate StartsList(e: Edge) {
    e.carrier == Effect && e.idB == 0
  }

  predicate Continues(es: seq<Edge>, i: nat, j: nat)
    requires i < |es| && i <= j < |es|
  {
    es[j].carrier == Effect && es[j].idA == es[i].idA && es[j].idB == j - i
  }

  /** Where the list that starts at i ends. */
  function ListEnd(es: seq<Edge>, i: nat, j: nat): (k: nat)
    requires i < |es| && i <= j <= |es|
    ensures j <= k <= |es|
    ensures forall m :: j <= m < k ==> Continues(es, i, m)
    ensures k < |es| ==> !Continues(es, i, k)
    decreases |es| - j
  {
    if j == |es| || !Continues(es, i, j) then j else ListEnd(es, i, j + 1)
  }

  function ListAt(es: seq<Edge>, i: nat): seq<Edge>
    requires i < |es|
  {
    es[i..ListEnd(es, i, i)]
  }

  /** The captured children that are still coherent, in captured order. */
  function Survivors(h: Heap, g: seq<Edge>): (c: seq<nat>)
    ensures forall k :: 0 <= k < |c| ==> c[k] in h
  {
    if g == [] then []
    else
      var c := Survivors(h, g[..|g| - 1]);
      if Coherent(h, g[|g| - 1]) then c + [g[|g| - 1].link] else c
  }

  /** Each of c linked to the one after it. */
  function Chained(h: Heap, c: seq<nat>): (h': Heap)
    requires forall k :: 0 <= k < |c| ==> c[k] in h
    ensures h'.Keys == h.Keys
  {
    if |c| < 2 then h
    else
      var p := c[|c| - 2];
      var a := Chained(h, c[..|c| - 1]);
      a[p := a[p].(next := c[|c| - 1])]
  }

  function Ended(h: Heap, c: seq<nat>): (h': Heap)
    requires forall k :: 0 <= k < |c| ==> c[k] in h
    ensures h'.Keys == h.Keys
  {
    if c == [] then h else h[c[|c| - 1] := h[c[|c| - 1]].(next := 0)]
  }

  function First(c: seq<nat>): nat {
    if c == [] then 0 else c[0]
  }

  function Headed(h: Heap, parent: nat, c: seq<nat>): (h': Heap)
    ensures h'.Keys == h.Keys
  {
    if !Committed(h, parent) then h
    else h[parent := h[parent].(kids := First(c), gate := if c == [] then 0 else h[parent].gate)]
  }

  function Threaded(h: Heap, parent: nat, c: seq<nat>): (h': Heap)
    requires forall k :: 0 <= k < |c| ==> c[k] in h
    ensures h'.Keys == h.Keys
  {
    Headed(Ended(Chained(h, c), c), parent, c)
  }

  function ParentOf(e: Edge): nat {
    if e.src < HEAD_OFF then 0 else e.src - HEAD_OFF
  }

  /** The lists that start among the first n edges, re-threaded. */
  function Rethreaded(h: Heap, es: seq<Edge>, n: nat): (h': Heap)
    requires n <= |es|
    ensures h'.Keys == h.Keys
    decreases n, |h|
  {
    if n == 0 then h
    else
      var a := Rethreaded(h, es, n - 1);
      if StartsList(es[n - 1]) then Threaded(a, ParentOf(es[n - 1]), Survivors(a, ListAt(es, n - 1))) else a
  }

  lemma Shift(a: seq<Edge>, b: seq<Edge>)
    requires b != []
    ensures a + b == (a + [b[0]]) + b[1..]
  {
  }

  lemma Regroup(a: seq<Edge>, b: seq<Edge>, c: seq<Edge>, d: seq<Edge>)
    ensures a + (b + c + d) == (a + b + c) + d
  {
  }

  /** What the ring keeps of one frame. */
  datatype Cap = Cap(frame: int, edges: seq<Edge>)

  function SlotOf(frame: int): (i: nat)
    ensures i < RING
  {
    frame % U32 % RING
  }

  /** Frames fewer than 64 apart share no slot. */
  lemma OwnSlot(f: int, g: int)
    requires f != g && f - 64 < g < f + 64
    ensures SlotOf(f) != SlotOf(g)
  {
    assert f % U32 % RING == f % RING && g % U32 % RING == g % RING by {
      ModOfMod(f);
      ModOfMod(g);
    }
    var a, b := f / RING, g / RING;
    assert f == a * RING + f % RING && g == b * RING + g % RING;
  }

  /** 64 divides the 32-bit range. */
  lemma ModOfMod(f: int)
    ensures f % U32 % RING == f % RING
  {
    var q, r := f / U32, f % U32;
    assert f == RING * (q * 0x400_0000) + r;
    var k := r / RING;
    assert f == RING * (q * 0x400_0000 + k) + r % RING;
    Remainder(f, q * 0x400_0000 + k, r % RING);
  }

  lemma Remainder(f: int, k: int, m: int)
    requires f == RING * k + m && 0 <= m < RING
    ensures f % RING == m
  {
    assert f / RING == k;
  }

  class ById {
    var heap: Heap
    var edges: seq<Edge>
    var overflow: bool
    var ring: seq<Cap>

    constructor (h: Heap)
      ensures heap == h && edges == [] && !overflow
      ensures |ring| == RING && forall i :: 0 <= i < RING ==> ring[i] == Cap(-1, [])
    {
      heap, edges, overflow := h, [], false;
      ring := seq(RING, _ => Cap(-1, []));
    }

    /** The first 8192 edges of all are held, and overflow tells whether there were more. */
    ghost predicate Recorded(all: seq<Edge>)
      reads `edges, `overflow
    {
      edges == Capped(all) && overflow == (|all| > MAX_EDGES)
    }

    method CapEdge(e: Edge, ghost all: seq<Edge>)
      requires Recorded(all)
      modifies `edges, `overflow
      ensures Recorded(all + [e])
    {
      if |edges| >= MAX_EDGES {
        overflow := true;
        return;
      }
      edges := edges + [e];
    }

    /** The child list of one entity, if it has one. */
    method CaptureList(ent: nat, line: nat, ghost all: seq<Edge>)
      requires Committed(heap, ent) && Recorded(all)
      modifies `edges, `overflow
      ensures Recorded(all + ListEdges(heap, ent, line))
    {
      var head := heap[ent].kids;
      if !(Committed(heap, head) && heap[head].owner == ent) {
        assert all + [] == all;
        return;
      }
      var field: nat, child: nat, bi: nat, more := ent + HEAD_OFF, head, 0, true;
      ghost var done, rest := all, ListEdges(heap, ent, line);
      while more && bi < WALK_MAX && Committed(heap, child)
        invariant bi <= WALK_MAX && Recorded(done) && done + rest == all + ListEdges(heap, ent, line)
        invariant rest == if more then KidEdges(heap, ent, line, field, child, bi) else []
        decreases WALK_MAX - bi
      {
        var e := Edge(Effect, field, child, ent, heap[child].vt % U32, line, bi);
        CapEdge(e, done);
        assert rest[0] == e;
        Shift(done, rest);
        done, rest := done + [e], rest[1..];
        var nx := heap[child].next;
        field := child + NEXT_OFF;
        if nx == child {
          more := false;
        }
        child := nx;
        bi := bi + 1;
      }
      assert done + [] == done;
    }

    method CaptureRefs(rs: seq<Edge>, ghost all: seq<Edge>)
      requires Recorded(all)
      modifies `edges, `overflow
      ensures Recorded(all + rs)
    {
      assert all + rs[..0] == all;
      for i := 0 to |rs|
        invariant Recorded(all + rs[..i])
      {
        CapEdge(rs[i], all + rs[..i]);
        assert all + rs[..i + 1] == all + rs[..i] + [rs[i]];
      }
      assert rs[..|rs|] == rs;
    }

    method CaptureLine(line: nat, head: nat, refs: Refs, ghost all: seq<Edge>)
      requires Recorded(all)
      modifies `edges, `overflow
      ensures Recorded(all + LineEdges(heap, refs, line, head, 0))
    {
      var ent: nat, chain: nat, more := head, 0, true;
      ghost var done, rest := all, LineEdges(heap, refs, line, head, 0);
      while more && chain < WALK_MAX && Committed(heap, ent)
        invariant chain <= WALK_MAX && Recorded(done) && done + rest == all + LineEdges(heap, refs, line, head, 0)
        invariant rest == if more then LineEdges(heap, refs, line, ent, chain) else []
        decreases WALK_MAX - chain
      {
        var nextEnt := heap[ent].lineNext;
        ghost var kids, body := ListEdges(heap, ent, line), RefsOf(refs, ent);
        CaptureList(ent, line, done);
        CaptureRefs(RefsOf(refs, ent), done + kids);
        ghost var rest' := if nextEnt == ent then [] else LineEdges(heap, refs, line, nextEnt, chain + 1);
        assert rest == kids + body + rest';
        Regroup(done, kids, body, rest');
        done, rest := done + kids + body, rest';
        if nextEnt == ent {
          more := false;
        }
        ent := nextEnt;
        chain := chain + 1;
      }
      assert done + [] == done;
    }

    /** The ring has the capture es of the frame. */
    ghost predicate Holds(frame: int, es: seq<Edge>)
      reads `ring
    {
      |ring| == RING && ring[SlotOf(frame)] == Cap(frame, es)
    }

    /** The capture at save: the first 8192 edges of the whole walk, kept under the frame number. */
    method SaveFrame(frame: int, heads: seq<nat>, refs: Refs, tails: seq<Edge>)
      requires |heads| == LINES && |ring| == RING
      modifies `edges, `overflow, `ring
      ensures Recorded(Walk(heap, refs, heads, tails))
      ensures ring == old(ring)[SlotOf(frame) := Cap(frame, edges)]
      ensures Holds(frame, edges)
      ensures forall g, es :: old(Holds(g, es)) && g != frame && frame - 64 < g < frame + 64 ==> Holds(g, es)
    {
      edges, overflow := [], false;
      for line := 0 to LINES
        invariant Recorded(AllEdges(heap, refs, heads, line)) && ring == old(ring)
      {
        CaptureLine(line, heads[line], refs, AllEdges(heap, refs, heads, line));
      }
      CaptureRefs(tails, AllEdges(heap, refs, heads, LINES));
      Keep(frame);
    }

    method Keep(frame: int)
      requires |ring| == RING
      modifies `ring
      ensures ring == old(ring)[SlotOf(frame) := Cap(frame, edges)]
      ensures Holds(frame, edges)
      ensures forall g, es :: old(Holds(g, es)) && g != frame && frame - 64 < g < frame + 64 ==> Holds(g, es)
    {
      forall g | g != frame && frame - 64 < g < frame + 64 ensures SlotOf(g) != SlotOf(frame) {
        OwnSlot(frame, g);
      }
      ring := ring[SlotOf(frame) := Cap(frame, edges)];
    }

    /** The authoritative restore of a frame. Without a capture of that frame nothing is written. */
    method RestoreFrame(frame: int)
      requires |ring| == RING
      modifies `heap, `edges
      ensures var c := ring[SlotOf(frame)];
        heap == if c.frame == frame then Rethreaded(old(heap), c.edges, |c.edges|) else old(heap)
      ensures forall es :: Holds(frame, es) ==> heap == Rethreaded(old(heap), es, |es|)
      ensures (forall es :: !Holds(frame, es)) ==> heap == old(heap)
    {
      var c := ring[SlotOf(frame)];
      if c.frame != frame || c.edges == [] {
        return;
      }
      edges := c.edges;
      RethreadAll();
      assert Holds(frame, c.edges);
    }

    /** A capture outlives fewer than 64 later frames: restoring it after their captures re-threads exactly
        what it recorded. */
    method CaptureThenRestore(frame: int, later: seq<int>, heads: seq<nat>, refs: Refs, tails: seq<Edge>)
      requires |heads| == LINES && |ring| == RING && forall k :: 0 <= k < |later| ==> frame < later[k] < frame + 64
      modifies `heap, `edges, `overflow, `ring
      ensures var es := Capped(Walk(old(heap), refs, heads, tails)); heap == Rethreaded(old(heap), es, |es|)
    {
      SaveFrame(frame, heads, refs, tails);
      ghost var es := edges;
      for k := 0 to |later|
        invariant Holds(frame, es) && heap == old(heap)
      {
        SaveFrame(later[k], heads, refs, tails);
      }
      RestoreFrame(frame);
    }

    method RethreadAll()
      modifies `heap
      ensures heap == Rethreaded(old(heap), edges, |edges|)
    {
      for i := 0 to |edges|
        invariant heap == Rethreaded(old(heap), edges, i)
      {
        if StartsList(edges[i]) {
          RethreadList(i);
        }
      }
    }

    method RethreadList(i: nat)
      requires i < |edges| && StartsList(edges[i])
      modifies `heap
      ensures heap == Threaded(old(heap), ParentOf(edges[i]), Survivors(old(heap), ListAt(edges, i)))
    {
      ghost var h := heap;
      var newHead, prev := LinkSurvivors(i);
      CloseList(ParentOf(edges[i]), newHead, prev, h, Survivors(h, ListAt(edges, i)));
    }

    /** Links each coherent child to the one before it; returns the first and the last. */
    method LinkSurvivors(i: nat) returns (newHead: nat, prev: nat)
      requires i < |edges| && StartsList(edges[i])
      modifies `heap
      ensures var c := Survivors(old(heap), ListAt(edges, i));
        heap == Chained(old(heap), c) && newHead == First(c) && prev == Last(c) && 0 !in c
    {
      var j := i;
      newHead, prev := 0, 0;
      ghost var h, end := heap, ListEnd(edges, i, i);
      ghost var g: seq<Edge> := [];
      while j < |edges| && Continues(edges, i, j)
        invariant i <= j <= end && g == edges[i..j] && heap == Chained(h, Survivors(h, g))
        invariant newHead == First(Survivors(h, g)) && prev == Last(Survivors(h, g)) && 0 !in Survivors(h, g)
        decreases |edges| - j
      {
        newHead, prev := LinkNext(edges[j], newHead, prev, h, g);
        g := g + [edges[j]];
        j := j + 1;
      }
      assert j == end;
    }

    /** One captured child, after those of g. */
    method LinkNext(e: Edge, head: nat, last: nat, ghost h: Heap, ghost g: seq<Edge>) returns (newHead: nat, prev: nat)
      requires heap == Chained(h, Survivors(h, g)) && head == First(Survivors(h, g)) && last == Last(Survivors(h, g))
      requires 0 !in Survivors(h, g)
      modifies `heap
      ensures heap == Chained(h, Survivors(h, g + [e]))
      ensures newHead == First(Survivors(h, g + [e])) && prev == Last(Survivors(h, g + [e]))
      ensures 0 !in Survivors(h, g + [e])
    {
      newHead, prev := head, last;
      OneMore(h, g, e);
      if Coherent(heap, e) {
        var child := e.link;
        if prev == 0 {
          newHead := child;
        } else {
          heap := heap[prev := heap[prev].(next := child)];
        }
        prev := child;
      }
    }

    /** Ends the list, and sets the head and the gate of its parent. */
    method CloseList(parent: nat, newHead: nat, prev: nat, ghost h: Heap, ghost c: seq<nat>)
      requires (forall k :: 0 <= k < |c| ==> c[k] in h) && 0 !in c
      requires heap == Chained(h, c) && newHead == First(c) && prev == Last(c)
      modifies `heap
      ensures heap == Threaded(h, parent, c)
    {
      if prev != 0 {
        heap := heap[prev := heap[prev].(next := 0)];
      }
      assert heap == Ended(Chained(h, c), c);
      if Committed(heap, parent) {
        heap := heap[parent := heap[parent].(kids := newHead)];
        if newHead == 0 {
          heap := heap[parent := heap[parent].(gate := 0)];
        }
      }
    }
  }

  function Last(c: seq<nat>): nat {
    if c == [] then 0 else c[|c| - 1]
  }

  /** One more captured child looked at, after those of g. */
  lemma OneMore(h: Heap, g: seq<Edge>, e: Edge)
    ensures var c := Survivors(h, g);
      && Coherent(Chained(h, c), e) == Coherent(h, e)
      && Survivors(h, g + [e]) == (if Coherent(h, e) then c + [e.link] else c)
      && (Coherent(h, e) ==>
            Chained(h, c + [e.link]) ==
            if c == [] then h else Chained(h, c)[Last(c) := Chained(h, c)[Last(c)].(next := e.link)])
  {
    var c := Survivors(h, g);
    ChainedLinks(h, c);
    assert (g + [e])[..|g|] == g;
    assert (c + [e.link])[..|c|] == c;
  }

  /** A readable object. */
  ghost predicate Object(h: Heap, x: nat) {
    0x10000 <= x < 0x8000_0000_0000 && x in h
  }

  /** What was captured is still there: the low 32 bits of its vtable are the same, and a child points back
      at the same owner. */
  ghost predicate Itself(h: Heap, e: Edge) {
    && Object(h, e.link) && h[e.link].vt % 0x1_0000_0000 == e.vtLo
    && (e.carrier == Effect ==> h[e.link].owner == e.backExpect)
  }

  /** The survivors are the captured children that are still themselves, in captured order. */
  lemma SurvivorsNext(h: Heap, g: seq<Edge>, e: Edge)
    ensures Survivors(h, []) == []
    ensures Survivors(h, g + [e]) == if Itself(h, e) then Survivors(h, g) + [e.link] else Survivors(h, g)
  {
    assert (g + [e])[..|g|] == g;
  }

  // ---------- what re-threading does ----------

  /** Identity is untouched: type, owner, and place in the line. */
  ghost predicate SameIds(h: Heap, h': Heap) {
    && h'.Keys == h.Keys
    && forall x :: x in h ==> h'[x].vt == h[x].vt && h'[x].owner == h[x].owner && h'[x].lineNext == h[x].lineNext
  }

  lemma {:induction false} SameSurvivors(h: Heap, h': Heap, g: seq<Edge>)
    requires SameIds(h, h')
    ensures Survivors(h', g) == Survivors(h, g)
    decreases |g|
  {
    if g == [] {
    } else {
      SameSurvivors(h, h', g[..|g| - 1]);
    }
  }

  ghost predicate Distinct(c: seq<nat>) {
    forall i, j :: 0 <= i < j < |c| ==> c[i] != c[j]
  }

  /** The child list of parent is c: its head, then link by link, then null. */
  ghost predicate ListIs(h: Heap, parent: nat, c: seq<nat>) {
    && parent in h && h[parent].kids == First(c)
    && forall k :: 0 <= k < |c| ==> LinkedOn(h, c, k)
  }

  ghost predicate LinkedOn(h: Heap, c: seq<nat>, k: nat)
    requires k < |c|
  {
    c[k] in h && h[c[k]].next == if k + 1 < |c| then c[k + 1] else 0
  }

  /** Apart from the links of c and the head of parent nothing differs, but for the gate of a parent
      left without children. */
  ghost predicate OnlyList(h: Heap, h': Heap, parent: nat, c: seq<nat>) {
    && SameIds(h, h')
    && (forall x :: x in h && x !in c ==> h'[x].next == h[x].next)
    && (forall x :: x in h && x != parent ==> h'[x].kids == h[x].kids && h'[x].gate == h[x].gate)
    && (parent in h && c != [] ==> h'[parent].gate == h[parent].gate)
    && (parent in h && Canon(parent) && c == [] ==> h'[parent].gate == 0)
  }

  lemma {:induction false} ChainedLinks(h: Heap, c: seq<nat>)
    requires forall k :: 0 <= k < |c| ==> c[k] in h
    ensures var h' := Chained(h, c);
      && SameIds(h, h')
      && (forall x :: x in h ==> h'[x].kids == h[x].kids && h'[x].gate == h[x].gate)
      && (forall x :: x in h && x !in c ==> h'[x].next == h[x].next)
    decreases |c|
  {
    if |c| < 2 {
    } else {
      var d := c[..|c| - 1];
      ChainedLinks(h, d);
      assert c[|c| - 2] == d[|d| - 1];
    }
  }

  lemma {:induction false} ChainedOrder(h: Heap, c: seq<nat>, k: nat)
    requires (forall k :: 0 <= k < |c| ==> c[k] in h) && Distinct(c) && k < |c| - 1
    ensures Chained(h, c)[c[k]].next == c[k + 1]
    decreases |c|
  {
    if k == |c| - 2 {
    } else {
      ChainedOrder(h, c[..|c| - 1], k);
      assert c[k] != c[|c| - 2];
    }
  }

  lemma ThreadedWritesList(h: Heap, parent: nat, c: seq<nat>)
    requires forall k :: 0 <= k < |c| ==> c[k] in h
    ensures OnlyList(h, Threaded(h, parent, c), parent, c)
  {
    ChainedLinks(h, c);
  }

  lemma EndedIsLinked(h: Heap, c: seq<nat>, k: nat)
    requires (forall k :: 0 <= k < |c| ==> c[k] in h) && Distinct(c) && k < |c|
    ensures LinkedOn(Ended(Chained(h, c), c), c, k)
  {
    if k + 1 < |c| {
      ChainedOrder(h, c, k);
      assert c[k] != c[|c| - 1];
    }
  }

  lemma ThreadedIsList(h: Heap, parent: nat, c: seq<nat>)
    requires forall k :: 0 <= k < |c| ==> c[k] in h
    ensures OnlyList(h, Threaded(h, parent, c), parent, c)
    ensures Distinct(c) && Committed(h, parent) ==> ListIs(Threaded(h, parent, c), parent, c)
  {
    ThreadedWritesList(h, parent, c);
    if Distinct(c) && Committed(h, parent) {
      var a, h' := Ended(Chained(h, c), c), Threaded(h, parent, c);
      forall k | 0 <= k < |c| ensures LinkedOn(h', c, k) {
        EndedIsLinked(h, c, k);
        assert h'[c[k]].next == a[c[k]].next;
      }
    }
  }

  // ---------- a whole restore ----------

  /** Each captured list belongs to one parent, of its own, and has no child twice. */
  ghost predicate Captured(es: seq<Edge>) {
    && (forall i :: 0 <= i < |es| && StartsList(es[i]) ==> OneParent(es, i))
    && (forall i, j :: 0 <= i < j < |es| && StartsList(es[i]) && StartsList(es[j]) ==>
          ParentOf(es[i]) != ParentOf(es[j]))
  }

  ghost predicate OneParent(es: seq<Edge>, i: nat)
    requires i < |es|
  {
    var g := ListAt(es, i);
    && (forall k :: 0 <= k < |g| ==> g[k].carrier == Effect && g[k].backExpect == ParentOf(es[i]))
    && (forall k, m :: 0 <= k < m < |g| ==> g[k].link != g[m].link)
  }

  lemma {:induction false} SurvivorsFrom(h: Heap, g: seq<Edge>, parent: nat)
    requires forall k :: 0 <= k < |g| ==> g[k].carrier == Effect && g[k].backExpect == parent
    ensures forall x :: x in Survivors(h, g) <==> exists k :: 0 <= k < |g| && g[k].link == x && Itself(h, g[k])
    ensures forall x :: x in Survivors(h, g) ==> h[x].owner == parent
    decreases |g|
  {
    if g == [] {
    } else {
      var d, e := g[..|g| - 1], g[|g| - 1];
      SurvivorsFrom(h, d, parent);
      forall x ensures x in Survivors(h, g) <==> exists k :: 0 <= k < |g| && g[k].link == x && Itself(h, g[k]) {
        if k :| 0 <= k < |g| && g[k].link == x && Itself(h, g[k]) {
          assert k < |d| ==> d[k] == g[k];
        }
        if x in Survivors(h, d) {
          var k :| 0 <= k < |d| && d[k].link == x && Itself(h, d[k]);
          assert g[k] == d[k];
        }
        assert g[|g| - 1] == e;
      }
    }
  }

  lemma {:induction false} SurvivorsDistinct(h: Heap, g: seq<Edge>, parent: nat)
    requires forall k :: 0 <= k < |g| ==> g[k].carrier == Effect && g[k].backExpect == parent
    requires forall k, m :: 0 <= k < m < |g| ==> g[k].link != g[m].link
    ensures Distinct(Survivors(h, g))
    decreases |g|
  {
    if g == [] {
    } else {
      var d := g[..|g| - 1];
      assert forall k :: 0 <= k < |d| ==> d[k] == g[k];
      SurvivorsDistinct(h, d, parent);
      SurvivorsFrom(h, d, parent);
      var c := Survivors(h, d);
      forall i | 0 <= i < |c| ensures c[i] != g[|g| - 1].link {
        assert c[i] in c;
        var k :| 0 <= k < |d| && d[k].link == c[i] && Itself(h, d[k]);
      }
    }
  }

  lemma {:induction false} IdsStay(h: Heap, es: seq<Edge>, n: nat)
    requires n <= |es|
    ensures SameIds(h, Rethreaded(h, es, n))
    decreases n
  {
    if n == 0 {
    } else {
      IdsStay(h, es, n - 1);
      var a := Rethreaded(h, es, n - 1);
      if StartsList(es[n - 1]) {
        ThreadedIsList(a, ParentOf(es[n - 1]), Survivors(a, ListAt(es, n - 1)));
      }
    }
  }

  /** After a restore the child list of a captured, committed parent is exactly its coherent captured
      children, in captured order and null-terminated. */
  lemma {:induction false} ListsAreSurvivors(h: Heap, es: seq<Edge>, n: nat, i: nat)
    requires Captured(es) && i < n <= |es| && StartsList(es[i]) && Object(h, ParentOf(es[i]))
    ensures ListIs(Rethreaded(h, es, n), ParentOf(es[i]), Survivors(h, ListAt(es, i)))
    ensures var p := ParentOf(es[i]);
      Rethreaded(h, es, n)[p].gate == if Survivors(h, ListAt(es, i)) == [] then 0 else h[p].gate
    decreases n
  {
    var l := n - 1;
    var a, p := Rethreaded(h, es, l), ParentOf(es[i]);
    IdsStay(h, es, l);
    assert OneParent(es, i);
    var c := Survivors(h, ListAt(es, i));
    SurvivorsFrom(h, ListAt(es, i), p);
    SurvivorsDistinct(h, ListAt(es, i), p);
    if l == i {
      SameSurvivors(h, a, ListAt(es, i));
      ThreadedIsList(a, p, c);
      ParentUntouched(h, es, i, p);
    } else {
      ListsAreSurvivors(h, es, l, i);
      if StartsList(es[l]) {
        OtherListStays(h, es, l, p, c);
      }
    }
  }

  /** Re-threading one list leaves alone a list of another parent. */
  lemma OtherListStays(h: Heap, es: seq<Edge>, l: nat, p: nat, c: seq<nat>)
    requires Captured(es) && l < |es| && StartsList(es[l]) && ParentOf(es[l]) != p
    requires ListIs(Rethreaded(h, es, l), p, c) && forall x :: x in c ==> x in h && h[x].owner == p
    ensures ListIs(Rethreaded(h, es, l + 1), p, c)
    ensures Rethreaded(h, es, l + 1)[p].gate == Rethreaded(h, es, l)[p].gate
  {
    var a, q, g := Rethreaded(h, es, l), ParentOf(es[l]), ListAt(es, l);
    IdsStay(h, es, l);
    assert OneParent(es, l);
    SurvivorsFrom(a, g, q);
    var c' := Survivors(a, g);
    ThreadedIsList(a, q, c');
    ListStays(a, Rethreaded(h, es, l + 1), p, c, q, c');
  }

  lemma ListStays(h: Heap, h': Heap, p: nat, c: seq<nat>, q: nat, c': seq<nat>)
    requires ListIs(h, p, c) && OnlyList(h, h', q, c') && p != q && forall x :: x in c ==> x !in c'
    ensures ListIs(h', p, c)
  {
    forall k | 0 <= k < |c| ensures LinkedOn(h', c, k) {
      assert LinkedOn(h, c, k) && c[k] in c;
    }
  }

  lemma {:induction false} ParentUntouched(h: Heap, es: seq<Edge>, n: nat, p: nat)
    requires n <= |es| && p in h && forall i :: 0 <= i < n && StartsList(es[i]) ==> ParentOf(es[i]) != p
    ensures Rethreaded(h, es, n)[p].gate == h[p].gate && Rethreaded(h, es, n)[p].kids == h[p].kids
    decreases n
  {
    if n == 0 {
    } else {
      ParentUntouched(h, es, n - 1, p);
      var a := Rethreaded(h, es, n - 1);
      if StartsList(es[n - 1]) {
        ThreadedIsList(a, ParentOf(es[n - 1]), Survivors(a, ListAt(es, n - 1)));
      }
    }
  }

  /** A restore writes the next link only of survivors. */
  lemma {:induction false} OthersUnlinked(h: Heap, es: seq<Edge>, n: nat, x: nat)
    requires n <= |es| && x in h
    requires forall i :: 0 <= i < n && StartsList(es[i]) ==> x !in Survivors(h, ListAt(es, i))
    ensures Rethreaded(h, es, n)[x].next == h[x].next
    decreases n
  {
    if n == 0 {
    } else {
      OthersUnlinked(h, es, n - 1, x);
      var a := Rethreaded(h, es, n - 1);
      if StartsList(es[n - 1]) {
        IdsStay(h, es, n - 1);
        SameSurvivors(h, a, ListAt(es, n - 1));
        ThreadedIsList(a, ParentOf(es[n - 1]), Survivors(a, ListAt(es, n - 1)));
      }
    }
  }

  /** Two captured lists are never merged: one ends where the next starts, on the same line or not. */
  lemma NeverMerged(es: seq<Edge>, i: nat, j: nat)
    requires i < j < |es| && StartsList(es[i]) && StartsList(es[j])
    ensures i + |ListAt(es, i)| <= j
  {
    assert !Continues(es, i, j);
  }

  // ---------- capture and restore together ----------

  /** The list that starts at i is the whole list the capture walked, and ends there. */
  ghost predicate WholeList(h: Heap, es: seq<Edge>, i: nat)
    requires i < |es|
  {
    var g := ListEdges(h, es[i].backExpect, es[i].idA);
    && g != [] && i + |g| <= |es| && (forall k :: 0 <= k < |g| ==> es[i + k] == g[k])
    && (i + |g| < |es| ==> es[i + |g|].carrier != Effect || es[i + |g|].idB != |g|)
  }

  ghost predicate Whole(h: Heap, es: seq<Edge>) {
    && (es != [] && es[0].carrier == Effect ==> es[0].idB == 0)
    && forall i :: 0 <= i < |es| && StartsList(es[i]) ==> WholeList(h, es, i)
  }

  lemma WholeJoin(h: Heap, a: seq<Edge>, b: seq<Edge>)
    requires Whole(h, a) && Whole(h, b)
    ensures Whole(h, a + b)
  {
    var es := a + b;
    forall i | 0 <= i < |es| && StartsList(es[i]) ensures WholeList(h, es, i) {
      var g := ListEdges(h, es[i].backExpect, es[i].idA);
      if i < |a| {
        assert WholeList(h, a, i);
      } else {
        assert WholeList(h, b, i - |a|);
      }
    }
  }

  /** e is child n of ent, as it was captured. */
  ghost predicate KidAt(h: Heap, e: Edge, ent: nat, line: nat, n: nat) {
    && e.carrier == Effect && e.idA == line && e.idB == n && e.backExpect == ent
    && Object(h, e.link) && e.vtLo == h[e.link].vt % 0x1_0000_0000
  }

  lemma {:induction false} KidsNumbered(h: Heap, ent: nat, line: nat, field: nat, x: nat, bi: nat)
    ensures var g := KidEdges(h, ent, line, field, x, bi);
      && (forall k :: 0 <= k < |g| ==> KidAt(h, g[k], ent, line, bi + k))
      && (g != [] ==> g[0].src == field && g[0].link == x)
    decreases WALK_MAX - bi
  {
    var g := KidEdges(h, ent, line, field, x, bi);
    if g == [] || h[x].next == x {
    } else {
      KidsNumbered(h, ent, line, x + NEXT_OFF, h[x].next, bi + 1);
      var r := KidEdges(h, ent, line, x + NEXT_OFF, h[x].next, bi + 1);
      assert g[1..] == r;
      forall k | 0 < k < |g| ensures KidAt(h, g[k], ent, line, bi + k) {
        assert g[k] == r[k - 1];
      }
    }
  }

  lemma {:induction false} KidsLinked(h: Heap, ent: nat, line: nat, field: nat, x: nat, bi: nat, k: nat)
    requires 0 < k < |KidEdges(h, ent, line, field, x, bi)|
    ensures var g := KidEdges(h, ent, line, field, x, bi);
      g[k].src == g[k - 1].link + 0x18 && g[k - 1].link in h && h[g[k - 1].link].next == g[k].link
    decreases WALK_MAX - bi
  {
    var g, r := KidEdges(h, ent, line, field, x, bi), KidEdges(h, ent, line, x + NEXT_OFF, h[x].next, bi + 1);
    assert g[1..] == r;
    if k == 1 {
      KidsNumbered(h, ent, line, x + NEXT_OFF, h[x].next, bi + 1);
    } else {
      KidsLinked(h, ent, line, x + NEXT_OFF, h[x].next, bi + 1, k - 1);
    }
  }

  /** The capture of one list: the children in order, each reached from the one before. */
  lemma ListNumbered(h: Heap, ent: nat, line: nat)
    requires HasList(h, ent)
    ensures var g := ListEdges(h, ent, line);
      && g != [] && g[0].src == ent + 0x218 && g[0].link == h[ent].kids
      && (forall k :: 0 <= k < |g| ==> KidAt(h, g[k], ent, line, k))
      && (forall k :: 0 < k < |g| ==> g[k].src == g[k - 1].link + 0x18 && h[g[k - 1].link].next == g[k].link)
  {
    var g := ListEdges(h, ent, line);
    KidsNumbered(h, ent, line, ent + HEAD_OFF, h[ent].kids, 0);
    forall k | 0 <= k < |g| ensures KidAt(h, g[k], ent, line, k) {
      assert KidAt(h, g[k], ent, line, 0 + k);
    }
    forall k | 0 < k < |g| ensures g[k].src == g[k - 1].link + 0x18 && h[g[k - 1].link].next == g[k].link {
      KidsLinked(h, ent, line, ent + HEAD_OFF, h[ent].kids, 0, k);
    }
  }

  lemma ListWhole(h: Heap, ent: nat, line: nat)
    ensures Whole(h, ListEdges(h, ent, line))
  {
    var g := ListEdges(h, ent, line);
    if g != [] {
      ListNumbered(h, ent, line);
    }
  }

  lemma {:induction false} LineWhole(h: Heap, refs: Refs, line: nat, ent: nat, chain: nat)
    requires NoLists(refs)
    ensures Whole(h, LineEdges(h, refs, line, ent, chain))
    decreases WALK_MAX - chain
  {
    if chain >= WALK_MAX || !Committed(h, ent) {
    } else {
      ListWhole(h, ent, line);
      WholeJoin(h, ListEdges(h, ent, line), RefsOf(refs, ent));
      if h[ent].lineNext != ent {
        LineWhole(h, refs, line, h[ent].lineNext, chain + 1);
        WholeJoin(h, ListEdges(h, ent, line) + RefsOf(refs, ent), LineEdges(h, refs, line, h[ent].lineNext, chain + 1));
      } else {
        assert ListEdges(h, ent, line) + RefsOf(refs, ent) + [] == ListEdges(h, ent, line) + RefsOf(refs, ent);
      }
    }
  }

  lemma {:induction false} CaptureWhole(h: Heap, refs: Refs, heads: seq<nat>, n: nat)
    requires NoLists(refs) && n <= |heads|
    ensures Whole(h, AllEdges(h, refs, heads, n))
    decreases n
  {
    if n == 0 {
    } else {
      CaptureWhole(h, refs, heads, n - 1);
      LineWhole(h, refs, n - 1, heads[n - 1], 0);
      WholeJoin(h, AllEdges(h, refs, heads, n - 1), LineEdges(h, refs, n - 1, heads[n - 1], 0));
    }
  }

  lemma WalkWhole(h: Heap, refs: Refs, heads: seq<nat>, tails: seq<Edge>)
    requires NoLists(refs) && forall i :: 0 <= i < |tails| ==> tails[i].carrier != Effect
    ensures Whole(h, Walk(h, refs, heads, tails))
  {
    CaptureWhole(h, refs, heads, |heads|);
    WholeJoin(h, AllEdges(h, refs, heads, |heads|), tails);
  }

  /** What the restore reads as one list is one entity's captured list, all of it. */
  lemma ListAtIsCaptured(h: Heap, es: seq<Edge>, i: nat)
    requires Whole(h, es) && i < |es| && StartsList(es[i])
    ensures var ent := es[i].backExpect;
      && HasList(h, ent) && ParentOf(es[i]) == ent
      && ListAt(es, i) == ListEdges(h, ent, es[i].idA)
  {
    assert WholeList(h, es, i);
    var ent, line := es[i].backExpect, es[i].idA;
    var g := ListEdges(h, ent, line);
    ListNumbered(h, ent, line);
    assert g[0] == es[i];
    forall m | i <= m < i + |g| ensures Continues(es, i, m) {
      assert es[i + (m - i)] == g[m - i] && KidAt(h, g[m - i], ent, line, m - i);
    }
    assert i + |g| < |es| ==> !Continues(es, i, i + |g|);
  }

  /** No child list loops, and no entity is walked twice. */
  ghost predicate Tidy(h: Heap, es: seq<Edge>) {
    && (forall i :: 0 <= i < |es| && StartsList(es[i]) ==> Distinct(Links(ListEdges(h, es[i].backExpect, es[i].idA))))
    && (forall i, j :: 0 <= i < j < |es| && StartsList(es[i]) && StartsList(es[j]) ==>
          es[i].backExpect != es[j].backExpect)
  }

  /** Cutting the capture short cuts only the list that runs over the cut. */
  lemma {:induction false} ListEndCut(es: seq<Edge>, m: nat, i: nat, j: nat)
    requires i < m <= |es| && i <= j <= m
    ensures ListEnd(es[..m], i, j) == if ListEnd(es, i, j) <= m then ListEnd(es, i, j) else m
    decreases m - j
  {
    if j == m {
    } else {
      assert Continues(es[..m], i, j) <==> Continues(es, i, j);
      if Continues(es, i, j) {
        ListEndCut(es, m, i, j + 1);
      }
    }
  }

  /** The first n edges of g, or all of them. */
  function UpTo(g: seq<Edge>, n: nat): (r: seq<Edge>)
    ensures |r| <= |g| && forall k :: 0 <= k < |r| ==> r[k] == g[k]
    ensures |g| <= n ==> r == g
  {
    if |g| <= n then g else g[..n]
  }

  lemma ListAtCut(h: Heap, es: seq<Edge>, m: nat, i: nat)
    requires Whole(h, es) && i < m <= |es| && StartsList(es[i])
    ensures es[..m][i] == es[i]
    ensures ListAt(es[..m], i) == UpTo(ListEdges(h, es[i].backExpect, es[i].idA), m - i)
  {
    ListAtIsCaptured(h, es, i);
    ListEndCut(es, m, i, i);
    assert es[..m][i..ListEnd(es[..m], i, i)] == es[i..ListEnd(es[..m], i, i)];
  }

  lemma WalkIsCaptured(h: Heap, es: seq<Edge>, m: nat)
    requires Whole(h, es) && Tidy(h, es) && m <= |es|
    ensures Captured(es[..m])
  {
    forall i | 0 <= i < m && StartsList(es[..m][i])
      ensures OneParent(es[..m], i) && ParentOf(es[i]) == es[i].backExpect
    {
      WalkHasOneParent(h, es, m, i);
    }
  }

  lemma WalkHasOneParent(h: Heap, es: seq<Edge>, m: nat, i: nat)
    requires Whole(h, es) && i < m <= |es| && StartsList(es[i])
    requires Distinct(Links(ListEdges(h, es[i].backExpect, es[i].idA)))
    ensures OneParent(es[..m], i) && ParentOf(es[i]) == es[i].backExpect
  {
    var g := ListEdges(h, es[i].backExpect, es[i].idA);
    ListAtIsCaptured(h, es, i);
    ListAtCut(h, es, m, i);
    ListNumbered(h, es[i].backExpect, es[i].idA);
    LinksDistinct(g);
    forall k | 0 <= k < |g| ensures g[k].carrier == Effect && g[k].backExpect == es[i].backExpect {
      assert KidAt(h, g[k], es[i].backExpect, es[i].idA, k);
    }
  }

  lemma CappedIs(es: seq<Edge>)
    ensures |Capped(es)| == (if |es| <= 8192 then |es| else 8192) && Capped(es) == es[..|Capped(es)|]
  {
    assert es[..|es|] == es;
  }

  /** Whatever memory has become since the capture, the restore leaves every entity whose list was
      recorded with exactly those recorded children that are still themselves. All children of a list
      are recorded, but for the one list that runs over the 8192nd edge. */
  lemma RestoreByIdentity(h0: Heap, h: Heap, refs: Refs, heads: seq<nat>, tails: seq<Edge>, i: nat)
    requires NoLists(refs) && forall i :: 0 <= i < |tails| ==> tails[i].carrier != Effect
    requires Tidy(h0, Walk(h0, refs, heads, tails))
    requires i < |Capped(Walk(h0, refs, heads, tails))| && StartsList(Capped(Walk(h0, refs, heads, tails))[i])
    requires Object(h, Capped(Walk(h0, refs, heads, tails))[i].backExpect)
    ensures var es := Capped(Walk(h0, refs, heads, tails));
      var ent := es[i].backExpect;
      && HasList(h0, ent)
      && ListIs(Rethreaded(h, es, |es|), ent, Survivors(h, UpTo(ListEdges(h0, ent, es[i].idA), |es| - i)))
  {
    WalkWhole(h0, refs, heads, tails);
    CappedRestored(h0, h, Walk(h0, refs, heads, tails), Capped(Walk(h0, refs, heads, tails)), i);
  }

  lemma CappedRestored(h0: Heap, h: Heap, all: seq<Edge>, es: seq<Edge>, i: nat)
    requires Whole(h0, all) && Tidy(h0, all) && es == Capped(all) && i < |es| && StartsList(es[i])
    requires Object(h, es[i].backExpect)
    ensures var ent := es[i].backExpect;
      && HasList(h0, ent)
      && ListIs(Rethreaded(h, es, |es|), ent, Survivors(h, UpTo(ListEdges(h0, ent, es[i].idA), |es| - i)))
  {
    CappedIs(all);
    assert es[i] == all[i];
    ListRestored(h0, h, all, |es|, i);
  }

  /** The same of any capture cut short after m edges. */
  lemma ListRestored(h0: Heap, h: Heap, all: seq<Edge>, m: nat, i: nat)
    requires Whole(h0, all) && Tidy(h0, all) && i < m <= |all| && StartsList(all[i]) && Object(h, all[i].backExpect)
    ensures var ent := all[i].backExpect;
      && HasList(h0, ent)
      && ListIs(Rethreaded(h, all[..m], m), ent, Survivors(h, UpTo(ListEdges(h0, ent, all[i].idA), m - i)))
  {
    ListAtIsCaptured(h0, all, i);
    ListAtCut(h0, all, m, i);
    WalkIsCaptured(h0, all, m);
    ListsAreSurvivors(h, all[..m], m, i);
  }

  /** The links of a captured list. */
  function Links(g: seq<Edge>): (c: seq<nat>)
    ensures |c| == |g| && forall k :: 0 <= k < |g| ==> c[k] == g[k].link
  {
    seq(|g|, k requires 0 <= k < |g| => g[k].link)
  }

  lemma {:induction false} AllSurvive(h: Heap, g: seq<Edge>)
    requires forall k :: 0 <= k < |g| ==> Coherent(h, g[k])
    ensures Survivors(h, g) == Links(g)
    decreases |g|
  {
    if g == [] {
    } else {
      AllSurvive(h, g[..|g| - 1]);
      assert Links(g) == Links(g[..|g| - 1]) + [g[|g| - 1].link];
    }
  }

  lemma {:induction false} SomeDie(h: Heap, g: seq<Edge>, k: nat)
    requires k < |g| && !Coherent(h, g[k])
    ensures |Survivors(h, g)| < |g|
    decreases |g|
  {
    FewerOrAll(h, g[..|g| - 1]);
    if k == |g| - 1 {
    } else {
      SomeDie(h, g[..|g| - 1], k);
    }
  }

  lemma {:induction false} FewerOrAll(h: Heap, g: seq<Edge>)
    ensures |Survivors(h, g)| <= |g|
    decreases |g|
  {
    if g == [] {
    } else {
      FewerOrAll(h, g[..|g| - 1]);
    }
  }

  ghost predicate AllOwned(h: Heap, g: seq<Edge>, ent: nat) {
    forall k :: 0 <= k < |g| ==> g[k].link in h && h[g[k].link].owner == ent
  }

  ghost predicate RunsToEnd(h: Heap, g: seq<Edge>) {
    g != [] && g[|g| - 1].link in h && h[g[|g| - 1].link].next == 0
  }

  /** Capturing a list and re-threading it in the same memory changes nothing exactly when every
      captured child points back at its parent and the captured part runs to the end of the list. */
  lemma RoundTripIff(h: Heap, ent: nat, line: nat)
    requires Committed(h, ent) && HasList(h, ent) && Distinct(Links(ListEdges(h, ent, line)))
    ensures var g := ListEdges(h, ent, line);
      Threaded(h, ent, Survivors(h, g)) == h <==> AllOwned(h, g, ent) && RunsToEnd(h, g)
  {
    var g := ListEdges(h, ent, line);
    if AllOwned(h, g, ent) && RunsToEnd(h, g) {
      RoundTripKeeps(h, ent, line);
    }
    if Threaded(h, ent, Survivors(h, g)) == h {
      ListNumbered(h, ent, line);
      LinksDistinct(g);
      SurvivorsDistinct(h, g, ent);
      ThreadedIsList(h, ent, Survivors(h, g));
      RoundTripBreaks(h, ent, line, Survivors(h, g));
    }
  }

  /** The children c follow one another in memory. */
  ghost predicate Follow(h: Heap, c: seq<nat>) {
    && (forall k :: 0 <= k < |c| ==> Object(h, c[k]))
    && (forall k :: 0 <= k < |c| - 1 ==> h[c[k]].next == c[k + 1] && c[k + 1] != c[k])
  }

  /** Nothing readable follows them. */
  ghost predicate EndsAfter(h: Heap, c: seq<nat>) {
    c != [] && c[|c| - 1] in h && !Object(h, h[c[|c| - 1]].next)
  }

  lemma {:induction false} KidsFrom(h: Heap, ent: nat, line: nat, field: nat, c: seq<nat>, b: nat, m: nat)
    requires Follow(h, c) && b < m <= |c| && m <= WALK_MAX && (m == WALK_MAX || (m == |c| && EndsAfter(h, c)))
    ensures Links(KidEdges(h, ent, line, field, c[b], b)) == c[b..m]
    decreases m - b
  {
    var x := c[b];
    assert Object(h, x);
    if b + 1 < m {
      assert h[x].next == c[b + 1] && c[b + 1] != x;
      KidsFrom(h, ent, line, x + NEXT_OFF, c, b + 1, m);
      LinksFirst(h, ent, line, field, x, b);
      SliceNext(c, b, m);
    } else {
      assert KidEdges(h, ent, line, x + NEXT_OFF, h[x].next, b + 1) == [];
      LinksFirst(h, ent, line, field, x, b);
      SliceNext(c, b, m);
    }
  }

  lemma SliceNext(c: seq<nat>, b: nat, m: nat)
    requires b < m <= |c|
    ensures c[b..m] == [c[b]] + c[b + 1..m] && (b + 1 == m ==> c[b + 1..m] == [])
  {
  }

  lemma LinksFirst(h: Heap, ent: nat, line: nat, field: nat, x: nat, b: nat)
    requires b < WALK_MAX && Object(h, x)
    ensures Links(KidEdges(h, ent, line, field, x, b)) ==
      [x] + if h[x].next == x then [] else Links(KidEdges(h, ent, line, x + NEXT_OFF, h[x].next, b + 1))
  {
  }

  /** The capture of a child list is all of it, or its first 512 children. */
  lemma ListIsCaptured(h: Heap, ent: nat, line: nat, c: seq<nat>)
    requires ent in h && c != [] && Follow(h, c) && EndsAfter(h, c)
    requires c[0] == h[ent].kids && Object(h, c[0]) && h[c[0]].owner == ent
    ensures Links(ListEdges(h, ent, line)) == if |c| <= 512 then c else c[..512]
  {
    assert Object(h, c[0]);
    var m := if |c| <= WALK_MAX then |c| else WALK_MAX;
    KidsFrom(h, ent, line, ent + HEAD_OFF, c, 0, m);
  }

  /** The entities c follow one another on their line. */
  ghost predicate InLine(h: Heap, c: seq<nat>) {
    && (forall k :: 0 <= k < |c| ==> Object(h, c[k]))
    && (forall k :: 0 <= k < |c| - 1 ==> h[c[k]].lineNext == c[k + 1] && c[k + 1] != c[k])
  }

  lemma {:induction false} LineHas(h: Heap, refs: Refs, line: nat, c: seq<nat>, b: nat, k: nat)
    returns (before: seq<Edge>, after: seq<Edge>)
    requires InLine(h, c) && b <= k < |c| && k < 512
    ensures LineEdges(h, refs, line, c[b], b) == before + ListEdges(h, c[k], line) + after
    decreases k - b
  {
    var a := ListEdges(h, c[b], line) + RefsOf(refs, c[b]);
    var rest := LineRest(h, refs, line, c, b);
    if b == k {
      before, after := [], RefsOf(refs, c[b]) + rest;
      FrontJoin(ListEdges(h, c[b], line), RefsOf(refs, c[b]), rest);
    } else {
      before, after := LineHas(h, refs, line, c, b + 1, k);
      JoinLeft(a, before, ListEdges(h, c[k], line), after);
      before := a + before;
    }
  }

  lemma FrontJoin(a: seq<Edge>, b: seq<Edge>, c: seq<Edge>)
    ensures a + b + c == [] + a + (b + c)
  {
  }

  lemma JoinLeft(a: seq<Edge>, b: seq<Edge>, c: seq<Edge>, d: seq<Edge>)
    ensures (a + b + c) + d == a + (b + c + d)
  {
  }

  /** One step along the line. */
  lemma LineRest(h: Heap, refs: Refs, line: nat, c: seq<nat>, b: nat) returns (rest: seq<Edge>)
    requires InLine(h, c) && b < |c| && b < 512
    ensures LineEdges(h, refs, line, c[b], b) == ListEdges(h, c[b], line) + RefsOf(refs, c[b]) + rest
    ensures b + 1 < |c| ==> rest == LineEdges(h, refs, line, c[b + 1], b + 1)
  {
    assert Object(h, c[b]);
    rest := if h[c[b]].lineNext == c[b] then [] else LineEdges(h, refs, line, h[c[b]].lineNext, b + 1);
  }

  lemma {:induction false} LinesHave(h: Heap, refs: Refs, heads: seq<nat>, line: nat, c: seq<nat>, k: nat, n: nat)
    returns (before: seq<Edge>, after: seq<Edge>)
    requires line < n <= |heads| && InLine(h, c) && k < |c| && k < 512 && c[0] == heads[line]
    ensures AllEdges(h, refs, heads, n) == before + ListEdges(h, c[k], line) + after
    decreases n
  {
    var g, a := ListEdges(h, c[k], line), AllEdges(h, refs, heads, n - 1);
    var l := LineEdges(h, refs, n - 1, heads[n - 1], 0);
    assert AllEdges(h, refs, heads, n) == a + l;
    if n == line + 1 {
      before, after := LineHas(h, refs, line, c, 0, k);
      JoinLeft(a, before, g, after);
      before := a + before;
    } else {
      before, after := LinesHave(h, refs, heads, line, c, k, n - 1);
      JoinRight(before, g, after, l);
      after := after + l;
    }
  }

  lemma JoinRight(a: seq<Edge>, b: seq<Edge>, c: seq<Edge>, d: seq<Edge>)
    ensures a + b + (c + d) == (a + b + c) + d
  {
  }

  /** The walk captures the child list of each of the first 512 entities of every line. */
  lemma EveryListIsWalked(h: Heap, refs: Refs, heads: seq<nat>, tails: seq<Edge>, line: nat, c: seq<nat>, k: nat)
    returns (before: seq<Edge>, after: seq<Edge>)
    requires line < |heads| && InLine(h, c) && k < |c| && k < 512 && c[0] == heads[line]
    ensures Walk(h, refs, heads, tails) == before + ListEdges(h, c[k], line) + after
  {
    before, after := LinesHave(h, refs, heads, line, c, k, |heads|);
    JoinRight(before, ListEdges(h, c[k], line), after, tails);
    after := after + tails;
  }

  /** The capture of a list of more than 512 children does not reach its end. */
  lemma LongListIsCut(h: Heap, ent: nat, line: nat, c: seq<nat>)
    requires HasList(h, ent) && Follow(h, c) && |c| > 512 && c[0] == h[ent].kids
    ensures !RunsToEnd(h, ListEdges(h, ent, line))
  {
    KidsFrom(h, ent, line, ent + HEAD_OFF, c, 0, WALK_MAX);
    assert Links(ListEdges(h, ent, line)) == c[..WALK_MAX];
    assert Object(h, c[WALK_MAX]) && h[c[WALK_MAX - 1]].next == c[WALK_MAX];
  }

  /** So re-threading it in the same memory changes it. */
  lemma LongListChanges(h: Heap, ent: nat, line: nat, c: seq<nat>)
    requires Committed(h, ent) && HasList(h, ent) && Distinct(Links(ListEdges(h, ent, line)))
    requires Follow(h, c) && |c| > 512 && c[0] == h[ent].kids
    ensures Threaded(h, ent, Survivors(h, ListEdges(h, ent, line))) != h
  {
    LongListIsCut(h, ent, line, c);
    RoundTripIff(h, ent, line);
  }

  lemma LinksDistinct(g: seq<Edge>)
    requires Distinct(Links(g))
    ensures forall k, m :: 0 <= k < m < |g| ==> g[k].link != g[m].link
  {
    var l := Links(g);
    forall k, m | 0 <= k < m < |g| ensures g[k].link != g[m].link {
      assert l[k] != l[m] && l[k] == g[k].link && l[m] == g[m].link;
    }
  }

  lemma RoundTripKeeps(h: Heap, ent: nat, line: nat)
    requires Committed(h, ent) && HasList(h, ent) && Distinct(Links(ListEdges(h, ent, line)))
    requires AllOwned(h, ListEdges(h, ent, line), ent) && RunsToEnd(h, ListEdges(h, ent, line))
    ensures Threaded(h, ent, Survivors(h, ListEdges(h, ent, line))) == h
  {
    var g := ListEdges(h, ent, line);
    ListNumbered(h, ent, line);
    AllSurvive(h, g);
    var c := Links(g);
    ThreadedIsList(h, ent, c);
    forall k | 0 <= k < |c| ensures LinkedOn(h, c, k) {
      assert k + 1 < |c| ==> h[g[k].link].next == g[k + 1].link;
    }
    SameWhenLinked(h, Threaded(h, ent, c), ent, c);
  }

  lemma SameWhenLinked(h: Heap, h': Heap, ent: nat, c: seq<nat>)
    requires OnlyList(h, h', ent, c) && ListIs(h', ent, c) && c != [] && h[ent].kids == c[0]
    requires forall k :: 0 <= k < |c| ==> LinkedOn(h, c, k)
    ensures h' == h
  {
    forall x | x in h ensures h'[x] == h[x] {
      if x in c {
        var k :| 0 <= k < |c| && c[k] == x;
        assert LinkedOn(h', c, k) && LinkedOn(h, c, k);
      }
    }
  }

  lemma RoundTripBreaks(h: Heap, ent: nat, line: nat, c: seq<nat>)
    requires Committed(h, ent) && HasList(h, ent) && ListIs(h, ent, c) && c == Survivors(h, ListEdges(h, ent, line))
    ensures AllOwned(h, ListEdges(h, ent, line), ent) && RunsToEnd(h, ListEdges(h, ent, line))
  {
    var g := ListEdges(h, ent, line);
    ListNumbered(h, ent, line);
    FewerOrAll(h, g);
    forall k | 0 <= k < |g| ensures g[k].link in h && g[k].link != 0 {
      assert KidAt(h, g[k], ent, line, k);
    }
    Agree(h, g, c, ent, |g| - 1);
    assert LinkedOn(h, c, |c| - 1);
    forall k | 0 <= k < |g| ensures Coherent(h, g[k]) {
      if !Coherent(h, g[k]) {
        SomeDie(h, g, k);
      }
    }
  }

  /** The list and its capture run side by side, to the end of the capture. */
  lemma {:induction false} Agree(h: Heap, g: seq<Edge>, c: seq<nat>, ent: nat, k: nat)
    requires ListIs(h, ent, c) && k < |g| && g[0].link == h[ent].kids
    requires forall k :: 0 <= k < |g| ==> g[k].link in h && g[k].link != 0
    requires forall k :: 0 < k < |g| ==> h[g[k - 1].link].next == g[k].link
    ensures k < |c| && g[k].link == c[k]
    decreases k
  {
    assert g[k].link != 0;
    if k == 0 {
    } else {
      Agree(h, g, c, ent, k - 1);
      assert h[g[k - 1].link].next == g[k].link;
      assert LinkedOn(h, c, k - 1);
    }
  }
}

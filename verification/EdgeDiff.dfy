/** The cross-boundary edge diff over every reverted page (src/edge_break.cpp). */
module EdgeDiff {
  import opened Pages

  const QWORDS: nat := 512
  const POISON: nat := 0xFFFF_FFFF_FFFF_FFFF

  function LittleEndian(bytes: seq<Byte>): nat {
    if bytes == [] then 0 else bytes[0] as nat + 0x100 * LittleEndian(bytes[1..])
  }

  function Qword(pg: Page, i: nat): nat
    requires i < QWORDS
  {
    LittleEndian(pg[8 * i..8 * i + 8])
  }

  /** The two address ranges that are no external memory: the arena reverts, the module is const. */
  datatype Ranges = Ranges(arenaLo: nat, arenaHi: nat, modLo: nat, modHi: nat)

  /** The range checks the scan makes, in its order. */
  predicate IsOoaPtr(r: Ranges, v: nat) {
    if v < 0x10000 then false
    else if v >= 0x0000_8000_0000_0000 then false
    else if v % 8 != 0 then false
    else if r.arenaLo <= v < r.arenaHi then false
    else if r.modLo != 0 && r.modLo <= v < r.modHi then false
    else true
  }

  /** A pointer to memory the revert does not own: a canonical, aligned user address outside the arena and,
      once it is known, the module. */
  ghost predicate External(r: Ranges, v: nat) {
    && 0x10000 <= v < 0x8000_0000_0000
    && (exists k: nat :: v == 8 * k)
    && (v < r.arenaLo || r.arenaHi <= v)
    && (r.modLo == 0 || v < r.modLo || r.modHi <= v)
  }

  lemma IsOoaPtrIs(r: Ranges, v: nat)
    ensures IsOoaPtr(r, v) <==> External(r, v)
  {
    assert v % 8 == 0 ==> v == 8 * (v / 8);
  }

  /** A qword is read as a little-endian word. */
  lemma QwordIs(pg: Page, i: nat)
    requires i < QWORDS
    ensures Qword(pg, i) ==
      pg[8 * i] as nat + 0x100 * pg[8 * i + 1] as nat + 0x1_0000 * pg[8 * i + 2] as nat
      + 0x100_0000 * pg[8 * i + 3] as nat + 0x1_0000_0000 * pg[8 * i + 4] as nat
      + 0x100_0000_0000 * pg[8 * i + 5] as nat + 0x1_0000_0000_0000 * pg[8 * i + 6] as nat
      + 0x100_0000_0000_0000 * pg[8 * i + 7] as nat
  {
    var q := pg[8 * i..8 * i + 8];
    assert LittleEndian(q[7..]) == q[7] as nat && LittleEndian(q[6..]) == q[6] as nat + 0x100 * LittleEndian(q[7..]);
    assert LittleEndian(q[5..]) == q[5] as nat + 0x100 * LittleEndian(q[6..]);
    assert LittleEndian(q[4..]) == q[4] as nat + 0x100 * LittleEndian(q[5..]);
    assert LittleEndian(q[3..]) == q[3] as nat + 0x100 * LittleEndian(q[4..]);
    assert LittleEndian(q[2..]) == q[2] as nat + 0x100 * LittleEndian(q[3..]);
    assert LittleEndian(q[1..]) == q[1] as nat + 0x100 * LittleEndian(q[2..]);
  }

  /** What a revert did to one qword. */
  datatype Kind = Same | Plain | ToNull | ToPoison | ToOther | Introduced

  function KindOf(r: Ranges, x: nat, y: nat): Kind {
    if x == y then Same
    else if !IsOoaPtr(r, x) && !IsOoaPtr(r, y) then Plain
    else if !IsOoaPtr(r, x) then Introduced
    else if y == 0 then ToNull
    else if y == POISON then ToPoison
    else ToOther
  }

  /** Changed qwords, and the four ways an edge can break. */
  datatype Counts = Counts(changed: int, toNull: int, toPoison: int, toOther: int, introduced: int) {
    function Plus(c: Counts): Counts {
      Counts(changed + c.changed, toNull + c.toNull, toPoison + c.toPoison, toOther + c.toOther,
             introduced + c.introduced)
    }

    function Broken(): int {
      toNull + toPoison + toOther + introduced
    }
  }

  // ---------- the specification: how many qwords of each kind, in a page and in the arena ----------

  function QwordCounts(k: Kind): Counts {
    match k
    case Same => Counts(0, 0, 0, 0, 0)
    case Plain => Counts(1, 0, 0, 0, 0)
    case ToNull => Counts(1, 1, 0, 0, 0)
    case ToPoison => Counts(1, 0, 1, 0, 0)
    case ToOther => Counts(1, 0, 0, 1, 0)
    case Introduced => Counts(1, 0, 0, 0, 1)
  }

  function PageCounts(r: Ranges, pre: Page, post: Page, n: nat): Counts
    requires n <= QWORDS
  {
    if n == 0 then Counts(0, 0, 0, 0, 0)
    else
      PageCounts(r, pre, post, n - 1).Plus(QwordCounts(KindOf(r, Qword(pre, n - 1), Qword(post, n - 1))))
  }

  function ArenaCounts(r: Ranges, pre: seq<Page>, post: seq<Page>, n: nat): Counts
    requires n <= |pre| && n <= |post|
  {
    if n == 0 then Counts(0, 0, 0, 0, 0)
    else ArenaCounts(r, pre, post, n - 1).Plus(PageCounts(r, pre[n - 1], post[n - 1], |pre[n - 1]| / 8))
  }

  /** The per-rollback tallies. */
  class EdgeBreak {
    const ranges: Ranges
    var on: bool
    var tally: Counts
    var pages: nat

    constructor (ranges: Ranges)
      ensures this.ranges == ranges && on && tally == Counts(0, 0, 0, 0, 0)
    {
      this.ranges := ranges;
      on, tally, pages := true, Counts(0, 0, 0, 0, 0), 0;
    }

    method Begin()
      modifies this`tally, this`pages
      ensures tally == if on then Counts(0, 0, 0, 0, 0) else old(tally)
      ensures pages == if on then 0 else old(pages)
    {
      if on {
        tally, pages := Counts(0, 0, 0, 0, 0), 0;
      }
    }

    /** Diff one reverted page: pre holds the live bytes, post the restored ones. */
    method DiffPage(pre: Page, post: Page, len: nat)
      requires len <= PAGE_SIZE
      modifies this`tally, this`pages
      ensures tally == if on then old(tally).Plus(PageCounts(ranges, pre, post, len / 8)) else old(tally)
      ensures pages == old(pages) + if on then 1 else 0
    {
      if on {
        pages := pages + 1;
        DiffQwords(pre, post, len / 8);
      }
    }

    method DiffQwords(pre: Page, post: Page, n: nat)
      requires n <= QWORDS
      modifies this`tally
      ensures tally == old(tally).Plus(PageCounts(ranges, pre, post, n))
    {
      for i := 0 to n
        invariant tally == old(tally).Plus(PageCounts(ranges, pre, post, i))
      {
        DiffQword(Qword(pre, i), Qword(post, i));
      }
    }

    method DiffQword(x: nat, y: nat)
      modifies this`tally
      ensures tally == old(tally).Plus(QwordCounts(KindOf(ranges, x, y)))
    {
      if x == y {
        return;
      }
      tally := tally.(changed := tally.changed + 1);
      var px, py := IsOoaPtr(ranges, x), IsOoaPtr(ranges, y);
      if !px && !py {
        return;
      }
      if px {
        if y == 0 {
          tally := tally.(toNull := tally.toNull + 1);
        } else if y == POISON {
          tally := tally.(toPoison := tally.toPoison + 1);
        } else {
          tally := tally.(toOther := tally.toOther + 1);
        }
      } else {
        tally := tally.(introduced := tally.introduced + 1);
      }
    }
  }

  // ---------- what the counters mean ----------

  lemma {:induction false} SamePageCountsNothing(r: Ranges, pg: Page, n: nat)
    requires n <= QWORDS
    ensures PageCounts(r, pg, pg, n) == Counts(0, 0, 0, 0, 0)
  {
    if n == 0 {
    } else {
      SamePageCountsNothing(r, pg, n - 1);
    }
  }

  /** An edge is broken when a qword changed that held an external pointer before or after. */
  ghost predicate Breaks(r: Ranges, x: nat, y: nat) {
    x != y && (External(r, x) || External(r, y))
  }

  lemma KindIsBreak(r: Ranges, x: nat, y: nat)
    ensures IsBreak(KindOf(r, x, y)) <==> Breaks(r, x, y)
  {
    IsOoaPtrIs(r, x);
    IsOoaPtrIs(r, y);
  }

  // ---------- the counters as sizes of sets ----------

  /** What the revert did to each qword of a page. */
  function Kinds(r: Ranges, pre: Page, post: Page): (ks: seq<Kind>)
    ensures |ks| == QWORDS
    ensures forall i :: 0 <= i < QWORDS ==> ks[i] == KindOf(r, Qword(pre, i), Qword(post, i))
    ensures forall i :: 0 <= i < QWORDS ==> (ks[i] == Same <==> Qword(pre, i) == Qword(post, i))
  {
    seq(QWORDS, i requires 0 <= i < QWORDS => KindOf(r, Qword(pre, i), Qword(post, i)))
  }

  function Tally(ks: seq<Kind>): Counts {
    if ks == [] then Counts(0, 0, 0, 0, 0) else Tally(ks[..|ks| - 1]).Plus(QwordCounts(ks[|ks| - 1]))
  }

  lemma TallyNext(ks: seq<Kind>, n: nat)
    requires 0 < n <= |ks|
    ensures Tally(ks[..n]) == Tally(ks[..n - 1]).Plus(QwordCounts(ks[n - 1]))
  {
    assert ks[..n][..n - 1] == ks[..n - 1];
  }

  lemma {:induction false} PageIsTally(r: Ranges, pre: Page, post: Page, n: nat)
    requires n <= QWORDS
    ensures PageCounts(r, pre, post, n) == Tally(Kinds(r, pre, post)[..n])
  {
    if n == 0 {
    } else {
      var ks := Kinds(r, pre, post);
      PageIsTally(r, pre, post, n - 1);
      TallyNext(ks, n);
    }
  }

  function Rows(r: Ranges, pre: seq<Page>, post: seq<Page>, n: nat): (rows: seq<seq<Kind>>)
    requires n <= |pre| && n <= |post|
    ensures |rows| == n && forall p :: 0 <= p < n ==> rows[p] == Kinds(r, pre[p], post[p])
  {
    seq(n, p requires 0 <= p < n => Kinds(r, pre[p], post[p]))
  }

  function TallyRows(rows: seq<seq<Kind>>): Counts {
    if rows == [] then Counts(0, 0, 0, 0, 0) else TallyRows(rows[..|rows| - 1]).Plus(Tally(rows[|rows| - 1]))
  }

  lemma WholePageIsTally(r: Ranges, pre: Page, post: Page)
    ensures PageCounts(r, pre, post, |pre| / 8) == Tally(Kinds(r, pre, post))
  {
    var ks := Kinds(r, pre, post);
    PageIsTally(r, pre, post, |pre| / 8);
    assert ks[..|pre| / 8] == ks;
  }

  lemma {:induction false} ArenaIsTally(r: Ranges, pre: seq<Page>, post: seq<Page>, n: nat)
    requires n <= |pre| && n <= |post|
    ensures ArenaCounts(r, pre, post, n) == TallyRows(Rows(r, pre, post, n))
  {
    if n == 0 {
    } else {
      ArenaIsTally(r, pre, post, n - 1);
      WholePageIsTally(r, pre[n - 1], post[n - 1]);
      var rows := Rows(r, pre, post, n);
      assert rows[..n - 1] == Rows(r, pre, post, n - 1) && rows[n - 1] == Kinds(r, pre[n - 1], post[n - 1]);
    }
  }

  /** The counter of each way; plain changes count as changed and as nothing else. */
  function Field(c: Counts, k: Kind): int {
    match k
    case Same => 0
    case Plain => c.changed - c.Broken()
    case ToNull => c.toNull
    case ToPoison => c.toPoison
    case ToOther => c.toOther
    case Introduced => c.introduced
  }

  ghost function Places(ks: seq<Kind>, k: Kind): set<nat> {
    set i: nat | i < |ks| && ks[i] == k
  }

  lemma FieldAdds(c: Counts, j: Kind, k: Kind)
    requires k != Same
    ensures Field(c.Plus(QwordCounts(j)), k) == Field(c, k) + if j == k then 1 else 0
  {
  }

  lemma NoPlaces(ks: seq<Kind>, k: Kind)
    requires ks == []
    ensures |Places(ks, k)| == 0
  {
    assert Places(ks, k) == {};
  }

  lemma NoHits(rows: seq<seq<Kind>>, k: Kind)
    requires rows == []
    ensures |Hits(rows, k)| == 0
  {
    assert Hits(rows, k) == {};
  }

  lemma PlacesNext(ks: seq<Kind>, k: Kind, n: nat)
    requires |ks| == n + 1
    ensures |Places(ks, k)| == |Places(ks[..n], k)| + if ks[n] == k then 1 else 0
  {
    var a, b := Places(ks, k), Places(ks[..n], k);
    forall i: nat ensures i in a <==> i in b || (i == n && ks[n] == k) {
      assert i in b <==> i < n && ks[i] == k;
    }
    if ks[n] == k {
      assert a == b + {n};
    } else {
      assert a == b;
    }
  }

  lemma {:induction false} TallyIsSize(ks: seq<Kind>, k: Kind)
    requires k != Same
    ensures Field(Tally(ks), k) == |Places(ks, k)|
    decreases |ks|
  {
    if ks == [] {
      NoPlaces(ks, k);
    } else {
      var n := |ks| - 1;
      TallyIsSize(ks[..n], k);
      FieldAdds(Tally(ks[..n]), ks[n], k);
      PlacesNext(ks, k, n);
    }
  }

  /** The qwords that were changed in way k, by page and place. */
  ghost function Hits(rows: seq<seq<Kind>>, k: Kind): set<(nat, nat)> {
    set p: nat, i: nat | p < |rows| && i < |rows[p]| && rows[p][i] == k :: (p, i)
  }

  ghost function Tagged(s: set<nat>, p: nat): set<(nat, nat)> {
    set i: nat | i in s :: (p, i)
  }

  lemma {:induction false} TaggedSize(s: set<nat>, p: nat)
    ensures |Tagged(s, p)| == |s|
    decreases |s|
  {
    if s == {} {
      assert Tagged(s, p) == {};
    } else {
      var x :| x in s;
      TaggedSize(s - {x}, p);
      assert Tagged(s, p) == Tagged(s - {x}, p) + {(p, x)};
    }
  }

  lemma {:induction false} RowsAreSizes(rows: seq<seq<Kind>>, k: Kind)
    requires k != Same
    ensures Field(TallyRows(rows), k) == |Hits(rows, k)|
    decreases |rows|
  {
    if rows == [] {
      NoHits(rows, k);
    } else {
      var n := |rows| - 1;
      RowsAreSizes(rows[..n], k);
      TallyIsSize(rows[n], k);
      HitsNext(rows, k, n);
      FieldJoins(TallyRows(rows[..n]), Tally(rows[n]), k);
    }
  }

  lemma FieldJoins(c: Counts, d: Counts, k: Kind)
    ensures Field(c.Plus(d), k) == Field(c, k) + Field(d, k)
  {
  }

  lemma HitsNext(rows: seq<seq<Kind>>, k: Kind, n: nat)
    requires |rows| == n + 1
    ensures |Hits(rows, k)| == |Hits(rows[..n], k)| + |Places(rows[n], k)|
  {
    var a, b := Hits(rows[..n], k), Tagged(Places(rows[n], k), n);
    TaggedSize(Places(rows[n], k), n);
    forall x ensures x in Hits(rows, k) <==> x in a || x in b {
      assert x in a <==> x.0 < n && x.1 < |rows[x.0]| && rows[x.0][x.1] == k;
      assert x in b <==> x.0 == n && x.1 < |rows[n]| && rows[n][x.1] == k;
    }
    assert Hits(rows, k) == a + b && a !! b;
  }

  /** Each counter is the number of arena qwords the revert changed in its way. */
  lemma CountersAreSizes(r: Ranges, pre: seq<Page>, post: seq<Page>, n: nat, k: Kind)
    requires n <= |pre| && n <= |post| && k != Same
    ensures Field(ArenaCounts(r, pre, post, n), k) == |Hits(Rows(r, pre, post, n), k)|
  {
    ArenaIsTally(r, pre, post, n);
    RowsAreSizes(Rows(r, pre, post, n), k);
  }

  ghost function Changed(pre: seq<Page>, post: seq<Page>, n: nat): set<(nat, nat)>
    requires n <= |pre| && n <= |post|
  {
    set p: nat, i: nat | p < n && i < QWORDS && Qword(pre[p], i) != Qword(post[p], i) :: (p, i)
  }

  ghost function NotSame(rows: seq<seq<Kind>>): set<(nat, nat)> {
    set p: nat, i: nat | p < |rows| && i < |rows[p]| && rows[p][i] != Same :: (p, i)
  }

  predicate IsBreak(k: Kind) {
    k != Same && k != Plain
  }

  ghost function BreakHits(rows: seq<seq<Kind>>): set<(nat, nat)> {
    set p: nat, i: nat | p < |rows| && i < |rows[p]| && IsBreak(rows[p][i]) :: (p, i)
  }

  lemma BreakHitsSize(rows: seq<seq<Kind>>)
    ensures TallyRows(rows).Broken() == |BreakHits(rows)|
  {
    var a, b, c, d := Hits(rows, ToNull), Hits(rows, ToPoison), Hits(rows, ToOther), Hits(rows, Introduced);
    RowsAreSizes(rows, ToNull);
    RowsAreSizes(rows, ToPoison);
    RowsAreSizes(rows, ToOther);
    RowsAreSizes(rows, Introduced);
    BreakHitsSplit(rows, a, b, c, d);
    FourSizes(BreakHits(rows), a, b, c, d);
  }

  lemma BreakHitsSplit(rows: seq<seq<Kind>>, a: set<(nat, nat)>, b: set<(nat, nat)>, c: set<(nat, nat)>,
                       d: set<(nat, nat)>)
    requires a == Hits(rows, ToNull) && b == Hits(rows, ToPoison)
    requires c == Hits(rows, ToOther) && d == Hits(rows, Introduced)
    ensures forall x :: x in BreakHits(rows) <==> x in a || x in b || x in c || x in d
    ensures a !! b && (a + b) !! c && (a + b + c) !! d
  {
    forall x ensures x in BreakHits(rows) <==> x in a || x in b || x in c || x in d {
      assert x in BreakHits(rows) <==> x.0 < |rows| && x.1 < |rows[x.0]| && IsBreak(rows[x.0][x.1]);
    }
  }

  lemma FourSizes(s: set<(nat, nat)>, a: set<(nat, nat)>, b: set<(nat, nat)>, c: set<(nat, nat)>, d: set<(nat, nat)>)
    requires (forall x :: x in s <==> x in a || x in b || x in c || x in d)
    requires a !! b && (a + b) !! c && (a + b + c) !! d
    ensures |s| == |a| + |b| + |c| + |d|
  {
    assert s == a + b + c + d;
  }

  lemma NotSameSize(rows: seq<seq<Kind>>)
    ensures TallyRows(rows).changed == |NotSame(rows)|
  {
    var a, b := Hits(rows, Plain), BreakHits(rows);
    RowsAreSizes(rows, Plain);
    BreakHitsSize(rows);
    forall x ensures x in NotSame(rows) <==> x in a || x in b {
      assert x in NotSame(rows) <==> x.0 < |rows| && x.1 < |rows[x.0]| && rows[x.0][x.1] != Same;
      assert x in b <==> x.0 < |rows| && x.1 < |rows[x.0]| && IsBreak(rows[x.0][x.1]);
    }
    assert NotSame(rows) == a + b && a !! b;
  }

  /** The qwords where an edge broke, by page and place. */
  ghost function BrokenEdges(r: Ranges, pre: seq<Page>, post: seq<Page>, n: nat): set<(nat, nat)>
    requires n <= |pre| && n <= |post|
  {
    set p: nat, i: nat | p < n && i < QWORDS && Breaks(r, Qword(pre[p], i), Qword(post[p], i)) :: (p, i)
  }

  /** The four counters partition the broken edges of the arena: their sum is how many qwords changed
      that held an external pointer before or after. */
  lemma FourCountersPartition(r: Ranges, pre: seq<Page>, post: seq<Page>, n: nat)
    requires n <= |pre| && n <= |post|
    ensures ArenaCounts(r, pre, post, n).Broken() == |BrokenEdges(r, pre, post, n)|
  {
    var rows := Rows(r, pre, post, n);
    ArenaIsTally(r, pre, post, n);
    BreakHitsSize(rows);
    BreakHitsAreEdges(r, pre, post, n);
  }

  lemma BreakHitsAreEdges(r: Ranges, pre: seq<Page>, post: seq<Page>, n: nat)
    requires n <= |pre| && n <= |post|
    ensures BreakHits(Rows(r, pre, post, n)) == BrokenEdges(r, pre, post, n)
  {
    var a, b := BreakHits(Rows(r, pre, post, n)), BrokenEdges(r, pre, post, n);
    forall x ensures x in a <==> x in b {
      BreakHitIsEdge(r, pre, post, n, x.0, x.1);
    }
  }

  lemma BreakHitIsEdge(r: Ranges, pre: seq<Page>, post: seq<Page>, n: nat, p: nat, i: nat)
    requires n <= |pre| && n <= |post|
    ensures (p, i) in BreakHits(Rows(r, pre, post, n)) <==> (p, i) in BrokenEdges(r, pre, post, n)
  {
    if p < n && i < QWORDS {
      var rows := Rows(r, pre, post, n);
      KindIsBreak(r, Qword(pre[p], i), Qword(post[p], i));
    }
  }

  /** A report of zero means exactly that no edge broke anywhere in the arena. */
  lemma ZeroMeansNoEdgeBroke(r: Ranges, pre: seq<Page>, post: seq<Page>, n: nat)
    requires n <= |pre| && n <= |post|
    ensures ArenaCounts(r, pre, post, n).Broken() == 0 <==>
      forall p, i :: 0 <= p < n && 0 <= i < QWORDS ==> !Breaks(r, Qword(pre[p], i), Qword(post[p], i))
  {
    var s := BrokenEdges(r, pre, post, n);
    FourCountersPartition(r, pre, post, n);
    if s == {} {
      forall p: nat, i: nat | p < n && i < QWORDS ensures !Breaks(r, Qword(pre[p], i), Qword(post[p], i)) {
        assert (p, i) !in s;
      }
    } else {
      var x :| x in s;
      assert Breaks(r, Qword(pre[x.0], x.1), Qword(post[x.0], x.1));
    }
  }

  /** The way each broken edge is counted: nulled, poisoned, redirected, or resurrected. */
  ghost predicate Counted(r: Ranges, x: nat, y: nat, k: Kind) {
    match k
    case Same => x == y
    case Plain => x != y && !External(r, x) && !External(r, y)
    case ToNull => External(r, x) && y == 0
    case ToPoison => External(r, x) && y == 0xFFFF_FFFF_FFFF_FFFF
    case ToOther => External(r, x) && y != x && y != 0 && y != 0xFFFF_FFFF_FFFF_FFFF
    case Introduced => !External(r, x) && External(r, y)
  }

  lemma KindIsCounted(r: Ranges, x: nat, y: nat, k: Kind)
    ensures KindOf(r, x, y) == k <==> Counted(r, x, y, k)
  {
    IsOoaPtrIs(r, x);
    IsOoaPtrIs(r, y);
  }

  ghost function Edges(r: Ranges, pre: seq<Page>, post: seq<Page>, n: nat, k: Kind): set<(nat, nat)>
    requires n <= |pre| && n <= |post|
  {
    set p: nat, i: nat | p < n && i < QWORDS && Counted(r, Qword(pre[p], i), Qword(post[p], i), k) :: (p, i)
  }

  lemma HitIsEdge(r: Ranges, pre: seq<Page>, post: seq<Page>, n: nat, k: Kind, p: nat, i: nat)
    requires n <= |pre| && n <= |post|
    ensures (p, i) in Hits(Rows(r, pre, post, n), k) <==> (p, i) in Edges(r, pre, post, n, k)
  {
    if p < n && i < QWORDS {
      KindIsCounted(r, Qword(pre[p], i), Qword(post[p], i), k);
    }
  }

  /** Each of the four counters by itself: external pointers now null, now poison, now something else, and
      values that are external pointers only after the revert. */
  lemma CountersByWay(r: Ranges, pre: seq<Page>, post: seq<Page>, n: nat)
    requires n <= |pre| && n <= |post|
    ensures ArenaCounts(r, pre, post, n).toNull == |Edges(r, pre, post, n, ToNull)|
    ensures ArenaCounts(r, pre, post, n).toPoison == |Edges(r, pre, post, n, ToPoison)|
    ensures ArenaCounts(r, pre, post, n).toOther == |Edges(r, pre, post, n, ToOther)|
    ensures ArenaCounts(r, pre, post, n).introduced == |Edges(r, pre, post, n, Introduced)|
  {
    forall k: Kind | k != Same ensures Hits(Rows(r, pre, post, n), k) == Edges(r, pre, post, n, k) {
      forall x ensures x in Hits(Rows(r, pre, post, n), k) <==> x in Edges(r, pre, post, n, k) {
        HitIsEdge(r, pre, post, n, k, x.0, x.1);
      }
    }
    CountersAreSizes(r, pre, post, n, ToNull);
    CountersAreSizes(r, pre, post, n, ToPoison);
    CountersAreSizes(r, pre, post, n, ToOther);
    CountersAreSizes(r, pre, post, n, Introduced);
  }

  /** The changed counter is the number of arena qwords that differ. */
  lemma ChangedIsSize(r: Ranges, pre: seq<Page>, post: seq<Page>, n: nat)
    requires n <= |pre| && n <= |post|
    ensures ArenaCounts(r, pre, post, n).changed == |Changed(pre, post, n)|
  {
    ArenaIsTally(r, pre, post, n);
    NotSameSize(Rows(r, pre, post, n));
    assert NotSame(Rows(r, pre, post, n)) == Changed(pre, post, n);
  }
}

/**
 Objects kept at their live epoch across a load (src/audio_preserve.cpp): their bytes are captured
 before it and written back over the reverted pages after it. Addresses are arena offsets.
 */
module AudioPreserve {
  import opened Pages
  import opened DeltaStore
  import opened SnapshotEngine

  const SNAP_CAP: nat := 2 * 1024 * 1024
  const MAX_REG: nat := 256

  datatype Reg = Reg(base: nat, size: nat, off: nat) {
    predicate Has(x: nat) {
      base <= x < base + size
    }
  }

  ghost predicate InRegs(regs: seq<Reg>, x: nat) {
    exists i :: 0 <= i < |regs| && regs[i].Has(x)
  }

  /** The scratch buffer holds every recorded region's bytes of live. */
  ghost predicate Holding(regs: seq<Reg>, snap: seq<Byte>, live: Memory) {
    forall i :: 0 <= i < |regs| ==> HoldsRegion(regs[i], snap, live)
  }

  ghost predicate HoldsRegion(r: Reg, snap: seq<Byte>, live: Memory) {
    && r.base + r.size <= ARENA_SIZE && r.off + r.size <= |snap|
    && forall x: nat :: r.Has(x) ==> snap[r.off + (x - r.base)] == ByteAt(live, x)
  }

  function Bytes(m: Memory, base: nat, size: nat): seq<Byte>
    requires base + size <= ARENA_SIZE
  {
    seq(size, i requires 0 <= i < size => ByteAt(m, base + i))
  }

  /** Readability as the code tests it. */
  predicate Readable(committed: set<nat>, base: nat, size: nat) {
    size > 0 && base + size <= ARENA_SIZE && PageOf(base) in committed && PageOf(base + size - 1) in committed
  }

  /** A region of the two gigabytes whose first and last byte lie in committed pages of 4096 bytes. */
  ghost predicate Mapped(committed: set<nat>, base: nat, size: nat) {
    && size >= 1 && base + size <= 0x8000_0000
    && (exists p :: p in committed && p * 4096 <= base < p * 4096 + 4096)
    && (exists p :: p in committed && p * 4096 < base + size <= p * 4096 + 4096)
  }

  lemma ReadableIs(committed: set<nat>, base: nat, size: nat)
    ensures Readable(committed, base, size) <==> Mapped(committed, base, size)
  {
    assert base / 4096 * 4096 <= base < base / 4096 * 4096 + 4096;
    if size >= 1 {
      var e := base + size - 1;
      assert e / 4096 * 4096 <= e < e / 4096 * 4096 + 4096;
    }
  }

  /** A readable region has no uncommitted page inside, or the copy would fault. */
  ghost predicate Solid(committed: set<nat>, base: nat, size: nat) {
    Mapped(committed, base, size) ==> forall x :: base <= x < base + size ==> PageOf(x) in committed
  }

  /** The recorded regions are committed, and the scratch buffer has their bytes of live. */
  ghost predicate Captured(regs: seq<Reg>, snap: seq<Byte>, live: Memory, committed: set<nat>) {
    && Holding(regs, snap, live)
    && (forall i :: 0 <= i < |regs| ==> Mapped(committed, regs[i].base, regs[i].size))
    && (forall i :: 0 <= i < |regs| ==> Solid(committed, regs[i].base, regs[i].size))
  }

  /** Every page that changed is noted by the write watch. */
  ghost predicate OnlyWatched(m: Memory, watch: set<nat>, m': Memory, watch': set<nat>) {
    watch <= watch' && forall p :: 0 <= p < MAX_PAGES && p !in watch' ==> m'[p] == m[p]
  }

  class Preserver {
    var regs: seq<Reg>
    var snap: seq<Byte>
    var dropped: nat

    ghost predicate Valid(a: Arena)
      reads this, a, a.mem, a.ring
    {
      && a.Valid() && Captured(regs, snap, a.mem[..], a.committed)
      && |regs| <= MAX_REG && |snap| <= SNAP_CAP
      && (forall i, j :: 0 <= i < j < |regs| ==> regs[i].base != regs[j].base)
    }

    constructor ()
      ensures regs == [] && snap == [] && dropped == 0
    {
      regs, snap, dropped := [], [], 0;
    }

    ghost predicate HasBase(base: nat)
      reads this
    {
      exists i :: 0 <= i < |regs| && regs[i].base == base
    }

    ghost predicate Room(size: nat)
      reads this
    {
      |regs| < 256 && |snap| + size <= 0x20_0000
    }

    /** Captures one region; a base already captured keeps its first extent. */
    method Grab(a: Arena, base: nat, size: nat)
      requires Valid(a) && Solid(a.committed, base, size)
      modifies this
      ensures Valid(a)
      ensures var takes := Mapped(a.committed, base, size) && !old(HasBase(base));
        && regs == (if takes && old(Room(size)) then old(regs) + [Reg(base, size, |old(snap)|)] else old(regs))
        && dropped == if takes && !old(Room(size)) then old(dropped) + 1 else old(dropped)
    {
      ReadableIs(a.committed, base, size);
      if !Readable(a.committed, base, size) {
        return;
      }
      for i := 0 to |regs|
        invariant forall k :: 0 <= k < i ==> regs[k].base != base
      {
        if regs[i].base == base {
          return;
        }
      }
      if |regs| >= MAX_REG || |snap| + size > SNAP_CAP {
        dropped := dropped + 1;
        return;
      }
      HoldingMore(regs, snap, a.mem[..], base, size);
      regs := regs + [Reg(base, size, |snap|)];
      snap := snap + Bytes(a.mem[..], base, size);
    }

    /** Captures the candidate regions, in order, from live memory. Only candidates are recorded; when
        none had to be dropped for lack of room, they are the first readable ones at their bases. */
    method Save(a: Arena, candidates: seq<(nat, nat)>)
      requires a.Valid() && forall i :: 0 <= i < |candidates| ==> Solid(a.committed, candidates[i].0, candidates[i].1)
      modifies this
      ensures Valid(a)
      ensures forall c :: c in Extents(regs) ==> c in candidates
      ensures dropped == old(dropped) ==> Extents(regs) == Firsts(a.committed, candidates, |candidates|)
      ensures dropped == old(dropped) ==> forall c :: c in Extents(regs) <==>
        exists i :: 0 <= i < |candidates| && FirstAt(a.committed, candidates, i) && candidates[i] == c
    {
      regs, snap := [], [];
      for i := 0 to |candidates|
        invariant Valid(a) && dropped >= old(dropped)
        invariant forall c :: c in Extents(regs) ==> c in candidates
        invariant dropped == old(dropped) ==> Extents(regs) == Firsts(a.committed, candidates, i)
      {
        SameBases(regs, candidates[i].0);
        ExtentsNext(regs, Reg(candidates[i].0, candidates[i].1, |snap|));
        Grab(a, candidates[i].0, candidates[i].1);
      }
      FirstsAreFirst(a.committed, candidates, |candidates|);
    }

    /** Writes every captured region back. Regions may overlap: they hold the same live bytes. */
    method Restore(a: Arena, ghost live: Memory)
      requires a.Valid() && Captured(regs, snap, live, a.committed)
      modifies a.mem, a`watch
      ensures a.Valid()
      ensures forall x :: 0 <= x < ARENA_SIZE ==>
        ByteAt(a.mem[..], x) == if InRegs(regs, x) then ByteAt(live, x) else ByteAt(old(a.mem[..]), x)
      ensures OnlyWatched(old(a.mem[..]), old(a.watch), a.mem[..], a.watch)
    {
      for i := 0 to |regs|
        invariant a.Valid() && OnlyWatched(old(a.mem[..]), old(a.watch), a.mem[..], a.watch)
        invariant forall x :: 0 <= x < ARENA_SIZE ==>
          ByteAt(a.mem[..], x) == if InRegs(regs[..i], x) then ByteAt(live, x) else ByteAt(old(a.mem[..]), x)
      {
        assert HoldsRegion(regs[i], snap, live);
        WriteBack(a, regs[i], live);
        assert forall x :: InRegs(regs[..i + 1], x) <==> InRegs(regs[..i], x) || regs[i].Has(x) by {
          assert regs[..i + 1] == regs[..i] + [regs[i]];
          InRegsMore(regs[..i], regs[i]);
        }
      }
      assert regs[..|regs|] == regs;
    }

    method WriteBack(a: Arena, r: Reg, ghost live: Memory)
      requires a.Valid() && HoldsRegion(r, snap, live) && r.size > 0
      requires Mapped(a.committed, r.base, r.size) && Solid(a.committed, r.base, r.size)
      modifies a.mem, a`watch
      ensures a.Valid()
      ensures forall x :: 0 <= x < ARENA_SIZE ==>
        ByteAt(a.mem[..], x) == if r.Has(x) then ByteAt(live, x) else ByteAt(old(a.mem[..]), x)
      ensures OnlyWatched(old(a.mem[..]), old(a.watch), a.mem[..], a.watch)
    {
      for i := 0 to r.size
        invariant a.Valid() && OnlyWatched(old(a.mem[..]), old(a.watch), a.mem[..], a.watch)
        invariant forall x :: 0 <= x < ARENA_SIZE ==>
          ByteAt(a.mem[..], x) == if r.base <= x < r.base + i then ByteAt(live, x) else ByteAt(old(a.mem[..]), x)
      {
        assert r.Has(r.base + i);
        a.WriteByte(r.base + i, snap[r.off + i]);
      }
    }
  }

  // ---------- which candidates are kept ----------

  function Extents(regs: seq<Reg>): (r: seq<(nat, nat)>)
    ensures |r| == |regs| && forall i :: 0 <= i < |r| ==> r[i] == (regs[i].base, regs[i].size)
  {
    seq(|regs|, i requires 0 <= i < |regs| => (regs[i].base, regs[i].size))
  }

  ghost predicate AtBase(cs: seq<(nat, nat)>, base: nat) {
    exists i :: 0 <= i < |cs| && cs[i].0 == base
  }

  /** The readable ones among the first n candidates, later ones at a known base left out. */
  ghost function Firsts(committed: set<nat>, candidates: seq<(nat, nat)>, n: nat): seq<(nat, nat)>
    requires n <= |candidates|
  {
    if n == 0 then []
    else
      var f, c := Firsts(committed, candidates, n - 1), candidates[n - 1];
      if Mapped(committed, c.0, c.1) && !AtBase(f, c.0) then f + [c] else f
  }

  /** No earlier readable candidate has the base of candidate i. */
  ghost predicate FirstAt(committed: set<nat>, candidates: seq<(nat, nat)>, i: nat)
    requires i < |candidates|
  {
    && Mapped(committed, candidates[i].0, candidates[i].1)
    && forall j :: 0 <= j < i && Mapped(committed, candidates[j].0, candidates[j].1) ==>
         candidates[j].0 != candidates[i].0
  }

  /** Kept are exactly the candidates that are the first readable ones at their base. */
  lemma {:induction false} FirstsAreFirst(committed: set<nat>, candidates: seq<(nat, nat)>, n: nat)
    requires n <= |candidates|
    ensures forall c :: c in Firsts(committed, candidates, n) <==>
      exists i :: 0 <= i < n && FirstAt(committed, candidates, i) && candidates[i] == c
    ensures forall base :: AtBase(Firsts(committed, candidates, n), base) <==>
      exists i :: 0 <= i < n && Mapped(committed, candidates[i].0, candidates[i].1) && candidates[i].0 == base
  {
    if n == 0 {
    } else {
      FirstsAreFirst(committed, candidates, n - 1);
      var f, g, c := Firsts(committed, candidates, n - 1), Firsts(committed, candidates, n), candidates[n - 1];
      assert FirstAt(committed, candidates, n - 1) <==> Mapped(committed, c.0, c.1) && !AtBase(f, c.0);
      forall base ensures AtBase(g, base) <==> AtBase(f, base) || (Mapped(committed, c.0, c.1) && c.0 == base) {
        if AtBase(f, base) {
          var i :| 0 <= i < |f| && f[i].0 == base;
          assert g[i].0 == base;
        }
        if g != f {
          assert g[|f|] == c;
        }
      }
    }
  }

  lemma SameBases(regs: seq<Reg>, base: nat)
    ensures AtBase(Extents(regs), base) <==> exists i :: 0 <= i < |regs| && regs[i].base == base
  {
    if i :| 0 <= i < |regs| && regs[i].base == base {
      assert Extents(regs)[i].0 == base;
    }
  }

  lemma ExtentsNext(regs: seq<Reg>, r: Reg)
    ensures Extents(regs + [r]) == Extents(regs) + [(r.base, r.size)]
  {
  }

  lemma InRegsMore(regs: seq<Reg>, r: Reg)
    ensures forall x :: InRegs(regs + [r], x) <==> InRegs(regs, x) || r.Has(x)
  {
    forall x ensures InRegs(regs + [r], x) <==> InRegs(regs, x) || r.Has(x) {
      if InRegs(regs, x) {
        var i :| 0 <= i < |regs| && regs[i].Has(x);
        assert (regs + [r])[i].Has(x);
      }
      if r.Has(x) {
        assert (regs + [r])[|regs|].Has(x);
      }
    }
  }

  lemma HoldingMore(regs: seq<Reg>, snap: seq<Byte>, live: Memory, base: nat, size: nat)
    requires Holding(regs, snap, live) && base + size <= ARENA_SIZE
    ensures Holding(regs + [Reg(base, size, |snap|)], snap + Bytes(live, base, size), live)
  {
    var snap' := snap + Bytes(live, base, size);
    forall i | 0 <= i < |regs| ensures HoldsRegion(regs[i], snap', live) {
      assert HoldsRegion(regs[i], snap, live);
    }
  }
}

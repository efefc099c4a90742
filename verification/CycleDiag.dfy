/** The bounded tortoise-and-hare walk over a free list (src/freelist_diag.cpp). */
module CycleDiag {
  import opened Pages

  const LOWEST: nat := 0x10000
  const MAX_STEPS: nat := 1000000

  /** next[x] is the link word of node x; a node outside next is unreadable. */
  type Links = map<nat, nat>

  function Follow(next: Links, x: nat): Option<nat> {
    if x > LOWEST && x in next then Some(next[x]) else None
  }

  /** The word reached after k links from head, if all of them can be read. */
  function Nth(next: Links, head: nat, k: nat): Option<nat> {
    if k == 0 then Some(head)
    else
      match Nth(next, head, k - 1)
      case Some(x) => Follow(next, x)
      case None => None
  }

  /** A link is followed from a readable node above the first 64 KB. */
  lemma NthNext(next: Links, head: nat, k: nat)
    ensures Nth(next, head, 0) == Some(head)
    ensures Nth(next, head, k + 1) ==
      if Nth(next, head, k).Some? && Nth(next, head, k).value > 0x1_0000 && Nth(next, head, k).value in next
      then Some(next[Nth(next, head, k).value]) else None
  {
  }

  /** The chain returns to a place where it has been. */
  ghost predicate Repeats(next: Links, head: nat, i: nat, j: nat) {
    i < j && Nth(next, head, i).Some? && Nth(next, head, i) == Nth(next, head, j)
  }

  ghost predicate Cyclic(next: Links, head: nat) {
    exists i: nat, j: nat :: Repeats(next, head, i, j)
  }

  ghost predicate Meets(next: Links, head: nat, m: nat) {
    m > 0 && Repeats(next, head, m, 2 * m)
  }

  /** True exactly when the two pointers meet within the step bound. */
  method Walk(next: Links, head: nat) returns (cyclic: bool)
    ensures cyclic <==> exists m: nat :: m <= 1000000 && Meets(next, head, m)
  {
    var slow, fast, steps := head, head, 0;
    cyclic := false;
    while steps < MAX_STEPS
      invariant steps <= MAX_STEPS
      invariant Nth(next, head, steps) == Some(slow) && Nth(next, head, 2 * steps) == Some(fast)
      invariant forall m: nat :: m <= steps ==> !Meets(next, head, m)
    {
      AfterEnd(next, head, 2 * steps);
      if fast <= LOWEST || fast !in next {
        return;
      }
      fast := next[fast];
      if fast <= LOWEST || fast !in next {
        return;
      }
      fast := next[fast];
      assert Nth(next, head, 2 * steps + 1).Some?;
      if slow <= LOWEST || slow !in next {
        AfterEnd(next, head, steps);
        return;
      }
      slow := next[slow];
      if slow == fast {
        assert Meets(next, head, steps + 1);
        return true;
      }
      steps := steps + 1;
    }
  }

  /** Beyond the last readable link there is nothing. */
  lemma AfterEnd(next: Links, head: nat, k: nat)
    ensures forall n: nat :: n >= k && Nth(next, head, k).None? ==> Nth(next, head, n).None?
    ensures forall m: nat :: 2 * m >= k + 1 && Nth(next, head, k + 1).None? ==> !Meets(next, head, m)
    ensures forall m: nat :: 2 * m >= k + 2 && Nth(next, head, k + 2).None? ==> !Meets(next, head, m)
  {
    forall n: nat, l: nat | n >= l && Nth(next, head, l).None? ensures Nth(next, head, n).None? {
      EndStays(next, head, l, n);
    }
  }

  lemma {:induction false} EndStays(next: Links, head: nat, k: nat, n: nat)
    requires k <= n && Nth(next, head, k).None?
    ensures Nth(next, head, n).None?
  {
    if k == n {
    } else {
      EndStays(next, head, k, n - 1);
    }
  }

  // ---------- the verdict ----------

  lemma {:induction false} Shifted(next: Links, head: nat, i: nat, j: nat, d: nat)
    requires Repeats(next, head, i, j)
    ensures Repeats(next, head, i + d, j + d)
  {
    if d == 0 {
    } else {
      Shifted(next, head, i, j, d - 1);
      if Nth(next, head, i + d).None? {
        // then the chain ends before j, against the repetition
        EndStays(next, head, i + d, j + d - 1);
      }
    }
  }

  /** From i on, q periods make no difference. */
  lemma {:induction false} Periods(next: Links, head: nat, i: nat, j: nat, k: nat, q: nat)
    requires Repeats(next, head, i, j) && k >= i
    ensures Nth(next, head, k).Some? && Nth(next, head, k) == Nth(next, head, k + q * (j - i))
    decreases q
  {
    Shifted(next, head, i, j, k - i);
    if q == 0 {
    } else {
      Periods(next, head, i, j, k + (j - i), q - 1);
      assert k + (j - i) + (q - 1) * (j - i) == k + q * (j - i);
    }
  }

  /** A positive multiple of the period lies between the start of the repetition and its end. */
  lemma {:induction false} MultipleWithin(i: nat, period: nat) returns (q: nat)
    requires period > 0
    ensures q > 0 && i <= q * period <= i + period
  {
    if i == 0 {
      q := 1;
    } else if i <= period {
      q := 1;
    } else {
      q := MultipleWithin(i - period, period);
      q := q + 1;
    }
  }

  lemma RepetitionMeets(next: Links, head: nat, i: nat, j: nat) returns (m: nat)
    requires Repeats(next, head, i, j)
    ensures m <= j && Meets(next, head, m)
  {
    var q := MultipleWithin(i, j - i);
    m := q * (j - i);
    Periods(next, head, i, j, m, q);
  }

  /** Among more positions than nodes, two hold the same node. */
  lemma {:induction false} Pigeonhole(next: Links, head: nat, nodes: set<nat>, n: nat) returns (i: nat, j: nat)
    requires n == |nodes| && forall k :: 0 <= k <= n ==> Nth(next, head, k).Some? && Nth(next, head, k).value in nodes
    ensures j <= n && Repeats(next, head, i, j)
  {
    assert Nth(next, head, 0).value in nodes;
    assert n > 0;
    var last := Nth(next, head, n).value;
    if k :| 0 <= k < n && Nth(next, head, k).value == last {
      return k, n;
    }
    i, j := Pigeonhole(next, head, nodes - {last}, n - 1);
  }

  /** A cyclic verdict is never wrong, and for a chain over at most a million nodes there is no
      wrong verdict at all. */
  lemma VerdictIsRight(next: Links, head: nat, nodes: set<nat>)
    requires |nodes| <= 1000000
    requires forall k: nat :: Nth(next, head, k).Some? ==> Nth(next, head, k).value in nodes
    ensures (exists m: nat :: m <= 1000000 && Meets(next, head, m)) <==> Cyclic(next, head)
  {
    if i: nat, j: nat :| Repeats(next, head, i, j) {
      forall k: nat ensures Nth(next, head, k).Some? {
        if Nth(next, head, k).None? {
          Shifted(next, head, i, j, k);
          EndStays(next, head, k, i + k);
        }
      }
      var i', j' := Pigeonhole(next, head, nodes, |nodes|);
      var m := RepetitionMeets(next, head, i', j');
    }
  }
}

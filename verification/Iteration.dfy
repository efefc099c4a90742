/** Applying a step over and over, and over a sequence. */
module Iteration {
  function Times<S>(f: S -> S, c: S, k: nat): S
    decreases k, c
  {
    if k == 0 then c else f(Times(f, c, k - 1))
  }

  function Fold<S, B>(f: (S, B) -> S, c: S, data: seq<B>): S {
    if data == [] then c else f(Fold(f, c, data[..|data| - 1]), data[|data| - 1])
  }

  lemma {:induction false} TimesFirst<S>(f: S -> S, c: S, k: nat)
    requires k > 0
    ensures Times(f, c, k) == Times(f, f(c), k - 1)
    decreases k
  {
    if k > 1 {
      TimesFirst(f, c, k - 1);
    } else {
      assert Times(f, c, 0) == c;
    }
  }

  lemma {:induction false} FoldJoins<S, B>(f: (S, B) -> S, c: S, a: seq<B>, b: seq<B>)
    ensures Fold(f, Fold(f, c, a), b) == Fold(f, c, a + b)
    decreases |b|
  {
    if b == [] {
      assert a + b == a;
    } else {
      FoldJoins(f, c, a, b[..|b| - 1]);
      assert (a + b)[..|a + b| - 1] == a + b[..|b| - 1];
    }
  }

  lemma FoldFirst<S, B>(f: (S, B) -> S, c: S, data: seq<B>)
    requires data != []
    ensures Fold(f, c, data) == Fold(f, f(c, data[0]), data[1..])
  {
    var one := [data[0]];
    assert one[..0] == [] && data == one + data[1..];
    FoldJoins(f, c, one, data[1..]);
  }

  lemma {:induction false} TimesInjective<S(!new)>(f: S -> S, a: S, b: S, k: nat)
    requires (forall x, y :: f(x) == f(y) ==> x == y) && Times(f, a, k) == Times(f, b, k)
    ensures a == b
    decreases k
  {
    if k == 0 {
    } else {
      TimesInjective(f, a, b, k - 1);
    }
  }

  lemma {:induction false} FoldInjective<S(!new), B(!new)>(f: (S, B) -> S, a: S, b: S, data: seq<B>)
    requires (forall x, y, d :: f(x, d) == f(y, d) ==> x == y) && Fold(f, a, data) == Fold(f, b, data)
    ensures a == b
    decreases |data|
  {
    if data == [] {
    } else {
      FoldInjective(f, a, b, data[..|data| - 1]);
    }
  }

  lemma {:induction false} SameTimes<S(!new)>(f: S -> S, g: S -> S, c: S, k: nat)
    requires forall x :: f(x) == g(x)
    ensures Times(f, c, k) == Times(g, c, k)
    decreases k
  {
    if k == 0 {
    } else {
      SameTimes(f, g, c, k - 1);
    }
  }

  lemma {:induction false} SameFold<S(!new), B(!new)>(f: (S, B) -> S, g: (S, B) -> S, c: S, data: seq<B>)
    requires forall x, d :: f(x, d) == g(x, d)
    ensures Fold(f, c, data) == Fold(g, c, data)
    decreases |data|
  {
    if data == [] {
    } else {
      SameFold(f, g, c, data[..|data| - 1]);
    }
  }

  lemma {:induction false} TimesAdds<S>(f: S -> S, c: S, j: nat, k: nat)
    ensures Times(f, Times(f, c, j), k) == Times(f, c, j + k)
    decreases k
  {
    if k == 0 {
    } else {
      TimesAdds(f, c, j, k - 1);
    }
  }

  /** When f undoes up beneath a combination with x, k steps of f undo k steps of up. */
  lemma {:induction false} TimesPeels<S(!new)>(
      f: S -> S, xor: (S, S) -> S, up: S -> S, fits: S -> bool, x: S, y: S, k: nat)
    requires forall p, q :: fits(q) ==> f(xor(p, up(q))) == xor(f(p), q)
    requires forall j: nat :: j < k ==> fits(Times(up, y, j))
    ensures Times(f, xor(x, Times(up, y, k)), k) == xor(Times(f, x, k), y)
    decreases k
  {
    if k == 0 {
    } else {
      var z := Times(up, y, k - 1);
      assert fits(z) && f(xor(x, up(z))) == xor(f(x), z);
      TimesFirst(f, xor(x, up(z)), k);
      TimesPeels(f, xor, up, fits, f(x), y, k - 1);
      TimesFirst(f, x, k);
    }
  }
}

/** Folding a sequence with a step that commutes. */
module Folding {
  function Fold<S, T>(step: (S, T) -> S, s: S, xs: seq<T>): S
    decreases |xs|
  {
    if xs == [] then s else Fold(step, step(s, xs[0]), xs[1..])
  }

  ghost predicate Commutes<S(!new), T(!new)>(step: (S, T) -> S) {
    forall s, a, b :: step(step(s, a), b) == step(step(s, b), a)
  }

  lemma {:induction false} ToTheFront<S(!new), T(!new)>(step: (S, T) -> S, s: S, a: seq<T>, x: T, b: seq<T>)
    requires Commutes(step)
    ensures Fold(step, s, a + ([x] + b)) == Fold(step, step(s, x), a + b)
    decreases |a|
  {
    if a == [] {
      assert a + ([x] + b) == [x] + b && a + b == b;
      assert ([x] + b)[1..] == b;
    } else {
      assert (a + ([x] + b))[1..] == a[1..] + ([x] + b);
      assert (a + b)[1..] == a[1..] + b;
      ToTheFront(step, step(s, a[0]), a[1..], x, b);
    }
  }

  lemma Without<T>(ys: seq<T>, i: nat)
    requires i < |ys|
    ensures ys == ys[..i] + ([ys[i]] + ys[i + 1..])
    ensures multiset(ys) == multiset(ys[..i] + ys[i + 1..]) + multiset{ys[i]}
  {
    assert ys == ys[..i] + ([ys[i]] + ys[i + 1..]);
  }

  lemma Cancel<T>(m: multiset<T>, n: multiset<T>, x: T)
    requires m + multiset{x} == n + multiset{x}
    ensures m == n
  {
    assert forall e :: m[e] + multiset{x}[e] == (m + multiset{x})[e] == (n + multiset{x})[e] == n[e] + multiset{x}[e];
  }

  /** The first element of one listing, taken out of another listing of the same elements. */
  lemma TakeOut<T>(xs: seq<T>, ys: seq<T>) returns (i: nat)
    requires multiset(xs) == multiset(ys) && xs != []
    ensures i < |ys| && ys[i] == xs[0] && multiset(xs[1..]) == multiset(ys[..i] + ys[i + 1..])
  {
    assert xs[0] in multiset(ys);
    i :| i < |ys| && ys[i] == xs[0];
    Without(xs, 0);
    Without(ys, i);
    assert xs[..0] + xs[1..] == xs[1..];
    Cancel(multiset(xs[1..]), multiset(ys[..i] + ys[i + 1..]), xs[0]);
  }

  lemma {:induction false} Permute<S(!new), T(!new)>(step: (S, T) -> S, s: S, xs: seq<T>, ys: seq<T>)
    requires Commutes(step) && multiset(xs) == multiset(ys)
    ensures Fold(step, s, xs) == Fold(step, s, ys)
    decreases |xs|
  {
    if xs == [] {
      assert |multiset(ys)| == 0;
    } else {
      var i := TakeOut(xs, ys);
      Permute(step, step(s, xs[0]), xs[1..], ys[..i] + ys[i + 1..]);
      ToTheFront(step, s, ys[..i], xs[0], ys[i + 1..]);
      Without(ys, i);
    }
  }
}

/**
 * The per-thread agents of a reducer, seen from outside: each thread owns
 * one element, and reading the variable folds the operator over all of them.
 * The agent list itself is not part of this model; it is a map from thread
 * id to element, and the fold visits the map in an unspecified order.
 */
module Combiner {
  /**
   * What the reducer demands of its operator and identity: the operator is
   * associative and commutative, and the identity leaves any value unchanged.
   */
  ghost predicate IsCommutativeMonoid<T(!new)>(op: (T, T) -> T, id: T)
  {
    && (forall a, b, c :: op(op(a, b), c) == op(a, op(b, c)))
    && (forall a, b :: op(a, b) == op(b, a))
    && (forall a :: op(id, a) == a)
  }

  /** The identity folded with `op` over `f` of every element of `m`, in some order. */
  ghost function FoldMap<K, E, T>(op: (T, T) -> T, id: T, f: E -> T, m: map<K, E>): T
    decreases |m|
  {
    if |m| == 0 then id
    else
      var k :| k in m;
      op(FoldMap(op, id, f, m - {k}), f(m[k]))
  }

  /**
   * The fold does not depend on the visiting order: any element may be taken
   * out last.
   */
  lemma {:induction false} FoldRemove<K, E, T(!new)>(op: (T, T) -> T, id: T, f: E -> T, m: map<K, E>, k: K)
    requires IsCommutativeMonoid(op, id)
    requires k in m
    ensures FoldMap(op, id, f, m) == op(FoldMap(op, id, f, m - {k}), f(m[k]))
    decreases |m|
  {
    var j :| j in m && FoldMap(op, id, f, m) == op(FoldMap(op, id, f, m - {j}), f(m[j]));
    if j != k {
      var mjk := m - {j} - {k};
      assert m - {k} - {j} == mjk;
      FoldRemove(op, id, f, m - {j}, k);
      FoldRemove(op, id, f, m - {k}, j);
      var rest := FoldMap(op, id, f, mjk);
      calc {
        FoldMap(op, id, f, m);
        op(op(rest, f(m[k])), f(m[j]));
        op(rest, op(f(m[k]), f(m[j])));
        op(rest, op(f(m[j]), f(m[k])));
        op(op(rest, f(m[j])), f(m[k]));
        op(FoldMap(op, id, f, m - {k}), f(m[k]));
      }
    }
  }

  /** Overwriting one element changes the fold only in that element's contribution. */
  lemma FoldUpdate<K, E, T(!new)>(op: (T, T) -> T, id: T, f: E -> T, m: map<K, E>, k: K, x: E)
    requires IsCommutativeMonoid(op, id)
    ensures FoldMap(op, id, f, m[k := x]) == op(FoldMap(op, id, f, m - {k}), f(x))
  {
    FoldRemove(op, id, f, m[k := x], k);
    assert m[k := x] - {k} == m - {k};
  }

  /** A key that is absent contributes nothing. */
  lemma FoldAbsent<K, E, T(!new)>(op: (T, T) -> T, id: T, f: E -> T, m: map<K, E>, k: K)
    requires k !in m
    ensures FoldMap(op, id, f, m - {k}) == FoldMap(op, id, f, m)
  {
    assert m - {k} == m;
  }

  /** When every element contributes the identity, so does the fold. */
  lemma {:induction false} FoldOfIdentities<K, E, T(!new)>(op: (T, T) -> T, id: T, f: E -> T, m: map<K, E>)
    requires IsCommutativeMonoid(op, id)
    requires forall k :: k in m ==> f(m[k]) == id
    ensures FoldMap(op, id, f, m) == id
    decreases |m|
  {
    if |m| > 0 {
      var k :| k in m;
      FoldRemove(op, id, f, m, k);
      FoldOfIdentities(op, id, f, m - {k});
    }
  }

  /** The identity folded with `op` over a sequence, left to right. */
  function FoldSeq<T>(op: (T, T) -> T, id: T, xs: seq<T>): T
    decreases |xs|
  {
    if |xs| == 0 then id else op(FoldSeq(op, id, xs[..|xs| - 1]), xs[|xs| - 1])
  }

  /** The last two elements folded in may be swapped. */
  lemma SwapLast<T(!new)>(op: (T, T) -> T, id: T, a: T, x: T, y: T)
    requires IsCommutativeMonoid(op, id)
    ensures op(op(a, x), y) == op(op(a, y), x)
  {
    calc {
      op(op(a, x), y);
      op(a, op(x, y));
      { assert op(x, y) == op(y, x); }
      op(a, op(y, x));
      op(op(a, y), x);
    }
  }

  /** Any element of the sequence may be folded in last. */
  lemma {:induction false} FoldSeqRemove<T(!new)>(op: (T, T) -> T, id: T, xs: seq<T>, i: nat)
    requires IsCommutativeMonoid(op, id)
    requires i < |xs|
    ensures FoldSeq(op, id, xs) == op(FoldSeq(op, id, xs[..i] + xs[i + 1..]), xs[i])
    decreases |xs|
  {
    var n := |xs| - 1;
    if i < n {
      var ys := xs[..i] + xs[i + 1..];
      assert ys[..|ys| - 1] == xs[..n][..i] + xs[..n][i + 1..];
      assert ys[|ys| - 1] == xs[n];
      FoldSeqRemove(op, id, xs[..n], i);
      SwapLast(op, id, FoldSeq(op, id, ys[..|ys| - 1]), xs[i], xs[n]);
    } else {
      assert xs[..i] + xs[i + 1..] == xs[..n];
    }
  }

  /**
   * In a permutation of `xs`, some position holds the last element of `xs`,
   * and removing it from both leaves permutations of each other.
   */
  lemma MatchLast<T>(xs: seq<T>, ys: seq<T>) returns (i: nat)
    requires |xs| > 0 && multiset(xs) == multiset(ys)
    ensures i < |ys| && ys[i] == xs[|xs| - 1]
    ensures multiset(xs[..|xs| - 1]) == multiset(ys[..i] + ys[i + 1..])
  {
    var n := |xs| - 1;
    var x := xs[n];
    assert x in multiset(ys);
    i :| 0 <= i < |ys| && ys[i] == x;
    assert ys == ys[..i] + [ys[i]] + ys[i + 1..];
    assert multiset(ys) == multiset(ys[..i]) + multiset{x} + multiset(ys[i + 1..]);
    assert multiset(ys[..i] + ys[i + 1..]) == multiset(ys[..i]) + multiset(ys[i + 1..]);
    assert xs == xs[..n] + [x];
    assert multiset(xs) == multiset(xs[..n]) + multiset{x};
    assert multiset(xs[..n]) == multiset(xs) - multiset{x};
    assert multiset(ys[..i] + ys[i + 1..]) == multiset(ys) - multiset{x};
  }

  /** Folding a permutation gives the same value: the fold ignores order. */
  lemma {:induction false} FoldSeqPermutation<T(!new)>(op: (T, T) -> T, id: T, xs: seq<T>, ys: seq<T>)
    requires IsCommutativeMonoid(op, id)
    requires multiset(xs) == multiset(ys)
    ensures FoldSeq(op, id, xs) == FoldSeq(op, id, ys)
    decreases |xs|
  {
    assert |xs| == |multiset(xs)| == |ys|;
    if |xs| > 0 {
      var n := |xs| - 1;
      var i := MatchLast(xs, ys);
      FoldSeqPermutation(op, id, xs[..n], ys[..i] + ys[i + 1..]);
      FoldSeqRemove(op, id, ys, i);
    }
  }
}

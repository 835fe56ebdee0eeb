/** Summing a list with an operation that is associative and commutative. */
module Folds {
  ghost predicate Associates<T>(op: (T, T) -> T, a: T, b: T, c: T) {
    op(op(a, b), c) == op(a, op(b, c))
  }

  ghost predicate Commutes<T>(op: (T, T) -> T, a: T, b: T) {
    op(a, b) == op(b, a)
  }

  ghost predicate Sums<T(!new)>(op: (T, T) -> T) {
    (forall a, b, c :: Associates(op, a, b, c)) && (forall a, b :: Commutes(op, a, b))
  }

  ghost function Fold<T>(op: (T, T) -> T, zero: T, s: seq<T>): T {
    if s == [] then zero else op(Fold(op, zero, s[..|s| - 1]), s[|s| - 1])
  }

  lemma FoldNext<T>(op: (T, T) -> T, zero: T, s: seq<T>, x: T)
    ensures Fold(op, zero, s + [x]) == op(Fold(op, zero, s), x)
  {
    assert (s + [x])[..|s|] == s;
  }

  /** An element with `x` more makes the sum `x` more. */
  lemma {:induction false} FoldReplaced<T(!new)>(op: (T, T) -> T, zero: T, s: seq<T>, i: nat, x: T)
    requires Sums(op) && i < |s|
    ensures Fold(op, zero, s[i := op(s[i], x)]) == op(Fold(op, zero, s), x)
    decreases |s|
  {
    var n := |s| - 1;
    var t, r := s[i := op(s[i], x)], Fold(op, zero, s[..n]);
    if i == n {
      assert t[..n] == s[..n];
      assert Associates(op, r, s[n], x);
    } else {
      FoldReplaced(op, zero, s[..n], i, x);
      assert t[..n] == s[..n][i := op(s[i], x)];
      assert Associates(op, r, x, s[n]) && Commutes(op, x, s[n]) && Associates(op, r, s[n], x);
    }
  }

  lemma {:induction false} FoldSamePrefix<T>(op: (T, T) -> T, zero: T, a: seq<T>, b: seq<T>, rest: seq<T>)
    requires Fold(op, zero, a) == Fold(op, zero, b)
    ensures Fold(op, zero, a + rest) == Fold(op, zero, b + rest)
    decreases |rest|
  {
    if rest == [] {
      assert a + rest == a && b + rest == b;
    } else {
      var n := |rest| - 1;
      FoldSamePrefix(op, zero, a, b, rest[..n]);
      assert a + rest == a + rest[..n] + [rest[n]] && b + rest == b + rest[..n] + [rest[n]];
      FoldNext(op, zero, a + rest[..n], rest[n]);
      FoldNext(op, zero, b + rest[..n], rest[n]);
    }
  }
}

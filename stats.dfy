/** Sums and unweighted means of a real-valued measure over a sequence of items.
    Both GPA roll-ups are such a mean: of class averages over the classes of a term,
    and of term GPAs over the distinct terms. */
module Stats {

  /** The sum of f over xs, accumulated from the left as a running total does. */
  function SumBy<T>(xs: seq<T>, f: T -> real): real
  {
    if xs == [] then 0.0 else SumBy(xs[..|xs| - 1], f) + f(xs[|xs| - 1])
  }

  /** The unweighted mean of f over xs; 0 for an empty sequence. */
  function MeanBy<T>(xs: seq<T>, f: T -> real): real
  {
    if |xs| == 0 then 0.0 else SumBy(xs, f) / (|xs| as real)
  }

  lemma {:induction false} SumByConcat<T>(a: seq<T>, b: seq<T>, f: T -> real)
    ensures SumBy(a + b, f) == SumBy(a, f) + SumBy(b, f)
  {
    if b != [] {
      var b' := b[..|b| - 1];
      assert (a + b)[..|a + b| - 1] == a + b';
      SumByConcat(a, b', f);
    } else {
      assert a + b == a;
    }
  }

  lemma SumByCons<T>(x: T, b: seq<T>, f: T -> real)
    ensures SumBy([x] + b, f) == f(x) + SumBy(b, f)
  {
    assert [x][..0] == [];
    SumByConcat([x], b, f);
  }

  /** Removing one item x takes exactly f(x) off the sum. */
  lemma SumByRemove<T>(a: seq<T>, x: T, b: seq<T>, f: T -> real)
    ensures SumBy(a + [x] + b, f) == SumBy(a + b, f) + f(x)
  {
    assert a + [x] + b == a + ([x] + b);
    SumByConcat(a, [x] + b, f);
    SumByCons(x, b, f);
    SumByConcat(a, b, f);
  }

  /** The sum does not depend on the order of the items. */
  lemma {:induction false} SumByPermutation<T>(xs: seq<T>, ys: seq<T>, f: T -> real)
    requires multiset(xs) == multiset(ys)
    ensures SumBy(xs, f) == SumBy(ys, f)
    decreases |xs|
  {
    if xs == [] {
      assert |ys| == |multiset(ys)| == 0;
    } else {
      var n := |xs| - 1;
      var x := xs[n];
      assert x in multiset(ys) by {
        assert x in multiset(xs) by { assert xs == xs[..n] + [x]; }
      }
      var j :| 0 <= j < |ys| && ys[j] == x;
      var ys' := ys[..j] + ys[j + 1..];
      assert ys == ys[..j] + [x] + ys[j + 1..];
      assert xs == xs[..n] + [x];
      assert multiset(xs[..n]) == multiset(xs) - multiset{x};
      assert multiset(ys') == multiset(ys) - multiset{x};
      SumByPermutation(xs[..n], ys', f);
      SumByRemove(ys[..j], x, ys[j + 1..], f);
    }
  }

  /** The mean does not depend on the order of the items. */
  lemma MeanByPermutation<T>(xs: seq<T>, ys: seq<T>, f: T -> real)
    requires multiset(xs) == multiset(ys)
    ensures MeanBy(xs, f) == MeanBy(ys, f)
  {
    assert |xs| == |multiset(xs)| == |multiset(ys)| == |ys|;
    SumByPermutation(xs, ys, f);
  }

  lemma {:induction false} SumByBounds<T>(xs: seq<T>, f: T -> real, lo: real, hi: real)
    requires forall i :: 0 <= i < |xs| ==> lo <= f(xs[i]) <= hi
    ensures lo * (|xs| as real) <= SumBy(xs, f) <= hi * (|xs| as real)
  {
    if xs != [] {
      var n := |xs| - 1;
      assert forall i :: 0 <= i < n ==> xs[..n][i] == xs[i];
      SumByBounds(xs[..n], f, lo, hi);
      assert lo <= f(xs[n]) <= hi;
    }
  }

  /** A mean of values in [lo, hi] lies in [lo, hi]; the empty mean 0 does too when 0 is in range. */
  lemma MeanByBounds<T>(xs: seq<T>, f: T -> real, lo: real, hi: real)
    requires forall i :: 0 <= i < |xs| ==> lo <= f(xs[i]) <= hi
    requires xs != [] || lo <= 0.0 <= hi
    ensures lo <= MeanBy(xs, f) <= hi
  {
    if xs != [] {
      SumByBounds(xs, f, lo, hi);
      var n := |xs| as real;
      var m := MeanBy(xs, f);
      assert m * n == SumBy(xs, f);
      assert (m - lo) * n >= 0.0;
      assert (hi - m) * n >= 0.0;
    }
  }
}

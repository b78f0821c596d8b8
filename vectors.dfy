/** Three-component real vectors, the rows of the coordinate and centroid
    arrays, with the column-wise sum and mean that NumPy computes. */
module Vectors {

  datatype Vec3 = Vec3(x: real, y: real, z: real)

  const Zero: Vec3 := Vec3(0.0, 0.0, 0.0)

  /** Component `c` (0, 1 or 2) of `v`. */
  function Component(v: Vec3, c: nat): real
    requires c < 3
  {
    if c == 0 then v.x else if c == 1 then v.y else v.z
  }

  function Add(a: Vec3, b: Vec3): Vec3
  {
    Vec3(a.x + b.x, a.y + b.y, a.z + b.z)
  }

  lemma ComponentAdd(a: Vec3, b: Vec3, c: nat)
    requires c < 3
    ensures Component(Add(a, b), c) == Component(a, c) + Component(b, c)
  {
  }

  /** Column-wise sum of the rows. */
  function Sum(s: seq<Vec3>): Vec3
  {
    if s == [] then Zero else Add(Sum(s[..|s| - 1]), s[|s| - 1])
  }

  /** Column-wise mean of a non-empty set of rows (`mean(rows, axis=0)`). */
  function Mean(s: seq<Vec3>): Vec3
    requires |s| > 0
  {
    var n := |s| as real;
    var total := Sum(s);
    Vec3(total.x / n, total.y / n, total.z / n)
  }

  lemma {:induction false} SumAppend(s: seq<Vec3>, t: seq<Vec3>)
    ensures Sum(s + t) == Add(Sum(s), Sum(t))
    decreases |t|
  {
    if t == [] {
      assert s + t == s;
    } else {
      var t' := t[..|t| - 1];
      assert (s + t)[..|s + t| - 1] == s + t';
      SumAppend(s, t');
    }
  }

  /** Removing row `k` takes it out of the sum. */
  lemma SumRemove(t: seq<Vec3>, k: nat)
    requires k < |t|
    ensures Sum(t) == Add(Sum(t[..k] + t[k + 1..]), t[k])
  {
    var a, v, b := t[..k], t[k], t[k + 1..];
    var av := a + [v];
    assert t == av + b;
    SumAppend(av, b);
    SumAppend(a, [v]);
    SumAppend(a, b);
    SumSingleton(v);
    AddSwap(Sum(a), v, Sum(b));
  }

  lemma SumSingleton(v: Vec3)
    ensures Sum([v]) == v
  {
    assert [v][..0] == [];
  }

  lemma AddSwap(x: Vec3, y: Vec3, z: Vec3)
    ensures Add(Add(x, y), z) == Add(Add(x, z), y)
  {
  }

  /** The sum, and hence the mean, does not depend on the order of the rows. */
  lemma {:induction false} SumPermutation(s: seq<Vec3>, t: seq<Vec3>)
    requires multiset(s) == multiset(t)
    ensures Sum(s) == Sum(t)
    decreases |s|
  {
    if s == [] {
      assert |t| == |multiset(t)| == 0;
    } else {
      var v := s[|s| - 1];
      var s' := s[..|s| - 1];
      assert s == s' + [v];
      assert v in multiset(t);
      var k :| 0 <= k < |t| && t[k] == v;
      var t' := t[..k] + t[k + 1..];
      assert t == t[..k] + [v] + t[k + 1..];
      assert multiset(t) == multiset(t') + multiset{v};
      assert multiset(s) == multiset(s') + multiset{v};
      assert multiset(s') == multiset(s) - multiset{v};
      assert multiset(t') == multiset(t) - multiset{v};
      SumPermutation(s', t');
      SumRemove(t, k);
    }
  }

  lemma MeanPermutation(s: seq<Vec3>, t: seq<Vec3>)
    requires |s| > 0 && multiset(s) == multiset(t)
    ensures |t| == |s| && Mean(s) == Mean(t)
  {
    assert |t| == |multiset(t)| == |multiset(s)| == |s|;
    SumPermutation(s, t);
  }

  /** The mean of a single row is that row. */
  lemma MeanSingleton(v: Vec3)
    ensures Mean([v]) == v
  {
    SumSingleton(v);
  }

  /** `n * x` as `n` repeated additions, which keeps the bound proofs linear. */
  function Repeat(n: nat, x: real): real
  {
    if n == 0 then 0.0 else Repeat(n - 1, x) + x
  }

  lemma {:induction false} RepeatIsProduct(n: nat, x: real)
    ensures Repeat(n, x) == (n as real) * x
  {
    if n > 0 {
      RepeatIsProduct(n - 1, x);
      assert (n as real) * x == ((n - 1) as real) * x + x;
    }
  }

  /** Bounds on the components carry over from the sum, scaled by the count. */
  lemma {:induction false} SumBounds(s: seq<Vec3>, c: nat, lo: real, hi: real)
    requires c < 3
    requires forall i :: 0 <= i < |s| ==> lo <= Component(s[i], c) <= hi
    ensures Repeat(|s|, lo) <= Component(Sum(s), c) <= Repeat(|s|, hi)
    decreases |s|
  {
    if s != [] {
      var init, last := s[..|s| - 1], s[|s| - 1];
      assert forall i :: 0 <= i < |init| ==> init[i] == s[i];
      SumBounds(init, c, lo, hi);
      ComponentAdd(Sum(init), last, c);
    }
  }

  /** Each component of the mean lies between any lower and upper bound of
      that component over the rows: between their minimum and maximum. */
  lemma MeanBounds(s: seq<Vec3>, c: nat, lo: real, hi: real)
    requires |s| > 0 && c < 3
    requires forall i :: 0 <= i < |s| ==> lo <= Component(s[i], c) <= hi
    ensures lo <= Component(Mean(s), c) <= hi
  {
    var n, total := |s| as real, Component(Sum(s), c);
    assert n * lo <= total <= n * hi by {
      SumBounds(s, c, lo, hi);
      RepeatIsProduct(|s|, lo);
      RepeatIsProduct(|s|, hi);
    }
    MeanComponent(s, c);
    DivBounds(total, n, lo, hi);
  }

  lemma MeanComponent(s: seq<Vec3>, c: nat)
    requires |s| > 0 && c < 3
    ensures Component(Mean(s), c) == Component(Sum(s), c) / (|s| as real)
  {
  }

  lemma DivBounds(total: real, n: real, lo: real, hi: real)
    requires n > 0.0 && n * lo <= total <= n * hi
    ensures lo <= total / n <= hi
  {
    assert (total / n) * n == total;
  }
}

/** The list helpers of `openpnm/utils/misc.py`: `unique_list`, which drops
    repeated 1-, 2- or 3-D points keeping first occurrences, and `flat_list`,
    which flattens nested lists. */
module Collections {
  import opened Wrappers

  // ---------------------------------------------------------------------
  // unique_list

  type Point = seq<real>

  /** A two-dimensional array: every point has as many coordinates as the first. */
  predicate Rectangular(points: seq<Point>)
  {
    forall i :: 0 <= i < |points| ==> |points[i]| == |points[0]|
  }

  /** `shape(points)[1]`, the number of coordinates per point. */
  function Dim(points: seq<Point>): nat
  {
    if points == [] then 0 else |points[0]|
  }

  /** The duplicate test of the inner loop: for 1, 2 or 3 coordinates, equal
      on every coordinate; for any other count no two points match. */
  predicate Same(p: Point, q: Point, dim: nat)
  {
    1 <= dim <= 3 && |p| >= dim && |q| >= dim && p[..dim] == q[..dim]
  }

  /** Some point of `prefix` matches `p`. */
  predicate Duplicated(prefix: seq<Point>, p: Point, dim: nat)
  {
    exists j :: 0 <= j < |prefix| && Same(prefix[j], p, dim)
  }

  lemma SameSymmetric(p: Point, q: Point, dim: nat)
    requires Same(p, q, dim)
    ensures Same(q, p, dim)
  {
  }

  lemma SameTransitive(p: Point, q: Point, u: Point, dim: nat)
    requires Same(p, q, dim) && Same(q, u, dim)
    ensures Same(p, u, dim)
  {
  }

  /** Reference definition: the points that no earlier point duplicates, in
      input order. */
  function FirstOccurrences(s: seq<Point>, dim: nat): (r: seq<Point>)
    ensures |r| <= |s|
  {
    if s == [] then []
    else
      var init, last := s[..|s| - 1], s[|s| - 1];
      FirstOccurrences(init, dim)
        + (if Duplicated(init, last, dim) then [] else [last])
  }

  /** `unique_list(input_list)`: each input point is compared with every
      point kept so far and kept when none matches.  Points of different
      lengths have no second dimension, and `shape(input_list)[1]` raises. */
  method UniqueList(input: seq<Point>) returns (r: Result<seq<Point>>)
    ensures r.Err? <==> !Rectangular(input)
    ensures r.Err? ==> r.error == IndexError
    ensures r.Ok? ==> r.value == FirstOccurrences(input, Dim(input))
    ensures r.Ok? ==> forall k :: 0 <= k < |r.value| ==> r.value[k] in input
    ensures r.Ok? ==> forall a, b :: 0 <= a < b < |r.value| ==> !Same(r.value[a], r.value[b], Dim(input))
    ensures r.Ok? && 1 <= Dim(input) <= 3 ==>
              forall i :: 0 <= i < |input| ==> Duplicated(r.value, input[i], Dim(input))
    ensures r.Ok? && !(1 <= Dim(input) <= 3) ==> r.value == input
  {
    if !Rectangular(input) {
      return Err(IndexError);
    }
    var output := [];
    if |input| > 0 {
      var dim := |input[0]|;
      for i := 0 to |input|
        invariant output == FirstOccurrences(input[..i], dim)
        invariant forall k :: 0 <= k < |output| ==> |output[k]| == dim
      {
        FirstOccurrencesFromInput(input[..i + 1], dim);
        var p := input[i];
        var found := false;
        for j := 0 to |output|
          invariant found <==> Duplicated(output[..j], p, dim)
        {
          var q := output[j];
          var before := found;
          if dim == 3 {
            if p[0] == q[0] && p[1] == q[1] && p[2] == q[2] {
              found := true;
            }
          } else if dim == 2 {
            if p[0] == q[0] && p[1] == q[1] {
              found := true;
            }
          } else if dim == 1 {
            if p[0] == q[0] {
              found := true;
            }
          }
          assert found <==> (before || Same(q, p, dim)) by {
            SameByCoordinates(q, p, dim);
          }
          assert output[..j + 1] == output[..j] + [q];
        }
        KeptMatchesPrefix(input[..i], dim, p);
        assert input[..i + 1][..i] == input[..i];
        if !found {
          output := output + [p];
        }
      }
      assert input[..|input|] == input;
    }
    FirstOccurrencesFromInput(input, Dim(input));
    FirstOccurrencesDistinct(input, Dim(input));
    if 1 <= Dim(input) <= 3 {
      FirstOccurrencesCover(input, Dim(input));
    } else {
      FirstOccurrencesOtherDim(input, Dim(input));
    }
    r := Ok(output);
  }

  lemma SameByCoordinates(p: Point, q: Point, dim: nat)
    requires |p| == dim && |q| == dim
    ensures Same(p, q, dim) <==>
      (if dim == 3 then p[0] == q[0] && p[1] == q[1] && p[2] == q[2]
       else if dim == 2 then p[0] == q[0] && p[1] == q[1]
       else if dim == 1 then p[0] == q[0]
       else false)
  {
    if 1 <= dim <= 3 && dim == |p| == |q| {
      assert p[..dim] == p && q[..dim] == q;
    }
  }

  /** Every point kept is one of the input points. */
  lemma {:induction false} FirstOccurrencesFromInput(s: seq<Point>, dim: nat)
    ensures forall k :: 0 <= k < |FirstOccurrences(s, dim)| ==> FirstOccurrences(s, dim)[k] in s
    decreases |s|
  {
    if s != [] {
      var init := s[..|s| - 1];
      FirstOccurrencesFromInput(init, dim);
      assert forall x :: x in init ==> x in s;
    }
  }

  /** Every input point is matched by some kept point (for 1 to 3 coordinates). */
  lemma {:induction false} FirstOccurrencesCover(s: seq<Point>, dim: nat)
    requires 1 <= dim <= 3
    requires forall i :: 0 <= i < |s| ==> |s[i]| == dim
    ensures forall i :: 0 <= i < |s| ==> Duplicated(FirstOccurrences(s, dim), s[i], dim)
    decreases |s|
  {
    if s != [] {
      var init, last := s[..|s| - 1], s[|s| - 1];
      FirstOccurrencesCover(init, dim);
      var ri := FirstOccurrences(init, dim);
      var tail := if Duplicated(init, last, dim) then [] else [last];
      var r := ri + tail;
      assert r == FirstOccurrences(s, dim);
      forall i | 0 <= i < |s|
        ensures Duplicated(r, s[i], dim)
      {
        if i < |init| {
          assert s[i] == init[i];
          var k :| 0 <= k < |ri| && Same(ri[k], init[i], dim);
          assert r[k] == ri[k];
        } else if Duplicated(init, last, dim) {
          var j :| 0 <= j < |init| && Same(init[j], last, dim);
          assert Duplicated(ri, init[j], dim);
          var k :| 0 <= k < |ri| && Same(ri[k], init[j], dim);
          SameTransitive(ri[k], init[j], last, dim);
          assert r[k] == ri[k];
        } else {
          assert r[|ri|] == last;
          assert Same(last, last, dim);
        }
      }
    }
  }

  /** A point is matched by a kept point exactly when it is matched by an
      input point: the inner loop over the output decides what a test against
      the whole prefix would decide. */
  lemma KeptMatchesPrefix(s: seq<Point>, dim: nat, p: Point)
    requires forall i :: 0 <= i < |s| ==> |s[i]| == dim
    ensures Duplicated(FirstOccurrences(s, dim), p, dim) <==> Duplicated(s, p, dim)
  {
    if Duplicated(FirstOccurrences(s, dim), p, dim) {
      KeptMatchIsInputMatch(s, dim, p);
    }
    if Duplicated(s, p, dim) {
      InputMatchIsKeptMatch(s, dim, p);
    }
  }

  lemma KeptMatchIsInputMatch(s: seq<Point>, dim: nat, p: Point)
    requires Duplicated(FirstOccurrences(s, dim), p, dim)
    ensures Duplicated(s, p, dim)
  {
    var r := FirstOccurrences(s, dim);
    FirstOccurrencesFromInput(s, dim);
    var k :| 0 <= k < |r| && Same(r[k], p, dim);
    assert r[k] in s;
    var j :| 0 <= j < |s| && s[j] == r[k];
    assert Same(s[j], p, dim);
  }

  lemma InputMatchIsKeptMatch(s: seq<Point>, dim: nat, p: Point)
    requires forall i :: 0 <= i < |s| ==> |s[i]| == dim
    requires Duplicated(s, p, dim)
    ensures Duplicated(FirstOccurrences(s, dim), p, dim)
  {
    var r := FirstOccurrences(s, dim);
    var j :| 0 <= j < |s| && Same(s[j], p, dim);
    FirstOccurrencesCover(s, dim);
    assert Duplicated(r, s[j], dim);
    var k :| 0 <= k < |r| && Same(r[k], s[j], dim);
    SameTransitive(r[k], s[j], p, dim);
    assert Same(r[k], p, dim);
  }

  /** No two kept points match. */
  lemma {:induction false} FirstOccurrencesDistinct(s: seq<Point>, dim: nat)
    requires forall i :: 0 <= i < |s| ==> |s[i]| == dim
    ensures forall a, b :: 0 <= a < b < |FirstOccurrences(s, dim)| ==>
              !Same(FirstOccurrences(s, dim)[a], FirstOccurrences(s, dim)[b], dim)
    decreases |s|
  {
    if s != [] {
      var init, last := s[..|s| - 1], s[|s| - 1];
      FirstOccurrencesDistinct(init, dim);
      var r := FirstOccurrences(s, dim);
      var ri := FirstOccurrences(init, dim);
      if |r| > |ri| {
        KeptMatchesPrefix(init, dim, last);
        forall a | 0 <= a < |ri|
          ensures !Same(r[a], r[|ri|], dim)
        {
          assert r[a] == ri[a];
        }
      }
    }
  }

  /** With a coordinate count other than 1, 2 or 3 nothing ever matches and
      the input comes back unchanged. */
  lemma {:induction false} FirstOccurrencesOtherDim(s: seq<Point>, dim: nat)
    requires !(1 <= dim <= 3)
    ensures FirstOccurrences(s, dim) == s
    decreases |s|
  {
    if s != [] {
      FirstOccurrencesOtherDim(s[..|s| - 1], dim);
    }
  }

  // ---------------------------------------------------------------------
  // flat_list

  /** A Python value that is either a list of values or anything else. */
  datatype Nested<T> = Atom(item: T) | List(items: seq<Nested<T>>)

  /** `flat_list(x)`: a value that is not a list gives the one-element list;
      a list gives the concatenation of its flattened elements. */
  function FlatList<T>(x: Nested<T>): (r: seq<Nested<T>>)
    ensures forall k :: 0 <= k < |r| ==> r[k].Atom?
    ensures x.Atom? ==> r == [x]
    decreases x
  {
    match x
    case Atom(_) => [x]
    case List(items) => FlatItems(items)
  }

  /** `[a for i in items for a in flat_list(i)]` */
  function FlatItems<T>(items: seq<Nested<T>>): (r: seq<Nested<T>>)
    ensures forall k :: 0 <= k < |r| ==> r[k].Atom?
    decreases items
  {
    if items == [] then [] else FlatList(items[0]) + FlatItems(items[1..])
  }

  lemma {:induction false} FlatItemsAppend<T>(a: seq<Nested<T>>, b: seq<Nested<T>>)
    ensures FlatItems(a + b) == FlatItems(a) + FlatItems(b)
    decreases |a|
  {
    if a == [] {
      assert a + b == b;
    } else {
      assert (a + b)[1..] == a[1..] + b;
      FlatItemsAppend(a[1..], b);
    }
  }

  /** A list that holds no lists flattens to itself. */
  lemma {:induction false} FlatOfFlat<T>(s: seq<Nested<T>>)
    requires forall k :: 0 <= k < |s| ==> s[k].Atom?
    ensures FlatList(List(s)) == s
    decreases |s|
  {
    if s != [] {
      FlatOfFlat(s[1..]);
      assert s == [s[0]] + s[1..];
    }
  }

  /** Flattening twice is flattening once. */
  lemma FlatListIdempotent<T>(x: Nested<T>)
    ensures FlatList(List(FlatList(x))) == FlatList(x)
  {
    FlatOfFlat(FlatList(x));
  }

  /** Reference count of the non-list values anywhere inside `x`. */
  function CountAtoms<T>(x: Nested<T>): nat
    decreases x
  {
    match x
    case Atom(_) => 1
    case List(items) => CountItems(items)
  }

  function CountItems<T>(items: seq<Nested<T>>): nat
    decreases items
  {
    if items == [] then 0 else CountAtoms(items[0]) + CountItems(items[1..])
  }

  /** Flattening keeps every non-list value once: nothing is lost or repeated. */
  lemma {:induction false} FlatListLength<T>(x: Nested<T>)
    ensures |FlatList(x)| == CountAtoms(x)
    decreases x, 1
  {
    match x
    case Atom(_) =>
    case List(items) => FlatItemsLength(items);
  }

  lemma {:induction false} FlatItemsLength<T>(items: seq<Nested<T>>)
    ensures |FlatItems(items)| == CountItems(items)
    decreases items, 0
  {
    if items != [] {
      FlatListLength(items[0]);
      FlatItemsLength(items[1..]);
    }
  }
}

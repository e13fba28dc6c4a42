/** Ordering of points along one axis: the `std::sort` calls of the median
    search, modelled as a functional insertion sort. The sort functions
    state only their lengths; that they permute and that they sort is
    proved by separate lemmas, so that callers pay for those facts only
    where they use them. */
module AxisSort {
  import opened Geometry

  /** `s` is in ascending order on axis `ax`: the order the comparators
      `a.x < b.x` and `a.y < b.y` sort into. */
  ghost predicate SortedOn(s: seq<Point2D>, ax: Axis) {
    forall i, j :: 0 <= i < j < |s| ==> DimVal(s[i], ax) <= DimVal(s[j], ax)
  }

  /** Every point of `s` lies at or above `b` on axis `ax`. */
  ghost predicate AllAtLeast(s: seq<Point2D>, b: real, ax: Axis) {
    forall i :: 0 <= i < |s| ==> b <= DimVal(s[i], ax)
  }

  /** `p` placed into the ascending sequence `s` in front of the first
      element it does not exceed. */
  function Insert(s: seq<Point2D>, p: Point2D, ax: Axis): (r: seq<Point2D>)
    ensures |r| == |s| + 1
    ensures r[0] == p || (0 < |s| && r[0] == s[0])
    decreases |s|
  {
    if |s| == 0 || DimVal(p, ax) <= DimVal(s[0], ax) then [p] + s
    else [s[0]] + Insert(s[1..], p, ax)
  }

  /** Inserting adds exactly the inserted point. */
  lemma {:induction false} InsertPermutes(s: seq<Point2D>, p: Point2D, ax: Axis)
    ensures multiset(Insert(s, p, ax)) == multiset(s) + multiset{p}
    decreases |s|
  {
    if |s| == 0 || DimVal(p, ax) <= DimVal(s[0], ax) {
      assert Insert(s, p, ax) == [p] + s;
    } else {
      assert s == [s[0]] + s[1..];
      assert Insert(s, p, ax) == [s[0]] + Insert(s[1..], p, ax);
      InsertPermutes(s[1..], p, ax);
    }
  }

  /** Inserting into an ascending sequence keeps it ascending. */
  lemma {:induction false} InsertSorted(s: seq<Point2D>, p: Point2D, ax: Axis)
    requires SortedOn(s, ax)
    ensures SortedOn(Insert(s, p, ax), ax)
    decreases |s|
  {
    if |s| == 0 || DimVal(p, ax) <= DimVal(s[0], ax) {
      assert Insert(s, p, ax) == [p] + s;
    } else {
      var t := Insert(s[1..], p, ax);
      assert Insert(s, p, ax) == [s[0]] + t;
      InsertSorted(s[1..], p, ax);
      assert AllAtLeast(s[1..], DimVal(s[0], ax), ax);
      InsertAbove(s[1..], p, DimVal(s[0], ax), ax);
      PrependSorted(s[0], t, ax);
    }
  }

  /** Inserting a point at or above a bound into a sequence at or above it
      gives a sequence at or above it. */
  lemma {:induction false} InsertAbove(s: seq<Point2D>, p: Point2D, b: real, ax: Axis)
    requires AllAtLeast(s, b, ax)
    requires b <= DimVal(p, ax)
    ensures AllAtLeast(Insert(s, p, ax), b, ax)
    decreases |s|
  {
    if |s| == 0 || DimVal(p, ax) <= DimVal(s[0], ax) {
      assert Insert(s, p, ax) == [p] + s;
    } else {
      assert Insert(s, p, ax) == [s[0]] + Insert(s[1..], p, ax);
      assert AllAtLeast(s[1..], b, ax);
      InsertAbove(s[1..], p, b, ax);
    }
  }

  /** An ascending sequence stays ascending behind a point at or below all
      of it. */
  lemma PrependSorted(q: Point2D, t: seq<Point2D>, ax: Axis)
    requires SortedOn(t, ax)
    requires AllAtLeast(t, DimVal(q, ax), ax)
    ensures SortedOn([q] + t, ax)
  {
    var u := [q] + t;
    forall i, j | 0 <= i < j < |u|
      ensures DimVal(u[i], ax) <= DimVal(u[j], ax)
    {
      assert u[j] == t[j - 1];
      if 0 < i {
        assert u[i] == t[i - 1];
      }
    }
  }

  /** Insertion sort of a whole sequence along `ax`. Among points with
      equal keys the order is the model's own choice: `std::sort` leaves it
      unspecified. */
  function Sort(s: seq<Point2D>, ax: Axis): (r: seq<Point2D>)
    ensures |r| == |s|
    decreases |s|
  {
    if |s| == 0 then []
    else Insert(Sort(s[..|s| - 1], ax), s[|s| - 1], ax)
  }

  /** Sorting permutes. */
  lemma {:induction false} SortPermutes(s: seq<Point2D>, ax: Axis)
    ensures multiset(Sort(s, ax)) == multiset(s)
    decreases |s|
  {
    if |s| != 0 {
      var init := s[..|s| - 1];
      assert s == init + [s[|s| - 1]];
      SortPermutes(init, ax);
      InsertPermutes(Sort(init, ax), s[|s| - 1], ax);
    }
  }

  /** Sorting leaves the sequence in ascending order. */
  lemma {:induction false} SortSorted(s: seq<Point2D>, ax: Axis)
    ensures SortedOn(Sort(s, ax), ax)
    decreases |s|
  {
    if |s| != 0 {
      var init := s[..|s| - 1];
      SortSorted(init, ax);
      InsertSorted(Sort(init, ax), s[|s| - 1], ax);
    }
  }

  /** A point at or above every element of `s` goes to its end. */
  lemma {:induction false} InsertAtEnd(s: seq<Point2D>, p: Point2D, ax: Axis)
    requires forall i :: 0 <= i < |s| ==> DimVal(s[i], ax) < DimVal(p, ax)
    ensures Insert(s, p, ax) == s + [p]
    decreases |s|
  {
    if |s| != 0 {
      assert Insert(s, p, ax) == [s[0]] + Insert(s[1..], p, ax);
      InsertAtEnd(s[1..], p, ax);
      assert [s[0]] + (s[1..] + [p]) == s + [p];
    }
  }

  /** A sequence already in strictly ascending order is its own sort. */
  lemma {:induction false} SortKeepsAscending(s: seq<Point2D>, ax: Axis)
    requires forall i, j :: 0 <= i < j < |s| ==> DimVal(s[i], ax) < DimVal(s[j], ax)
    ensures Sort(s, ax) == s
    decreases |s|
  {
    if |s| != 0 {
      var init := s[..|s| - 1];
      SortKeepsAscending(init, ax);
      InsertAtEnd(init, s[|s| - 1], ax);
      assert init + [s[|s| - 1]] == s;
    }
  }

  /** `std::sort(points.begin() + l, points.begin() + r, cmp)`: the
      half-open range `[l, r)` of `v` sorted in place, every other index as
      it was. */
  function SortRange(v: seq<Point2D>, l: int, r: int, ax: Axis): (w: seq<Point2D>)
    requires 0 <= l <= r <= |v|
    ensures |w| == |v|
  {
    v[..l] + Sort(v[l..r], ax) + v[r..]
  }

  /** `SortRange` leaves everything outside `[l, r)` alone, permutes the
      range, and leaves it ascending. */
  lemma SortRangeSpec(v: seq<Point2D>, l: int, r: int, ax: Axis)
    requires 0 <= l <= r <= |v|
    ensures SortRange(v, l, r, ax)[..l] == v[..l]
    ensures SortRange(v, l, r, ax)[r..] == v[r..]
    ensures multiset(SortRange(v, l, r, ax)) == multiset(v)
    ensures SortedOn(SortRange(v, l, r, ax)[l..r], ax)
  {
    var w := SortRange(v, l, r, ax);
    var mid := Sort(v[l..r], ax);
    assert w[l..r] == mid;
    assert v == v[..l] + v[l..r] + v[r..];
    SortPermutes(v[l..r], ax);
    SortSorted(v[l..r], ax);
  }
}

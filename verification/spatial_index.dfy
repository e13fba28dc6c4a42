/** The 2-D tree of `TwoDTree`: its node structure and its construction by
    recursive median splitting.

    The source threads one point vector through every `ConstructTree(l, r,
    ...)` call. Each call reorders only inside its own inclusive range
    `[l, r]`, and its two recursive calls work on the disjoint ranges left
    and right of the median, so what a call builds depends only on the
    contents of its range. `ConstructTree` here therefore takes those
    contents, `points[l..r + 1]`, and the median search of the call becomes
    `FindAxisMedian(0, |pts| - 1, ...)` over them. */
module SpatialIndex {
  import opened Geometry
  import opened AxisSort

  /** A `NodePtr`: null, or an owned `Node` holding exactly one point and two
      owned children that default to null. As an inductive datatype every
      value is a finite, acyclic binary tree. */
  datatype Tree = Nil | Node(pos: Point2D, left: Tree, right: Tree)

  /** A `TwoDTree` object. It can only be obtained from `Build` (the default
      constructor is deleted), and queries take it by value, so searching
      never changes it. */
  datatype TwoDTree = TwoDTree(root: Tree)

  /** The multiset of points a tree stores. */
  function Points(t: Tree): multiset<Point2D> {
    match t
    case Nil => multiset{}
    case Node(p, l, r) => multiset{p} + Points(l) + Points(r)
  }

  /** The number of nodes of a tree. */
  function Size(t: Tree): nat {
    match t
    case Nil => 0
    case Node(_, l, r) => 1 + Size(l) + Size(r)
  }

  /** The number of nodes on the longest root-to-leaf path. */
  function Height(t: Tree): nat {
    match t
    case Nil => 0
    case Node(_, l, r) => 1 + if Height(l) < Height(r) then Height(r) else Height(l)
  }

  function Pow2(k: nat): (p: nat)
    ensures 1 <= p
  {
    if k == 0 then 1 else 2 * Pow2(k - 1)
  }

  /** Every node's left subtree lies at or below the node on the axis the
      node's level splits on. */
  ghost predicate LeftBounded(t: Tree, depth: nat) {
    match t
    case Nil => true
    case Node(p, l, r) =>
      && (forall q :: q in Points(l) ==> DimVal(q, AxisOf(depth)) <= DimVal(p, AxisOf(depth)))
      && LeftBounded(l, depth + 1)
      && LeftBounded(r, depth + 1)
  }

  /** Every node's right subtree lies at or above the node on the axis the
      node's level splits on. */
  ghost predicate RightBounded(t: Tree, depth: nat) {
    match t
    case Nil => true
    case Node(p, l, r) =>
      && (forall q :: q in Points(r) ==> DimVal(p, AxisOf(depth)) <= DimVal(q, AxisOf(depth)))
      && RightBounded(l, depth + 1)
      && RightBounded(r, depth + 1)
  }

  /** The k-d ordering a median-split 2-D tree is meant to have. */
  ghost predicate KdOrdered(t: Tree, depth: nat) {
    LeftBounded(t, depth) && RightBounded(t, depth)
  }

  /** The point vector after a median search, and the median index. */
  datatype Median = Median(index: int, points: seq<Point2D>)

  /** `FindAxisMedian`: sorts the half-open range `[l, r)` of the vector
      on x at even depth and on y at odd depth, and returns the midpoint
      `(l + r) / 2` of the two bounds. The midpoint lies inside the sorted
      range unless that range is empty. */
  function FindAxisMedian(l: int, r: int, depth: nat, points: seq<Point2D>): (m: Median)
    requires 0 <= l <= r <= |points|
    ensures |m.points| == |points|
    ensures l <= m.index <= r
    ensures l < r ==> m.index < r
    ensures m.index - l == (r - l) / 2
  {
    Median((l + r) / 2, SortRange(points, l, r, AxisOf(depth)))
  }

  /** What the median search does to the vector: the range `[l, r)` is
      permuted into ascending order on the axis of `depth`, and every index
      outside it keeps its point. */
  lemma FindAxisMedianSpec(l: int, r: int, depth: nat, points: seq<Point2D>)
    requires 0 <= l <= r <= |points|
    ensures FindAxisMedian(l, r, depth, points).points[..l] == points[..l]
    ensures FindAxisMedian(l, r, depth, points).points[r..] == points[r..]
    ensures multiset(FindAxisMedian(l, r, depth, points).points) == multiset(points)
    ensures SortedOn(FindAxisMedian(l, r, depth, points).points[l..r], AxisOf(depth))
  {
    SortRangeSpec(points, l, r, AxisOf(depth));
  }

  /** Cutting a sequence around index `i`. */
  lemma SplitMultiset(s: seq<Point2D>, i: int)
    requires 0 <= i < |s|
    ensures multiset(s) == multiset(s[..i]) + multiset{s[i]} + multiset(s[i + 1..])
  {
    assert s == s[..i] + [s[i]] + s[i + 1..];
  }

  /** `ConstructTree(l, r, depth, points)` over the contents `pts` of its
      inclusive range: null when the range is empty; otherwise the median
      search sorts all of the range but its last index, and the node holds
      the point at the median with the parts before and after it built one
      level deeper. */
  function ConstructTree(pts: seq<Point2D>, depth: nat): (t: Tree)
    ensures t.Nil? <==> |pts| == 0
    decreases |pts|, 1
  {
    if |pts| == 0 then Nil
    else SplitAt(pts, depth, FindAxisMedian(0, |pts| - 1, depth, pts))
  }

  /** The node `ConstructTree` makes once the median search has produced
      `m`: the median point, over the trees of the parts of the reordered
      range before and after it. */
  function SplitAt(pts: seq<Point2D>, depth: nat, m: Median): Tree
    requires |m.points| == |pts|
    requires 0 <= m.index < |pts|
    decreases |pts|, 0
  {
    Node(m.points[m.index],
         ConstructTree(m.points[..m.index], depth + 1),
         ConstructTree(m.points[m.index + 1..], depth + 1))
  }

  /** The tree `ConstructTree` builds stores exactly the points of its
      range. */
  lemma {:induction false} ConstructTreeStores(pts: seq<Point2D>, depth: nat)
    ensures Points(ConstructTree(pts, depth)) == multiset(pts)
    decreases |pts|, 1
  {
    if |pts| != 0 {
      FindAxisMedianSpec(0, |pts| - 1, depth, pts);
      SplitAtStores(pts, depth, FindAxisMedian(0, |pts| - 1, depth, pts));
    }
  }

  /** The node built around any permutation of the range stores the
      range. */
  lemma {:induction false} SplitAtStores(pts: seq<Point2D>, depth: nat, m: Median)
    requires |m.points| == |pts|
    requires 0 <= m.index < |pts|
    requires multiset(m.points) == multiset(pts)
    ensures Points(SplitAt(pts, depth, m)) == multiset(pts)
    decreases |pts|, 0
  {
    ConstructTreeStores(m.points[..m.index], depth + 1);
    ConstructTreeStores(m.points[m.index + 1..], depth + 1);
    SplitMultiset(m.points, m.index);
  }

  /** The tree has one node per point of its range. */
  lemma {:induction false} ConstructTreeSize(pts: seq<Point2D>, depth: nat)
    ensures Size(ConstructTree(pts, depth)) == |pts|
    decreases |pts|, 1
  {
    if |pts| != 0 {
      SplitAtSize(pts, depth, FindAxisMedian(0, |pts| - 1, depth, pts));
    }
  }

  /** The node built around a median at `m.index` has `m.index` points on
      its left and the rest of the range but the median on its right. */
  lemma {:induction false} SplitAtSize(pts: seq<Point2D>, depth: nat, m: Median)
    requires |m.points| == |pts|
    requires 0 <= m.index < |pts|
    ensures Size(SplitAt(pts, depth, m)) == |pts|
    ensures Size(SplitAt(pts, depth, m).left) == m.index
    ensures Size(SplitAt(pts, depth, m).right) == |pts| - m.index - 1
    decreases |pts|, 0
  {
    ConstructTreeSize(m.points[..m.index], depth + 1);
    ConstructTreeSize(m.points[m.index + 1..], depth + 1);
  }

  /** The tree has height at most `k` whenever its range holds fewer than
      `2^k` points: the median leaves `(n - 1) / 2` points on the left and
      `n / 2` on the right, at most half of the range on either side. */
  lemma {:induction false} ConstructTreeBalanced(pts: seq<Point2D>, depth: nat, k: nat)
    requires |pts| < Pow2(k)
    ensures Height(ConstructTree(pts, depth)) <= k
    decreases |pts|, 1
  {
    if |pts| != 0 {
      HalvesBelow(|pts|, FindAxisMedian(0, |pts| - 1, depth, pts).index, k);
      SplitAtBalanced(pts, depth, FindAxisMedian(0, |pts| - 1, depth, pts), k);
    }
  }

  /** Both sides of the midpoint of fewer than `2^k` points hold fewer than
      `2^(k - 1)`. */
  lemma HalvesBelow(n: int, i: int, k: nat)
    requires 0 < n < Pow2(k)
    requires i == (n - 1) / 2
    ensures 0 < k
    ensures i < Pow2(k - 1) && n - i - 1 < Pow2(k - 1)
  {
    if k != 0 {
      assert Pow2(k) == 2 * Pow2(k - 1);
    }
  }

  /** The node built around a median that leaves fewer than `2^(k - 1)`
      points on either side has height at most `k`. */
  lemma {:induction false} SplitAtBalanced(pts: seq<Point2D>, depth: nat, m: Median, k: nat)
    requires |m.points| == |pts|
    requires 0 <= m.index < |pts|
    requires 0 < k
    requires m.index < Pow2(k - 1) && |pts| - m.index - 1 < Pow2(k - 1)
    ensures Height(SplitAt(pts, depth, m)) <= k
    decreases |pts|, 0
  {
    ConstructTreeBalanced(m.points[..m.index], depth + 1, k - 1);
    ConstructTreeBalanced(m.points[m.index + 1..], depth + 1, k - 1);
    NodeHeight(m.points[m.index], ConstructTree(m.points[..m.index], depth + 1),
               ConstructTree(m.points[m.index + 1..], depth + 1), k);
  }

  /** A node over two subtrees of height below `k` has height at most `k`. */
  lemma NodeHeight(p: Point2D, a: Tree, b: Tree, k: nat)
    requires 0 < k
    requires Height(a) <= k - 1 && Height(b) <= k - 1
    ensures Height(Node(p, a, b)) <= k
  {
  }

  /** Every point before index `i` of a sequence sorted up to `hi > i`
      lies at or below the point at `i`. */
  lemma PrefixBelow(v: seq<Point2D>, i: int, hi: int, ax: Axis)
    requires 0 <= i < hi <= |v|
    requires SortedOn(v[0..hi], ax)
    ensures forall q :: q in multiset(v[..i]) ==> DimVal(q, ax) <= DimVal(v[i], ax)
  {
    forall q | q in multiset(v[..i])
      ensures DimVal(q, ax) <= DimVal(v[i], ax)
    {
      var j :| 0 <= j < i && v[..i][j] == q;
      assert v[0..hi][j] == q && v[0..hi][i] == v[i];
    }
  }

  /** A node whose left subtree lies at or below it, over two left-bounded
      subtrees, is left-bounded. */
  lemma NodeLeftBounded(p: Point2D, a: Tree, b: Tree, depth: nat, below: multiset<Point2D>)
    requires Points(a) == below
    requires forall q :: q in below ==> DimVal(q, AxisOf(depth)) <= DimVal(p, AxisOf(depth))
    requires LeftBounded(a, depth + 1) && LeftBounded(b, depth + 1)
    ensures LeftBounded(Node(p, a, b), depth)
  {
  }

  /** The points before the median a call of `ConstructTree` picks lie at
      or below it: they and the median lie in the sorted part of the range,
      except when the range holds one point and nothing precedes it. */
  lemma ConstructTreeMedianAboveLeft(pts: seq<Point2D>, depth: nat)
    requires 0 < |pts|
    ensures BelowAll(FindAxisMedian(0, |pts| - 1, depth, pts), AxisOf(depth))
  {
    FindAxisMedianSpec(0, |pts| - 1, depth, pts);
    MedianAboveLeft(FindAxisMedian(0, |pts| - 1, depth, pts).points,
                    FindAxisMedian(0, |pts| - 1, depth, pts).index, |pts| - 1, AxisOf(depth));
  }

  /** Every point before the median index of `m` lies at or below the
      median on `ax`. */
  ghost predicate BelowAll(m: Median, ax: Axis)
    requires 0 <= m.index < |m.points|
  {
    forall q :: q in multiset(m.points[..m.index]) ==> DimVal(q, ax) <= DimVal(m.points[m.index], ax)
  }

  /** Every point after the median index of `m` lies at or above the median
      on `ax`. */
  ghost predicate AboveAll(m: Median, ax: Axis)
    requires 0 <= m.index < |m.points|
  {
    forall q :: q in multiset(m.points[m.index + 1..]) ==> DimVal(m.points[m.index], ax) <= DimVal(q, ax)
  }

  /** As the source writes it, every node of the tree still has its left
      subtree at or below it. */
  lemma {:induction false} ConstructTreeLeftBounded(pts: seq<Point2D>, depth: nat)
    ensures LeftBounded(ConstructTree(pts, depth), depth)
    decreases |pts|, 1
  {
    if |pts| != 0 {
      ConstructTreeMedianAboveLeft(pts, depth);
      SplitAtLeftBounded(pts, depth, FindAxisMedian(0, |pts| - 1, depth, pts));
    }
  }

  /** What the half-open sort does guarantee on the right: every point
      after the median up to, but not including, the last index of the
      range lies at or above the median on the depth's axis. The point at
      the last index is left out of the sort (see `KdCorrected`). */
  lemma MedianBelowSortedRight(pts: seq<Point2D>, depth: nat)
    requires 0 < |pts|
    ensures AboveUpTo(FindAxisMedian(0, |pts| - 1, depth, pts), |pts| - 1, AxisOf(depth))
  {
    FindAxisMedianSpec(0, |pts| - 1, depth, pts);
    SortedAfter(FindAxisMedian(0, |pts| - 1, depth, pts).points, |pts| - 1,
                FindAxisMedian(0, |pts| - 1, depth, pts).index, AxisOf(depth));
  }

  /** Every point after the median index of `m` and before index `hi` lies
      at or above the median on `ax`. */
  ghost predicate AboveUpTo(m: Median, hi: int, ax: Axis) {
    && 0 <= m.index < |m.points|
    && hi <= |m.points|
    && forall j :: m.index < j < hi ==> DimVal(m.points[m.index], ax) <= DimVal(m.points[j], ax)
  }

  /** Every point of a sorted prefix `[0, hi)` after index `i` lies at or
      above the point at `i`. */
  lemma SortedAfter(v: seq<Point2D>, hi: int, i: int, ax: Axis)
    requires 0 <= i && 0 <= hi <= |v|
    requires SortedOn(v[0..hi], ax)
    ensures forall j :: i < j < hi ==> DimVal(v[i], ax) <= DimVal(v[j], ax)
  {
    forall j | i < j < hi
      ensures DimVal(v[i], ax) <= DimVal(v[j], ax)
    {
      assert v[0..hi][i] == v[i] && v[0..hi][j] == v[j];
    }
  }

  /** The node built around a median with nothing above it on its left is
      left-bounded. */
  lemma {:induction false} SplitAtLeftBounded(pts: seq<Point2D>, depth: nat, m: Median)
    requires |m.points| == |pts|
    requires 0 <= m.index < |pts|
    requires BelowAll(m, AxisOf(depth))
    ensures LeftBounded(SplitAt(pts, depth, m), depth)
    decreases |pts|, 0
  {
    ConstructTreeLeftBounded(m.points[..m.index], depth + 1);
    ConstructTreeLeftBounded(m.points[m.index + 1..], depth + 1);
    ConstructTreeStores(m.points[..m.index], depth + 1);
    NodeLeftBounded(m.points[m.index], ConstructTree(m.points[..m.index], depth + 1),
                    ConstructTree(m.points[m.index + 1..], depth + 1), depth,
                    multiset(m.points[..m.index]));
  }

  /** The points before a median inside a sorted prefix `[0, hi)`, or
      before index 0, lie at or below the median. */
  lemma MedianAboveLeft(v: seq<Point2D>, i: int, hi: int, ax: Axis)
    requires 0 <= i < |v| && 0 <= hi <= |v|
    requires i < hi || i == 0
    requires SortedOn(v[0..hi], ax)
    ensures forall q :: q in multiset(v[..i]) ==> DimVal(q, ax) <= DimVal(v[i], ax)
  {
    if i < hi {
      PrefixBelow(v, i, hi, ax);
    } else {
      assert v[..i] == [];
    }
  }

  /** Every point after index `i` of a sorted sequence lies at or above the
      point at `i`. */
  lemma SuffixAbove(v: seq<Point2D>, i: int, ax: Axis)
    requires 0 <= i < |v|
    requires SortedOn(v[0..|v|], ax)
    ensures forall q :: q in multiset(v[i + 1..]) ==> DimVal(v[i], ax) <= DimVal(q, ax)
  {
    forall q | q in multiset(v[i + 1..])
      ensures DimVal(v[i], ax) <= DimVal(q, ax)
    {
      var j :| 0 <= j < |v| - i - 1 && v[i + 1..][j] == q;
      assert v[0..|v|][i + 1 + j] == q && v[0..|v|][i] == v[i];
    }
  }

  /** A node whose right subtree lies at or above it, over two right-bounded
      subtrees, is right-bounded. */
  lemma NodeRightBounded(p: Point2D, a: Tree, b: Tree, depth: nat, above: multiset<Point2D>)
    requires Points(b) == above
    requires forall q :: q in above ==> DimVal(p, AxisOf(depth)) <= DimVal(q, AxisOf(depth))
    requires RightBounded(a, depth + 1) && RightBounded(b, depth + 1)
    ensures RightBounded(Node(p, a, b), depth)
  {
  }

  /** The `TwoDTree` constructor: sorts the whole vector on x, puts the
      point at index `n / 2` at the root, and builds the parts before and
      after it with `ConstructTree` at depth 1. An empty vector is outside
      its domain: the constructor reads `points[0]` of it. */
  function Build(points: seq<Point2D>): (t: TwoDTree)
    requires 0 < |points|
    ensures t.root.Node?
  {
    TwoDTree(SplitAt(points, 0, FindAxisMedian(0, |points|, 0, points)))
  }

  /** The tree `Build` yields holds every input point exactly once. */
  lemma BuildStoresAll(points: seq<Point2D>)
    requires 0 < |points|
    ensures Points(Build(points).root) == multiset(points)
    ensures Size(Build(points).root) == |points|
  {
    FindAxisMedianSpec(0, |points|, 0, points);
    SplitAtStores(points, 0, FindAxisMedian(0, |points|, 0, points));
    SplitAtSize(points, 0, FindAxisMedian(0, |points|, 0, points));
  }

  /** The tree `Build` yields over fewer than `2^k` points has height at
      most `k`. */
  lemma BuildBalanced(points: seq<Point2D>, k: nat)
    requires 0 < |points| < Pow2(k)
    ensures Height(Build(points).root) <= k
  {
    HalvesAbove(|points|, FindAxisMedian(0, |points|, 0, points).index, k);
    SplitAtBalanced(points, 0, FindAxisMedian(0, |points|, 0, points), k);
  }

  /** Both sides of the upper midpoint of fewer than `2^k` points hold
      fewer than `2^(k - 1)`. */
  lemma HalvesAbove(n: int, i: int, k: nat)
    requires 0 < n < Pow2(k)
    requires i == n / 2
    ensures 0 < k
    ensures i < Pow2(k - 1) && n - i - 1 < Pow2(k - 1)
  {
    if k != 0 {
      assert Pow2(k) == 2 * Pow2(k - 1);
    }
  }

  /** The tree `Build` yields is left-bounded at every node. */
  lemma BuildLeftBounded(points: seq<Point2D>)
    requires 0 < |points|
    ensures LeftBounded(Build(points).root, 0)
  {
    FindAxisMedianSpec(0, |points|, 0, points);
    MedianAboveLeft(FindAxisMedian(0, |points|, 0, points).points,
                    FindAxisMedian(0, |points|, 0, points).index, |points|, X);
    SplitAtLeftBounded(points, 0, FindAxisMedian(0, |points|, 0, points));
  }
}

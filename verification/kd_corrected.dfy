/** The construction as its comments and structure intend it: the median
    search of `ConstructTree(l, r, ...)` sorts the whole inclusive range
    `[l, r]` (the source stops the sort at `points.begin() + r`, leaving
    index `r` out). With that change every node splits its subtree on its
    level's axis in both directions, which the source's tree does not
    guarantee. */
module KdCorrected {
  import opened Geometry
  import opened AxisSort
  import opened Outcome
  import opened SpatialIndex
  import opened PointHeap
  import opened NearestSearch

  /** The counterexample to the source's construction: two points of a
      range at odd depth (y axis), the second one lower. The sort covers
      only the first, the median is index 0, and the lower point ends up in
      its right subtree. */
  lemma ConstructTreeNotRightBounded()
    ensures ConstructTree([Point2D(0.0, 1.0), Point2D(1.0, 0.0)], 1)
         == Node(Point2D(0.0, 1.0), Nil, Node(Point2D(1.0, 0.0), Nil, Nil))
    ensures !RightBounded(ConstructTree([Point2D(0.0, 1.0), Point2D(1.0, 0.0)], 1), 1)
  {
    TwoPointTree(Point2D(0.0, 1.0), Point2D(1.0, 0.0), 1);
    assert AxisOf(1) == Y;
    assert Point2D(1.0, 0.0) in Points(Node(Point2D(1.0, 0.0), Nil, Nil));
  }

  /** Whatever their order, two points make a node over the first with
      the second as its right child: the median search sorts a range of
      one point. */
  lemma TwoPointTree(a: Point2D, b: Point2D, depth: nat)
    ensures ConstructTree([a, b], depth) == Node(a, Nil, Node(b, Nil, Nil))
  {
    assert [a, b][0..1] == [a];
    assert Sort([a], AxisOf(depth)) == [a] by {
      assert [a][..0] == [];
    }
    assert SortRange([a, b], 0, 1, AxisOf(depth)) == [a, b];
    assert FindAxisMedian(0, 1, depth, [a, b]) == Median(0, [a, b]);
    assert [a, b][..0] == [] && [a, b][1..] == [b];
    LeafTree(b, depth + 1);
  }

  /** The same flaw reached from the constructor: four points in ascending
      x order, the first two in descending y order. The left subtree of the
      root is the two-point range above. */
  lemma BuildNotRightBounded()
    ensures !RightBounded(Build([Point2D(0.0, 1.0), Point2D(1.0, 0.0), Point2D(2.0, 0.0), Point2D(3.0, 0.0)]).root, 0)
  {
    var pts := [Point2D(0.0, 1.0), Point2D(1.0, 0.0), Point2D(2.0, 0.0), Point2D(3.0, 0.0)];
    assert pts[0..4] == pts;
    SortKeepsAscending(pts, X);
    assert SortRange(pts, 0, 4, X) == pts;
    assert FindAxisMedian(0, 4, 0, pts) == Median(2, pts);
    assert pts[..2] == [Point2D(0.0, 1.0), Point2D(1.0, 0.0)];
    ConstructTreeNotRightBounded();
  }

  /** `FindAxisMedian` with the sort extended to `points.begin() + r + 1`:
      the whole inclusive range `[l, r]` is sorted and the midpoint
      `(l + r) / 2` returned. */
  function FindAxisMedianInclusive(l: int, r: int, depth: nat, points: seq<Point2D>): (m: Median)
    requires 0 <= l <= r < |points|
    ensures |m.points| == |points|
    ensures l <= m.index <= r
    ensures m.index - l == (r - l) / 2
  {
    Median((l + r) / 2, SortRange(points, l, r + 1, AxisOf(depth)))
  }

  /** Over the contents of a range, the corrected median search leaves
      every point before the median at or below it and every point after it
      at or above it, and permutes the range. */
  lemma FindAxisMedianInclusiveSplits(pts: seq<Point2D>, depth: nat)
    requires 0 < |pts|
    ensures BelowAll(FindAxisMedianInclusive(0, |pts| - 1, depth, pts), AxisOf(depth))
    ensures AboveAll(FindAxisMedianInclusive(0, |pts| - 1, depth, pts), AxisOf(depth))
    ensures multiset(FindAxisMedianInclusive(0, |pts| - 1, depth, pts).points) == multiset(pts)
  {
    SortRangeSpec(pts, 0, |pts|, AxisOf(depth));
    PrefixBelow(FindAxisMedianInclusive(0, |pts| - 1, depth, pts).points,
                FindAxisMedianInclusive(0, |pts| - 1, depth, pts).index, |pts|, AxisOf(depth));
    SuffixAbove(FindAxisMedianInclusive(0, |pts| - 1, depth, pts).points,
                FindAxisMedianInclusive(0, |pts| - 1, depth, pts).index, AxisOf(depth));
  }

  /** `ConstructTree` with the corrected median search, over the contents
      of its range. */
  function FixedConstructTree(pts: seq<Point2D>, depth: nat): (t: Tree)
    ensures t.Nil? <==> |pts| == 0
    decreases |pts|, 1
  {
    if |pts| == 0 then Nil
    else FixedSplitAt(pts, depth, FindAxisMedianInclusive(0, |pts| - 1, depth, pts))
  }

  /** The node `FixedConstructTree` makes once the median search has
      produced `m`. */
  function FixedSplitAt(pts: seq<Point2D>, depth: nat, m: Median): Tree
    requires |m.points| == |pts|
    requires 0 <= m.index < |pts|
    decreases |pts|, 0
  {
    Node(m.points[m.index],
         FixedConstructTree(m.points[..m.index], depth + 1),
         FixedConstructTree(m.points[m.index + 1..], depth + 1))
  }

  /** The corrected tree stores exactly the points of its range. */
  lemma {:induction false} FixedConstructTreeStores(pts: seq<Point2D>, depth: nat)
    ensures Points(FixedConstructTree(pts, depth)) == multiset(pts)
    decreases |pts|, 1
  {
    if |pts| != 0 {
      FindAxisMedianInclusiveSplits(pts, depth);
      FixedSplitAtStores(pts, depth, FindAxisMedianInclusive(0, |pts| - 1, depth, pts));
    }
  }

  lemma {:induction false} FixedSplitAtStores(pts: seq<Point2D>, depth: nat, m: Median)
    requires |m.points| == |pts|
    requires 0 <= m.index < |pts|
    requires multiset(m.points) == multiset(pts)
    ensures Points(FixedSplitAt(pts, depth, m)) == multiset(pts)
    decreases |pts|, 0
  {
    FixedConstructTreeStores(m.points[..m.index], depth + 1);
    FixedConstructTreeStores(m.points[m.index + 1..], depth + 1);
    SplitMultiset(m.points, m.index);
  }

  /** The corrected tree is k-d ordered: every node splits its subtree on
      its level's axis, left at or below, right at or above. */
  lemma {:induction false} FixedConstructTreeOrdered(pts: seq<Point2D>, depth: nat)
    ensures KdOrdered(FixedConstructTree(pts, depth), depth)
    decreases |pts|, 1
  {
    if |pts| != 0 {
      FindAxisMedianInclusiveSplits(pts, depth);
      FixedSplitAtOrdered(pts, depth, FindAxisMedianInclusive(0, |pts| - 1, depth, pts));
    }
  }

  /** A node built around a median that splits its range is k-d ordered
      once its subtrees are. */
  lemma {:induction false} FixedSplitAtOrdered(pts: seq<Point2D>, depth: nat, m: Median)
    requires |m.points| == |pts|
    requires 0 <= m.index < |pts|
    requires BelowAll(m, AxisOf(depth)) && AboveAll(m, AxisOf(depth))
    ensures KdOrdered(FixedSplitAt(pts, depth, m), depth)
    decreases |pts|, 0
  {
    FixedConstructTreeOrdered(m.points[..m.index], depth + 1);
    FixedConstructTreeOrdered(m.points[m.index + 1..], depth + 1);
    FixedConstructTreeStores(m.points[..m.index], depth + 1);
    FixedConstructTreeStores(m.points[m.index + 1..], depth + 1);
    NodeLeftBounded(m.points[m.index], FixedConstructTree(m.points[..m.index], depth + 1),
                    FixedConstructTree(m.points[m.index + 1..], depth + 1), depth,
                    multiset(m.points[..m.index]));
    NodeRightBounded(m.points[m.index], FixedConstructTree(m.points[..m.index], depth + 1),
                     FixedConstructTree(m.points[m.index + 1..], depth + 1), depth,
                     multiset(m.points[m.index + 1..]));
  }

  /** The constructor with corrected subtrees: the root is chosen exactly
      as the source chooses it, from the fully sorted vector. */
  function FixedBuild(points: seq<Point2D>): (t: TwoDTree)
    requires 0 < |points|
    ensures t.root.Node?
  {
    TwoDTree(FixedSplitAt(points, 0, FindAxisMedian(0, |points|, 0, points)))
  }

  /** The corrected tree holds every input point exactly once and is k-d
      ordered from the root down. */
  lemma FixedBuildCorrect(points: seq<Point2D>)
    requires 0 < |points|
    ensures Points(FixedBuild(points).root) == multiset(points)
    ensures KdOrdered(FixedBuild(points).root, 0)
  {
    FindAxisMedianSpec(0, |points|, 0, points);
    PrefixBelow(FindAxisMedian(0, |points|, 0, points).points,
                FindAxisMedian(0, |points|, 0, points).index, |points|, X);
    SuffixAbove(FindAxisMedian(0, |points|, 0, points).points,
                FindAxisMedian(0, |points|, 0, points).index, X);
    FixedSplitAtStores(points, 0, FindAxisMedian(0, |points|, 0, points));
    FixedSplitAtOrdered(points, 0, FindAxisMedian(0, |points|, 0, points));
  }

  /** The corrected test for searching the far child: go on while the heap
      holds fewer than `n` pairs, or while the squared offset of the query
      from the node on the node's axis does not exceed the top's squared
      distance, so that a point beyond the splitting line could still be
      nearer than the top. */
  predicate FixedGoesOn(q: Point2D, node: Point2D, ax: Axis, h: seq<HeapItem>, n: nat) {
    |h| < n || (0 < |h| && Square(DimVal(q, ax) - DimVal(node, ax)) <= Top(h).dist)
  }

  /** A corrected search: the heap, the points visited, and the points of
      the subtrees pruned unvisited. */
  datatype FixedVisit = FixedVisit(heap: seq<HeapItem>, visited: seq<Point2D>, skipped: multiset<Point2D>)

  /** The search with the corrected pruning test; `min_dist` is the top of
      the heap whenever it is read, so it is read from the heap. */
  function FixedSearch(t: Tree, q: Point2D, n: nat, h: seq<HeapItem>, depth: nat): (v: FixedVisit)
    requires 0 < n && |h| <= n
    ensures |v.heap| == Min(n, |h| + |v.visited|)
    ensures t.Nil? ==> v.heap == h && v.visited == [] && v.skipped == multiset{}
    decreases t, 1
  {
    if t.Nil? then FixedVisit(h, [], multiset{})
    else
      var d := FixedDescend(t, q, n, Offer(h, ItemFor(q, t.pos), n), depth);
      FixedVisit(d.heap, [t.pos] + d.visited, d.skipped)
  }

  /** The children's part of the corrected search. */
  function FixedDescend(t: Tree, q: Point2D, n: nat, h1: seq<HeapItem>, depth: nat): (v: FixedVisit)
    requires 0 < n && 0 < |h1| <= n && t.Node?
    ensures |v.heap| == Min(n, |h1| + |v.visited|)
    decreases t, 0
  {
    var a := FixedSearch(Near(t, q, depth), q, n, h1, depth + 1);
    if FixedGoesOn(q, t.pos, AxisOf(depth), a.heap, n) then
      var b := FixedSearch(Far(t, q, depth), q, n, a.heap, depth + 1);
      FixedVisit(b.heap, a.visited + b.visited, a.skipped + b.skipped)
    else
      FixedVisit(a.heap, a.visited, a.skipped + Points(Far(t, q, depth)))
  }

  /** The second half of the corrected search's invariant (the first is
      `KeepsNearest`): once anything has been pruned, the heap is full and
      everything pruned lies at least as far from the query as its top. */
  ghost predicate PrunedBeyond(h: seq<HeapItem>, q: Point2D, skipped: multiset<Point2D>, n: nat) {
    skipped != multiset{} ==>
      && 0 < |h| == n
      && forall s :: s in skipped ==> Top(h).dist <= DistanceSquared(q, s)
  }

  /** Once the heap is full, an offer never raises its top. */
  lemma OfferTopNotAbove(h: seq<HeapItem>, item: HeapItem, n: nat)
    requires 0 < |h| == n
    requires IsHeap(h)
    ensures 0 < |Offer(h, item, n)| == n
    ensures Top(Offer(h, item, n)).dist <= Top(h).dist
  {
    if Below(item, Top(h)) {
      PopKeepsHeap(h);
      PushAtMost(Pop(h), item, Top(h).dist);
    }
  }

  /** Offering keeps the heap order. */
  lemma OfferKeepsHeap(h: seq<HeapItem>, item: HeapItem, n: nat)
    requires 0 < n && IsHeap(h)
    ensures IsHeap(Offer(h, item, n))
  {
    if |h| < n {
      PushKeepsHeap(h, item);
    } else if Below(item, Top(h)) {
      PopKeepsHeap(h);
      PushKeepsHeap(Pop(h), item);
    }
  }

  /** Offering a point keeps the pruned points beyond the top. */
  lemma OfferKeepsPruned(h: seq<HeapItem>, item: HeapItem, q: Point2D, skipped: multiset<Point2D>, n: nat)
    requires 0 < n && IsHeap(h)
    requires PrunedBeyond(h, q, skipped, n)
    ensures IsHeap(Offer(h, item, n))
    ensures PrunedBeyond(Offer(h, item, n), q, skipped, n)
  {
    OfferKeepsHeap(h, item, n);
    if skipped != multiset{} {
      OfferTopNotAbove(h, item, n);
    }
  }

  /** Every point of the far child lies at least as far from the query as
      the splitting line of a k-d ordered node. */
  lemma FarSideBeyondSplit(t: Tree, q: Point2D, depth: nat)
    requires t.Node? && KdOrdered(t, depth)
    ensures forall s :: s in Points(Far(t, q, depth)) ==>
              Square(DimVal(q, AxisOf(depth)) - DimVal(t.pos, AxisOf(depth))) <= DistanceSquared(q, s)
  {
    forall s | s in Points(Far(t, q, depth))
      ensures Square(DimVal(q, AxisOf(depth)) - DimVal(t.pos, AxisOf(depth))) <= DistanceSquared(q, s)
    {
      var ax := AxisOf(depth);
      if DimVal(q, ax) < DimVal(t.pos, ax) {
        assert DimVal(t.pos, ax) <= DimVal(s, ax);
      } else {
        assert DimVal(s, ax) <= DimVal(t.pos, ax);
      }
      SquareMonotone(DimVal(q, ax) - DimVal(t.pos, ax), DimVal(q, ax) - DimVal(s, ax));
      AxisOffsetBelowDistance(q, s, ax);
    }
  }

  /** Pruning the far child when the corrected test fails keeps the pruned
      points beyond the top. */
  lemma PruneKeepsPruned(t: Tree, q: Point2D, n: nat, h: seq<HeapItem>, depth: nat, skipped: multiset<Point2D>)
    requires 0 < n && |h| <= n && t.Node? && KdOrdered(t, depth)
    requires PrunedBeyond(h, q, skipped, n)
    requires !FixedGoesOn(q, t.pos, AxisOf(depth), h, n)
    ensures PrunedBeyond(h, q, skipped + Points(Far(t, q, depth)), n)
  {
    FarSideBeyondSplit(t, q, depth);
    PrunedJoin(h, q, skipped, Points(Far(t, q, depth)), n);
  }

  lemma PrunedJoin(h: seq<HeapItem>, q: Point2D, a: multiset<Point2D>, b: multiset<Point2D>, n: nat)
    requires 0 < |h| == n
    requires PrunedBeyond(h, q, a, n)
    requires forall s :: s in b ==> Top(h).dist <= DistanceSquared(q, s)
    ensures PrunedBeyond(h, q, a + b, n)
  {
  }

  /** Every point of the tree is either visited or pruned, exactly once. */
  lemma {:induction false} FixedSearchCovers(t: Tree, q: Point2D, n: nat, h: seq<HeapItem>, depth: nat)
    requires 0 < n && |h| <= n
    ensures multiset(FixedSearch(t, q, n, h, depth).visited) + FixedSearch(t, q, n, h, depth).skipped == Points(t)
    decreases t, 1
  {
    if t.Node? {
      FixedDescendCovers(t, q, n, Offer(h, ItemFor(q, t.pos), n), depth);
      CoversCons(t.pos, FixedDescend(t, q, n, Offer(h, ItemFor(q, t.pos), n), depth).visited,
                 FixedDescend(t, q, n, Offer(h, ItemFor(q, t.pos), n), depth).skipped, Points(t.left) + Points(t.right));
    }
  }

  lemma {:induction false} FixedDescendCovers(t: Tree, q: Point2D, n: nat, h1: seq<HeapItem>, depth: nat)
    requires 0 < n && 0 < |h1| <= n && t.Node?
    ensures multiset(FixedDescend(t, q, n, h1, depth).visited) + FixedDescend(t, q, n, h1, depth).skipped
         == Points(t.left) + Points(t.right)
    decreases t, 0
  {
    NearFarPoints(t, q, depth);
    FixedSearchCovers(Near(t, q, depth), q, n, h1, depth + 1);
    if FixedGoesOn(q, t.pos, AxisOf(depth), FixedSearch(Near(t, q, depth), q, n, h1, depth + 1).heap, n) {
      FixedSearchCovers(Far(t, q, depth), q, n, FixedSearch(Near(t, q, depth), q, n, h1, depth + 1).heap, depth + 1);
      CoversJoin(FixedSearch(Near(t, q, depth), q, n, h1, depth + 1).visited,
                 FixedSearch(Near(t, q, depth), q, n, h1, depth + 1).skipped,
                 FixedSearch(Far(t, q, depth), q, n, FixedSearch(Near(t, q, depth), q, n, h1, depth + 1).heap, depth + 1).visited,
                 FixedSearch(Far(t, q, depth), q, n, FixedSearch(Near(t, q, depth), q, n, h1, depth + 1).heap, depth + 1).skipped,
                 Points(Near(t, q, depth)), Points(Far(t, q, depth)));
    } else {
      CoversPrune(FixedSearch(Near(t, q, depth), q, n, h1, depth + 1).visited,
                  FixedSearch(Near(t, q, depth), q, n, h1, depth + 1).skipped,
                  Points(Near(t, q, depth)), Points(Far(t, q, depth)));
    }
  }

  lemma CoversCons(p: Point2D, v: seq<Point2D>, s: multiset<Point2D>, a: multiset<Point2D>)
    requires multiset(v) + s == a
    ensures multiset([p] + v) + s == multiset{p} + a
  {
    VisitedCons(p, v);
  }

  lemma CoversJoin(va: seq<Point2D>, sa: multiset<Point2D>, vb: seq<Point2D>, sb: multiset<Point2D>,
                   a: multiset<Point2D>, b: multiset<Point2D>)
    requires multiset(va) + sa == a && multiset(vb) + sb == b
    ensures multiset(va + vb) + (sa + sb) == a + b
  {
  }

  lemma CoversPrune(va: seq<Point2D>, sa: multiset<Point2D>, a: multiset<Point2D>, b: multiset<Point2D>)
    requires multiset(va) + sa == a
    ensures multiset(va) + (sa + b) == a + b
  {
  }

  /** The corrected search keeps the nearest of the points it visits. */
  lemma {:induction false} FixedSearchKeepsNearest(t: Tree, q: Point2D, n: nat, h: seq<HeapItem>, depth: nat,
                                                   seen: multiset<Point2D>)
    requires 0 < n
    requires KeepsNearest(h, q, seen, n)
    ensures KeepsNearest(FixedSearch(t, q, n, h, depth).heap, q,
                         seen + multiset(FixedSearch(t, q, n, h, depth).visited), n)
    decreases t, 1
  {
    if t.Node? {
      OfferKeepsNearest(h, q, seen, n, t.pos);
      FixedDescendKeepsNearest(t, q, n, Offer(h, ItemFor(q, t.pos), n), depth, seen + multiset{t.pos});
      VisitedCons(t.pos, FixedDescend(t, q, n, Offer(h, ItemFor(q, t.pos), n), depth).visited);
    }
  }

  lemma {:induction false} FixedDescendKeepsNearest(t: Tree, q: Point2D, n: nat, h1: seq<HeapItem>, depth: nat,
                                                    seen: multiset<Point2D>)
    requires 0 < n && 0 < |h1| && t.Node?
    requires KeepsNearest(h1, q, seen, n)
    ensures KeepsNearest(FixedDescend(t, q, n, h1, depth).heap, q,
                         seen + multiset(FixedDescend(t, q, n, h1, depth).visited), n)
    decreases t, 0
  {
    FixedSearchKeepsNearest(Near(t, q, depth), q, n, h1, depth + 1, seen);
    if FixedGoesOn(q, t.pos, AxisOf(depth), FixedSearch(Near(t, q, depth), q, n, h1, depth + 1).heap, n) {
      FixedSearchKeepsNearest(Far(t, q, depth), q, n, FixedSearch(Near(t, q, depth), q, n, h1, depth + 1).heap,
                              depth + 1, seen + multiset(FixedSearch(Near(t, q, depth), q, n, h1, depth + 1).visited));
      KeepsNearestJoin(FixedSearch(Far(t, q, depth), q, n, FixedSearch(Near(t, q, depth), q, n, h1, depth + 1).heap, depth + 1).heap,
                       q, seen, FixedSearch(Near(t, q, depth), q, n, h1, depth + 1).visited,
                       FixedSearch(Far(t, q, depth), q, n, FixedSearch(Near(t, q, depth), q, n, h1, depth + 1).heap, depth + 1).visited, n);
    }
  }

  /** On a k-d ordered tree the corrected search prunes only points at
      least as far from the query as the final top. */
  lemma {:induction false} FixedSearchPrunesBeyond(t: Tree, q: Point2D, n: nat, h: seq<HeapItem>, depth: nat,
                                                   skipped: multiset<Point2D>)
    requires 0 < n && |h| <= n && IsHeap(h) && KdOrdered(t, depth)
    requires PrunedBeyond(h, q, skipped, n)
    ensures IsHeap(FixedSearch(t, q, n, h, depth).heap)
    ensures PrunedBeyond(FixedSearch(t, q, n, h, depth).heap, q, skipped + FixedSearch(t, q, n, h, depth).skipped, n)
    decreases t, 1
  {
    if t.Node? {
      OfferKeepsPruned(h, ItemFor(q, t.pos), q, skipped, n);
      FixedDescendPrunesBeyond(t, q, n, Offer(h, ItemFor(q, t.pos), n), depth, skipped);
    } else {
      assert skipped + multiset{} == skipped;
    }
  }

  lemma {:induction false} FixedDescendPrunesBeyond(t: Tree, q: Point2D, n: nat, h1: seq<HeapItem>, depth: nat,
                                                    skipped: multiset<Point2D>)
    requires 0 < n && 0 < |h1| <= n && IsHeap(h1) && t.Node? && KdOrdered(t, depth)
    requires PrunedBeyond(h1, q, skipped, n)
    ensures IsHeap(FixedDescend(t, q, n, h1, depth).heap)
    ensures PrunedBeyond(FixedDescend(t, q, n, h1, depth).heap, q, skipped + FixedDescend(t, q, n, h1, depth).skipped, n)
    decreases t, 0
  {
    NearFarOrdered(t, q, depth);
    FixedSearchPrunesBeyond(Near(t, q, depth), q, n, h1, depth + 1, skipped);
    if FixedGoesOn(q, t.pos, AxisOf(depth), FixedSearch(Near(t, q, depth), q, n, h1, depth + 1).heap, n) {
      FixedSearchPrunesBeyond(Far(t, q, depth), q, n, FixedSearch(Near(t, q, depth), q, n, h1, depth + 1).heap,
                              depth + 1, skipped + FixedSearch(Near(t, q, depth), q, n, h1, depth + 1).skipped);
    } else {
      PruneKeepsPruned(t, q, n, FixedSearch(Near(t, q, depth), q, n, h1, depth + 1).heap, depth,
                       skipped + FixedSearch(Near(t, q, depth), q, n, h1, depth + 1).skipped);
    }
  }

  /** Both children of a k-d ordered node are k-d ordered one level down. */
  lemma NearFarOrdered(t: Tree, q: Point2D, depth: nat)
    requires t.Node? && KdOrdered(t, depth)
    ensures KdOrdered(Near(t, q, depth), depth + 1) && KdOrdered(Far(t, q, depth), depth + 1)
  {
  }

  /** At the end the two halves of the invariant say that the heap keeps
      the nearest of all points visited or pruned. */
  lemma InvariantCloses(h: seq<HeapItem>, q: Point2D, seen: multiset<Point2D>, skipped: multiset<Point2D>, n: nat)
    requires KeepsNearest(h, q, seen, n) && PrunedBeyond(h, q, skipped, n)
    ensures KeepsNearest(h, q, seen + skipped, n)
  {
    if skipped != multiset{} {
      assert |seen| <= |seen + skipped|;
      forall p | p in seen + skipped - multiset(Positions(h))
        ensures 0 < |h| && Top(h).dist <= DistanceSquared(q, p)
      {
        if p !in skipped {
          assert p in seen - multiset(Positions(h));
        }
      }
    } else {
      assert seen + skipped == seen;
    }
  }

  /** From an empty heap, the corrected search over a k-d ordered tree
      keeps the `n` nearest points of the whole tree. */
  lemma FixedSearchFindsNearest(t: Tree, q: Point2D, n: nat)
    requires 0 < n && KdOrdered(t, 0)
    ensures KeepsNearest(FixedSearch(t, q, n, [], 0).heap, q, Points(t), n)
  {
    KeepsNearestEmpty(q, n);
    FixedSearchKeepsNearest(t, q, n, [], 0, multiset{});
    FixedSearchPrunesBeyond(t, q, n, [], 0, multiset{});
    FixedSearchCovers(t, q, n, [], 0);
    InvariantCloses(FixedSearch(t, q, n, [], 0).heap, q, multiset(FixedSearch(t, q, n, [], 0).visited),
                    FixedSearch(t, q, n, [], 0).skipped, n);
  }

  /** A one-point range makes a leaf. */
  lemma LeafTree(p: Point2D, depth: nat)
    ensures ConstructTree([p], depth) == Node(p, Nil, Nil)
  {
    assert [p][0..0] == [] && [p][1..] == [];
    assert FindAxisMedian(0, 0, depth, [p]) == Median(0, [p]);
  }

  /** Three points in strictly ascending x order make a root over two
      leaves. */
  lemma BuildThree(b: Point2D, a: Point2D, c: Point2D)
    requires b.x < a.x < c.x
    ensures Build([b, a, c]).root == Node(a, Node(b, Nil, Nil), Node(c, Nil, Nil))
  {
    var pts := [b, a, c];
    assert pts[0..3] == pts;
    SortKeepsAscending(pts, X);
    assert FindAxisMedian(0, 3, 0, pts) == Median(1, pts);
    assert pts[..1] == [b] && pts[2..] == [c];
    LeafTree(b, 1);
    LeafTree(c, 1);
  }

  /** At a leaf both searches only offer the leaf's point. */
  lemma SearchLeaf(p: Point2D, q: Point2D, n: nat, h: seq<HeapItem>, minDist: real, depth: nat)
    requires 0 < n && |h| <= n
    ensures Search(Node(p, Nil, Nil), q, n, h, minDist, depth).heap == Offer(h, ItemFor(q, p), n)
    ensures FixedSearch(Node(p, Nil, Nil), q, n, h, depth).heap == Offer(h, ItemFor(q, p), n)
  {
  }

  /** The as-written search misses the nearest point. Query (0, 0), one
      neighbour, points (-1, 0), (0.3, 0.4), (0.35, 0): the root (0.3, 0.4)
      is at squared distance 0.25, the query lies left of it, and the right
      child is skipped because 0 + 0.25 < 0.3, though (0.35, 0) lies at
      squared distance 0.1225. */
  lemma SearchMissesNearest()
    ensures Search(Build([Point2D(-1.0, 0.0), Point2D(0.3, 0.4), Point2D(0.35, 0.0)]).root,
                   Point2D(0.0, 0.0), 1, [], FloatMax, 0).heap
         == [ItemFor(Point2D(0.0, 0.0), Point2D(0.3, 0.4))]
    ensures DistanceSquared(Point2D(0.0, 0.0), Point2D(0.35, 0.0)) < DistanceSquared(Point2D(0.0, 0.0), Point2D(0.3, 0.4))
  {
    BuildThree(Point2D(-1.0, 0.0), Point2D(0.3, 0.4), Point2D(0.35, 0.0));
    ThreeDistances();
    OfferSingle(HeapItem(0.25, Point2D(0.3, 0.4)), HeapItem(1.0, Point2D(-1.0, 0.0)));
    SearchLeaf(Point2D(-1.0, 0.0), Point2D(0.0, 0.0), 1, [HeapItem(0.25, Point2D(0.3, 0.4))], 0.25, 1);
  }

  /** On the same input the corrected search, comparing 0.3 squared with
      0.25, visits (0.35, 0) and keeps it. */
  lemma FixedSearchFindsMissed()
    ensures FixedSearch(Build([Point2D(-1.0, 0.0), Point2D(0.3, 0.4), Point2D(0.35, 0.0)]).root,
                        Point2D(0.0, 0.0), 1, [], 0).heap
         == [ItemFor(Point2D(0.0, 0.0), Point2D(0.35, 0.0))]
  {
    BuildThree(Point2D(-1.0, 0.0), Point2D(0.3, 0.4), Point2D(0.35, 0.0));
    FixedSearchThree();
  }

  lemma FixedSearchThree()
    ensures FixedSearch(Node(Point2D(0.3, 0.4), Node(Point2D(-1.0, 0.0), Nil, Nil), Node(Point2D(0.35, 0.0), Nil, Nil)),
                        Point2D(0.0, 0.0), 1, [], 0).heap
         == [ItemFor(Point2D(0.0, 0.0), Point2D(0.35, 0.0))]
  {
    assert Offer([], ItemFor(Point2D(0.0, 0.0), Point2D(0.3, 0.4)), 1) == [ItemFor(Point2D(0.0, 0.0), Point2D(0.3, 0.4))];
    FixedDescendThree();
  }

  lemma FixedDescendThree()
    ensures FixedDescend(Node(Point2D(0.3, 0.4), Node(Point2D(-1.0, 0.0), Nil, Nil), Node(Point2D(0.35, 0.0), Nil, Nil)),
                         Point2D(0.0, 0.0), 1, [ItemFor(Point2D(0.0, 0.0), Point2D(0.3, 0.4))], 0).heap
         == [ItemFor(Point2D(0.0, 0.0), Point2D(0.35, 0.0))]
  {
    ThreeDistances();
    OfferSingle(HeapItem(0.25, Point2D(0.3, 0.4)), HeapItem(1.0, Point2D(-1.0, 0.0)));
    OfferSingle(HeapItem(0.25, Point2D(0.3, 0.4)), HeapItem(0.1225, Point2D(0.35, 0.0)));
    assert Square(0.0 - 0.3) == 0.09;
    FixedDescendLeaves(Point2D(0.3, 0.4), Point2D(-1.0, 0.0), Point2D(0.35, 0.0), Point2D(0.0, 0.0), 1,
                       [HeapItem(0.25, Point2D(0.3, 0.4))], 0);
  }

  /** The squared distances from (0, 0) of the three points above. */
  lemma ThreeDistances()
    ensures ItemFor(Point2D(0.0, 0.0), Point2D(0.3, 0.4)) == HeapItem(0.25, Point2D(0.3, 0.4))
    ensures ItemFor(Point2D(0.0, 0.0), Point2D(-1.0, 0.0)) == HeapItem(1.0, Point2D(-1.0, 0.0))
    ensures ItemFor(Point2D(0.0, 0.0), Point2D(0.35, 0.0)) == HeapItem(0.1225, Point2D(0.35, 0.0))
  {
    assert Square(0.0 - 0.3) == 0.09 && Square(0.0 - 0.4) == 0.16;
    assert Square(0.0 - -1.0) == 1.0 && Square(0.0 - 0.0) == 0.0;
    assert Square(0.0 - 0.35) == 0.1225;
  }

  /** Offering to a full one-element heap keeps the nearer pair. */
  lemma OfferSingle(x: HeapItem, y: HeapItem)
    ensures Offer([x], y, 1) == if Below(y, x) then [y] else [x]
  {
    if Below(y, x) {
      assert Pop([x]) == [];
    }
  }

  /** Below a node over two leaves, with the query on the left side and the
      corrected test passing, the search offers the left leaf, then the
      right one. */
  lemma FixedDescendLeaves(a: Point2D, b: Point2D, c: Point2D, q: Point2D, n: nat, h1: seq<HeapItem>, depth: nat)
    requires 0 < n && 0 < |h1| <= n
    requires DimVal(q, AxisOf(depth)) < DimVal(a, AxisOf(depth))
    requires FixedGoesOn(q, a, AxisOf(depth), Offer(h1, ItemFor(q, b), n), n)
    ensures FixedDescend(Node(a, Node(b, Nil, Nil), Node(c, Nil, Nil)), q, n, h1, depth).heap
         == Offer(Offer(h1, ItemFor(q, b), n), ItemFor(q, c), n)
  {
    SearchLeaf(b, q, n, h1, 0.0, depth + 1);
    SearchLeaf(c, q, n, Offer(h1, ItemFor(q, b), n), 0.0, depth + 1);
  }

  /** The public query with the corrected search. On a k-d ordered tree,
      such as every tree `FixedBuild` yields, it returns the `n` points of
      the tree nearest to the query (fewer only when the tree holds fewer),
      farthest first. */
  method FixedFindNNearestNeighbors(tree: TwoDTree, q: Point2D, n: nat) returns (r: Result<seq<Point2D>, QueryError>)
    requires KdOrdered(tree.root, 0)
    ensures r.Err? <==> n == 0
    ensures r.Ok? ==> KeepsNearestPoints(r.value, q, Points(tree.root), n)
    ensures r.Ok? ==> forall i, j :: 0 <= i < j < |r.value| ==> DistanceSquared(q, r.value[j]) <= DistanceSquared(q, r.value[i])
  {
    if n == 0 {
      return Err(ZeroNeighbors);
    }
    var v := FixedSearch(tree.root, q, n, [], 0);
    FixedSearchFindsNearest(tree.root, q, n);
    var out := Drain(v.heap);
    assert out == Positions(v.heap);
    HeapFarthestFirst(v.heap, q, out);
    KeepsNearestAsPoints(v.heap, q, Points(tree.root), n);
    return Ok(out);
  }
}

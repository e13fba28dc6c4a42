/** The n-nearest-neighbour query of `TwoDTree`: the recursive descent that
    offers every visited node to a bounded max-heap of the closest points
    found so far, and the public entry that runs it from the root and pops
    the heap into a vector. */
module NearestSearch {
  import opened Outcome
  import opened Geometry
  import opened SpatialIndex
  import opened PointHeap

  function Min(a: int, b: int): int {
    if a < b then a else b
  }

  /** The pair the search forms for point `p`: its squared distance from
      the query, and the point. */
  function ItemFor(q: Point2D, p: Point2D): (x: HeapItem)
    ensures x.pos == p && 0.0 <= x.dist
  {
    HeapItem(DistanceSquared(q, p), p)
  }

  /** The heap holds the `n` points nearest to `q` among `seen`: it is a heap
      of correctly measured pairs, its points are drawn from `seen`, it is
      as full as `n` and `seen` allow, and no point of `seen` it left out
      is nearer than its top. */
  ghost predicate KeepsNearest(h: seq<HeapItem>, q: Point2D, seen: multiset<Point2D>, n: nat) {
    && IsHeap(h)
    && (forall i :: 0 <= i < |h| ==> h[i].dist == DistanceSquared(q, h[i].pos))
    && multiset(Positions(h)) <= seen
    && |h| == Min(n, |seen|)
    && (forall p :: p in seen - multiset(Positions(h)) ==> 0 < |h| && Top(h).dist <= DistanceSquared(q, p))
  }

  /** The visit of one node, before the recursion: while fewer than `n`
      pairs are held the node's pair is pushed; once `n` are held it
      replaces the top only when strictly nearer. */
  function Offer(h: seq<HeapItem>, item: HeapItem, n: nat): (r: seq<HeapItem>)
    requires 0 < n
    ensures |h| < n ==> |r| == |h| + 1
    ensures n <= |h| ==> |r| == |h|
  {
    if |h| < n then Push(h, item)
    else if Below(item, Top(h)) then Push(Pop(h), item)
    else h
  }

  /** The empty heap keeps the nearest of nothing. */
  lemma KeepsNearestEmpty(q: Point2D, n: nat)
    ensures KeepsNearest([], q, multiset{}, n)
  {
    assert Positions([]) == [];
  }

  /** Offering the next point keeps the nearest of everything seen so far
      and that point. */
  lemma OfferKeepsNearest(h: seq<HeapItem>, q: Point2D, seen: multiset<Point2D>, n: nat, p: Point2D)
    requires 0 < n
    requires KeepsNearest(h, q, seen, n)
    ensures KeepsNearest(Offer(h, ItemFor(q, p), n), q, seen + multiset{p}, n)
  {
    if |h| < n {
      OfferWhileFilling(h, q, seen, n, p);
    } else if Below(ItemFor(q, p), Top(h)) {
      OfferReplacing(h, q, seen, n, p);
    } else {
      OfferRejected(h, q, seen, n, p);
    }
  }

  /** A sub-multiset as large as the whole is the whole. */
  lemma SubMultisetSameSize(a: multiset<Point2D>, b: multiset<Point2D>)
    requires a <= b && |a| == |b|
    ensures a == b
  {
    var d := b - a;
    assert b == a + d;
    assert |d| == 0;
  }

  lemma OfferWhileFilling(h: seq<HeapItem>, q: Point2D, seen: multiset<Point2D>, n: nat, p: Point2D)
    requires 0 < n && |h| < n
    requires KeepsNearest(h, q, seen, n)
    ensures KeepsNearest(Offer(h, ItemFor(q, p), n), q, seen + multiset{p}, n)
  {
    SubMultisetSameSize(multiset(Positions(h)), seen);
    PositionsPush(h, ItemFor(q, p));
    PushKeepsHeap(h, ItemFor(q, p));
    PushMeasured(h, q, p);
  }

  /** Pushing a correctly measured pair keeps every pair measured. */
  lemma PushMeasured(h: seq<HeapItem>, q: Point2D, p: Point2D)
    requires forall i :: 0 <= i < |h| ==> h[i].dist == DistanceSquared(q, h[i].pos)
    ensures forall i :: 0 <= i < |h| + 1 ==>
      Push(h, ItemFor(q, p))[i].dist == DistanceSquared(q, Push(h, ItemFor(q, p))[i].pos)
  {
    PushAdds(h, ItemFor(q, p));
    forall i | 0 <= i < |h| + 1
      ensures Push(h, ItemFor(q, p))[i].dist == DistanceSquared(q, Push(h, ItemFor(q, p))[i].pos)
    {
      assert Push(h, ItemFor(q, p))[i] in multiset(h) + multiset{ItemFor(q, p)};
    }
  }

  lemma OfferReplacing(h: seq<HeapItem>, q: Point2D, seen: multiset<Point2D>, n: nat, p: Point2D)
    requires 0 < n <= |h|
    requires Below(ItemFor(q, p), Top(h))
    requires KeepsNearest(h, q, seen, n)
    ensures KeepsNearest(Offer(h, ItemFor(q, p), n), q, seen + multiset{p}, n)
  {
    PositionsPop(h);
    PositionsPush(Pop(h), ItemFor(q, p));
    PopKeepsHeap(h);
    PushKeepsHeap(Pop(h), ItemFor(q, p));
    PushMeasured(Pop(h), q, p);
    PushAtMost(Pop(h), ItemFor(q, p), Top(h).dist);
    assert Top(h).pos in seen;
    assert seen + multiset{p} - multiset(Positions(Push(Pop(h), ItemFor(q, p))))
        == seen - multiset(Positions(h)) + multiset{Top(h).pos};
  }

  lemma OfferRejected(h: seq<HeapItem>, q: Point2D, seen: multiset<Point2D>, n: nat, p: Point2D)
    requires 0 < n <= |h|
    requires !Below(ItemFor(q, p), Top(h))
    requires KeepsNearest(h, q, seen, n)
    ensures KeepsNearest(Offer(h, ItemFor(q, p), n), q, seen + multiset{p}, n)
  {
    assert seen + multiset{p} - multiset(Positions(h)) == seen - multiset(Positions(h)) + multiset{p};
  }

  /** The heap after a search of a subtree, the `min_dist` it leaves
      behind, and the points it visited, in visiting order. */
  datatype Visit = Visit(heap: seq<HeapItem>, minDist: real, visited: seq<Point2D>)

  /** The child of a node on the query's side of it: the left one when the
      query's coordinate on the node's axis is below the node's. */
  function Near(t: Tree, q: Point2D, depth: nat): (c: Tree)
    requires t.Node?
    ensures c == t.left || c == t.right
  {
    if DimVal(q, AxisOf(depth)) < DimVal(t.pos, AxisOf(depth)) then t.left else t.right
  }

  /** The other child. */
  function Far(t: Tree, q: Point2D, depth: nat): (c: Tree)
    requires t.Node?
    ensures c == t.left || c == t.right
    ensures Near(t, q, depth) == t.left ==> c == t.right
    ensures Near(t, q, depth) == t.right && t.left != t.right ==> c == t.left
  {
    if DimVal(q, AxisOf(depth)) < DimVal(t.pos, AxisOf(depth)) then t.right else t.left
  }

  /** The source's test for searching the far child: the query's
      coordinate moved by `minDist` towards the node reaches the node's
      coordinate. `minDist` is a squared distance, compared here with a
      coordinate offset. */
  predicate GoesOn(q: Point2D, node: Point2D, ax: Axis, minDist: real) {
    if DimVal(q, ax) < DimVal(node, ax) then DimVal(q, ax) + minDist >= DimVal(node, ax)
    else DimVal(q, ax) - minDist <= DimVal(node, ax)
  }

  /** The recursive `FindNNearestNeighbors(node, query, n, closest,
      min_dist, depth)`: nothing at a null node; otherwise the node's point
      is offered, `min_dist` becomes the top, and `Descend` searches the
      children. */
  function Search(t: Tree, q: Point2D, n: nat, h: seq<HeapItem>, minDist: real, depth: nat): (v: Visit)
    requires 0 < n && |h| <= n
    ensures |v.heap| == Min(n, |h| + |v.visited|)
    ensures t.Nil? ==> v.heap == h && v.minDist == minDist && v.visited == []
    ensures t.Node? ==> 0 < |v.visited| && v.visited[0] == t.pos
    ensures (t.Node? || (0 < |h| && minDist == Top(h).dist)) ==>
              0 < |v.heap| && v.minDist == Top(v.heap).dist
    decreases t, 1
  {
    if t.Nil? then Visit(h, minDist, [])
    else
      var d := Descend(t, q, n, Offer(h, ItemFor(q, t.pos), n), depth);
      Visit(d.heap, d.minDist, [t.pos] + d.visited)
  }

  /** The children's part of a node's search, once the node's point is in
      the heap `h1` and `min_dist` is its top: the child on the query's
      side first, then the other child when `GoesOn` holds for the
      `min_dist` the first search left behind. */
  function Descend(t: Tree, q: Point2D, n: nat, h1: seq<HeapItem>, depth: nat): (v: Visit)
    requires 0 < n && 0 < |h1| <= n && t.Node?
    ensures |v.heap| == Min(n, |h1| + |v.visited|)
    ensures 0 < |v.heap| && v.minDist == Top(v.heap).dist
    decreases t, 0
  {
    var a := Search(Near(t, q, depth), q, n, h1, Top(h1).dist, depth + 1);
    if GoesOn(q, t.pos, AxisOf(depth), a.minDist) then
      var b := Search(Far(t, q, depth), q, n, a.heap, a.minDist, depth + 1);
      Visit(b.heap, b.minDist, a.visited + b.visited)
    else
      a
  }

  /** Whatever it visits, the search leaves a heap holding the `n` points
      nearest to the query among those seen before it and those it
      visited. */
  lemma {:induction false} SearchKeepsNearest(t: Tree, q: Point2D, n: nat, h: seq<HeapItem>, minDist: real,
                                              depth: nat, seen: multiset<Point2D>)
    requires 0 < n
    requires KeepsNearest(h, q, seen, n)
    ensures KeepsNearest(Search(t, q, n, h, minDist, depth).heap, q,
                         seen + multiset(Search(t, q, n, h, minDist, depth).visited), n)
    decreases t, 1
  {
    if t.Node? {
      OfferKeepsNearest(h, q, seen, n, t.pos);
      DescendKeepsNearest(t, q, n, Offer(h, ItemFor(q, t.pos), n), depth, seen + multiset{t.pos});
      VisitedCons(t.pos, Descend(t, q, n, Offer(h, ItemFor(q, t.pos), n), depth).visited);
    }
  }

  /** The same for the children's part. */
  lemma {:induction false} DescendKeepsNearest(t: Tree, q: Point2D, n: nat, h1: seq<HeapItem>, depth: nat,
                                               seen: multiset<Point2D>)
    requires 0 < n && 0 < |h1| && t.Node?
    requires KeepsNearest(h1, q, seen, n)
    ensures KeepsNearest(Descend(t, q, n, h1, depth).heap, q,
                         seen + multiset(Descend(t, q, n, h1, depth).visited), n)
    decreases t, 0
  {
    SearchKeepsNearest(Near(t, q, depth), q, n, h1, Top(h1).dist, depth + 1, seen);
    if GoesOn(q, t.pos, AxisOf(depth), Search(Near(t, q, depth), q, n, h1, Top(h1).dist, depth + 1).minDist) {
      SearchKeepsNearest(Far(t, q, depth), q, n,
                         Search(Near(t, q, depth), q, n, h1, Top(h1).dist, depth + 1).heap,
                         Search(Near(t, q, depth), q, n, h1, Top(h1).dist, depth + 1).minDist, depth + 1,
                         seen + multiset(Search(Near(t, q, depth), q, n, h1, Top(h1).dist, depth + 1).visited));
      KeepsNearestJoin(Search(Far(t, q, depth), q, n,
                              Search(Near(t, q, depth), q, n, h1, Top(h1).dist, depth + 1).heap,
                              Search(Near(t, q, depth), q, n, h1, Top(h1).dist, depth + 1).minDist, depth + 1).heap,
                       q, seen, Search(Near(t, q, depth), q, n, h1, Top(h1).dist, depth + 1).visited,
                       Search(Far(t, q, depth), q, n,
                              Search(Near(t, q, depth), q, n, h1, Top(h1).dist, depth + 1).heap,
                              Search(Near(t, q, depth), q, n, h1, Top(h1).dist, depth + 1).minDist, depth + 1).visited, n);
    }
  }

  /** Visiting `a` and then `b` is visiting `a + b`. */
  lemma KeepsNearestJoin(h: seq<HeapItem>, q: Point2D, seen: multiset<Point2D>, a: seq<Point2D>, b: seq<Point2D>, n: nat)
    requires KeepsNearest(h, q, seen + multiset(a) + multiset(b), n)
    ensures KeepsNearest(h, q, seen + multiset(a + b), n)
  {
    assert seen + multiset(a) + multiset(b) == seen + multiset(a + b);
  }

  lemma VisitedCons(p: Point2D, a: seq<Point2D>)
    ensures multiset([p] + a) == multiset{p} + multiset(a)
  {
  }

  /** The two children of a node, in either search order. */
  lemma NearFarPoints(t: Tree, q: Point2D, depth: nat)
    requires t.Node?
    ensures Points(Near(t, q, depth)) + Points(Far(t, q, depth)) == Points(t.left) + Points(t.right)
  {
  }

  /** The search visits only points of the tree, each at most as often as
      the tree holds it. */
  lemma {:induction false} SearchVisitsWithin(t: Tree, q: Point2D, n: nat, h: seq<HeapItem>, minDist: real, depth: nat)
    requires 0 < n && |h| <= n
    ensures multiset(Search(t, q, n, h, minDist, depth).visited) <= Points(t)
    decreases t, 1
  {
    if t.Node? {
      DescendVisitsWithin(t, q, n, Offer(h, ItemFor(q, t.pos), n), depth);
      VisitedCons(t.pos, Descend(t, q, n, Offer(h, ItemFor(q, t.pos), n), depth).visited);
    }
  }

  lemma {:induction false} DescendVisitsWithin(t: Tree, q: Point2D, n: nat, h1: seq<HeapItem>, depth: nat)
    requires 0 < n && 0 < |h1| <= n && t.Node?
    ensures multiset(Descend(t, q, n, h1, depth).visited) <= Points(t.left) + Points(t.right)
    decreases t, 0
  {
    NearFarPoints(t, q, depth);
    SearchVisitsWithin(Near(t, q, depth), q, n, h1, Top(h1).dist, depth + 1);
    SearchVisitsWithin(Far(t, q, depth), q, n,
                       Search(Near(t, q, depth), q, n, h1, Top(h1).dist, depth + 1).heap,
                       Search(Near(t, q, depth), q, n, h1, Top(h1).dist, depth + 1).minDist, depth + 1);
  }

  /** `std::numeric_limits<float>::max()`, the initial `min_dist`. The
      first offer overwrites it before it is read. */
  const FloatMax: real := 340282346638528859811704183484516925440.0

  /** The one error of the public query. */
  datatype QueryError = ZeroNeighbors

  /** The final loop of the public query: pops the heap into a vector
      until it is empty, so the points come out in heap order, top first. */
  method Drain(heap: seq<HeapItem>) returns (out: seq<Point2D>)
    ensures |out| == |heap|
    ensures forall i :: 0 <= i < |heap| ==> out[i] == heap[i].pos
  {
    var h := heap;
    out := [];
    while 0 < |h|
      invariant |out| + |h| == |heap|
      invariant h == heap[|out|..]
      invariant forall i :: 0 <= i < |out| ==> out[i] == heap[i].pos
      decreases |h|
    {
      out := out + [Top(h).pos];
      h := Pop(h);
    }
  }

  /** A heap of correctly measured pairs lists its points farthest first. */
  lemma HeapFarthestFirst(h: seq<HeapItem>, q: Point2D, ps: seq<Point2D>)
    requires IsHeap(h)
    requires forall i :: 0 <= i < |h| ==> h[i].dist == DistanceSquared(q, h[i].pos)
    requires |ps| == |h| && forall i :: 0 <= i < |h| ==> ps[i] == h[i].pos
    ensures forall i, j :: 0 <= i < j < |ps| ==> DistanceSquared(q, ps[j]) <= DistanceSquared(q, ps[i])
  {
    forall i, j | 0 <= i < j < |ps|
      ensures DistanceSquared(q, ps[j]) <= DistanceSquared(q, ps[i])
    {
      assert !Below(h[i], h[j]);
    }
  }

  /** The public `FindNNearestNeighbors(query, n)`: rejects `n == 0`;
      otherwise searches from the root with an empty heap and returns the
      heap's points, farthest first. What it returns are the `n` nearest of
      the points the search visited, which need not be the `n` nearest of
      the tree. */
  method FindNNearestNeighbors(tree: TwoDTree, q: Point2D, n: nat) returns (r: Result<seq<Point2D>, QueryError>)
    ensures r.Err? <==> n == 0
    ensures r.Ok? ==> multiset(r.value) <= Points(tree.root)
    ensures r.Ok? && tree.root.Node? ==> 0 < |r.value| <= n
    ensures r.Ok? ==> forall i, j :: 0 <= i < j < |r.value| ==> DistanceSquared(q, r.value[j]) <= DistanceSquared(q, r.value[i])
    ensures r.Ok? ==> KeepsNearestPoints(r.value, q, multiset(Search(tree.root, q, n, [], FloatMax, 0).visited), n)
  {
    if n == 0 {
      return Err(ZeroNeighbors);
    }
    var v := Search(tree.root, q, n, [], FloatMax, 0);
    KeepsNearestEmpty(q, n);
    SearchKeepsNearest(tree.root, q, n, [], FloatMax, 0, multiset{});
    SearchVisitsWithin(tree.root, q, n, [], FloatMax, 0);
    var out := Drain(v.heap);
    assert out == Positions(v.heap);
    HeapFarthestFirst(v.heap, q, out);
    KeepsNearestAsPoints(v.heap, q, multiset(v.visited), n);
    return Ok(out);
  }

  /** `ps` are the `n` points of `seen` nearest to `q`, farthest first: as
      many as `n` and `seen` allow, drawn from `seen`, and every point of
      `seen` left out at least as far from `q` as each of them. */
  ghost predicate KeepsNearestPoints(ps: seq<Point2D>, q: Point2D, seen: multiset<Point2D>, n: nat) {
    && multiset(ps) <= seen
    && |ps| == Min(n, |seen|)
    && (forall p, i :: p in seen - multiset(ps) && 0 <= i < |ps| ==> DistanceSquared(q, ps[i]) <= DistanceSquared(q, p))
  }

  /** What `KeepsNearest` says of a heap, said of its points. */
  lemma KeepsNearestAsPoints(h: seq<HeapItem>, q: Point2D, seen: multiset<Point2D>, n: nat)
    requires KeepsNearest(h, q, seen, n)
    ensures KeepsNearestPoints(Positions(h), q, seen, n)
  {
    if 0 < |h| {
      TopIsMax(h);
    }
  }
}

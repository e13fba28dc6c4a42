/** The `PointHeap` of the nearest-neighbour search: a
    `std::priority_queue` of `(squared distance, point)` pairs ordered by
    `PointHeapItemCmp`, which compares the distances only, so the top is a
    pair of largest distance. The queue is modelled as a sequence in
    non-increasing order of distance, top first. Which of several pairs of
    equal distance is on top is the model's choice; the standard library
    leaves it unspecified. */
module PointHeap {
  import opened Geometry

  /** A `PointHeapItem`. */
  datatype HeapItem = HeapItem(dist: real, pos: Point2D)

  /** `PointHeapItemCmp`: `a` orders below `b` when its distance is
      smaller. */
  predicate Below(a: HeapItem, b: HeapItem) {
    a.dist < b.dist
  }

  /** The heap order: no pair orders below a later one. */
  ghost predicate IsHeap(h: seq<HeapItem>) {
    forall i, j :: 0 <= i < j < |h| ==> !Below(h[i], h[j])
  }

  /** `closest.top()`. */
  function Top(h: seq<HeapItem>): (t: HeapItem)
    requires 0 < |h|
    ensures t in h
  {
    h[0]
  }

  /** In a heap no pair lies above the top. */
  lemma TopIsMax(h: seq<HeapItem>)
    requires IsHeap(h) && 0 < |h|
    ensures forall i :: 0 <= i < |h| ==> h[i].dist <= Top(h).dist
  {
    forall i | 0 <= i < |h|
      ensures h[i].dist <= Top(h).dist
    {
      if i != 0 {
        assert !Below(h[0], h[i]);
      }
    }
  }

  /** `closest.push(item)`: `item` goes in front of the first pair of a
      distance not above its own. */
  function Push(h: seq<HeapItem>, item: HeapItem): (r: seq<HeapItem>)
    ensures |r| == |h| + 1
    ensures r[0] == item || (0 < |h| && r[0] == h[0])
    decreases |h|
  {
    if |h| == 0 || !Below(item, h[0]) then [item] + h
    else [h[0]] + Push(h[1..], item)
  }

  /** Pushing adds exactly the pushed pair. */
  lemma {:induction false} PushAdds(h: seq<HeapItem>, item: HeapItem)
    ensures multiset(Push(h, item)) == multiset(h) + multiset{item}
    decreases |h|
  {
    if |h| != 0 && Below(item, h[0]) {
      assert h == [h[0]] + h[1..];
      assert Push(h, item) == [h[0]] + Push(h[1..], item);
      PushAdds(h[1..], item);
    } else {
      assert Push(h, item) == [item] + h;
    }
  }

  /** Every pair of a sequence at or below `b`. */
  ghost predicate AllAtMost(h: seq<HeapItem>, b: real) {
    forall i :: 0 <= i < |h| ==> h[i].dist <= b
  }

  /** Pushing a pair at or below a bound onto pairs at or below it keeps
      them all at or below it. */
  lemma {:induction false} PushAtMost(h: seq<HeapItem>, item: HeapItem, b: real)
    requires AllAtMost(h, b) && item.dist <= b
    ensures AllAtMost(Push(h, item), b)
    decreases |h|
  {
    if |h| != 0 && Below(item, h[0]) {
      assert Push(h, item) == [h[0]] + Push(h[1..], item);
      assert AllAtMost(h[1..], b);
      PushAtMost(h[1..], item, b);
    } else {
      assert Push(h, item) == [item] + h;
    }
  }

  /** A heap stays a heap behind a pair at or above all of it. */
  lemma PrependHeap(x: HeapItem, t: seq<HeapItem>)
    requires IsHeap(t) && AllAtMost(t, x.dist)
    ensures IsHeap([x] + t)
  {
    var u := [x] + t;
    forall i, j | 0 <= i < j < |u|
      ensures !Below(u[i], u[j])
    {
      assert u[j] == t[j - 1];
      if 0 < i {
        assert u[i] == t[i - 1];
      }
    }
  }

  /** Pushing keeps the heap order. */
  lemma {:induction false} PushKeepsHeap(h: seq<HeapItem>, item: HeapItem)
    requires IsHeap(h)
    ensures IsHeap(Push(h, item))
    decreases |h|
  {
    if |h| != 0 && Below(item, h[0]) {
      assert Push(h, item) == [h[0]] + Push(h[1..], item);
      PushKeepsHeap(h[1..], item);
      assert AllAtMost(h[1..], h[0].dist) by {
        TopIsMax(h);
      }
      PushAtMost(h[1..], item, h[0].dist);
      PrependHeap(h[0], Push(h[1..], item));
    } else {
      assert Push(h, item) == [item] + h;
      TopIsMaxAll(h);
      if |h| != 0 {
        assert AllAtMost(h, item.dist);
      }
      PrependHeap(item, h);
    }
  }

  /** A heap lies at or below its top. */
  lemma TopIsMaxAll(h: seq<HeapItem>)
    requires IsHeap(h)
    ensures 0 < |h| ==> AllAtMost(h, Top(h).dist)
  {
    if 0 < |h| {
      TopIsMax(h);
    }
  }

  /** The top after a push is the larger of the old top and the pushed
      pair: the pushed pair itself unless it orders below the old top, in
      which case the old top stays. */
  lemma PushTop(h: seq<HeapItem>, item: HeapItem)
    requires IsHeap(h)
    ensures Top(Push(h, item)).dist == if 0 < |h| && item.dist < Top(h).dist then Top(h).dist else item.dist
    ensures |h| == 0 || !Below(item, Top(h)) ==> Top(Push(h, item)) == item
    ensures 0 < |h| && Below(item, Top(h)) ==> Top(Push(h, item)) == Top(h)
  {
  }

  /** `closest.pop()`: drops the top. */
  function Pop(h: seq<HeapItem>): (r: seq<HeapItem>)
    requires 0 < |h|
    ensures |r| == |h| - 1
    ensures multiset(r) == multiset(h) - multiset{Top(h)}
  {
    assert h == [h[0]] + h[1..];
    h[1..]
  }

  /** Popping keeps the heap order and leaves nothing above the old top. */
  lemma PopKeepsHeap(h: seq<HeapItem>)
    requires IsHeap(h) && 0 < |h|
    ensures IsHeap(Pop(h))
    ensures AllAtMost(Pop(h), Top(h).dist)
  {
    TopIsMax(h);
  }

  /** The points of the pairs, top first: the order in which the final
      loop of the search pops them into `closest_neighbors`. */
  function Positions(h: seq<HeapItem>): (ps: seq<Point2D>)
    ensures |ps| == |h|
  {
    seq(|h|, i requires 0 <= i < |h| => h[i].pos)
  }

  /** The points of a pair in front of a heap. */
  lemma PositionsCons(x: HeapItem, t: seq<HeapItem>)
    ensures Positions([x] + t) == [x.pos] + Positions(t)
  {
  }

  /** Pushing adds the pushed pair's point to the points of the heap. */
  lemma {:induction false} PositionsPush(h: seq<HeapItem>, item: HeapItem)
    ensures multiset(Positions(Push(h, item))) == multiset(Positions(h)) + multiset{item.pos}
    decreases |h|
  {
    if |h| != 0 && Below(item, h[0]) {
      assert Push(h, item) == [h[0]] + Push(h[1..], item);
      PositionsCons(h[0], Push(h[1..], item));
      assert h == [h[0]] + h[1..];
      PositionsCons(h[0], h[1..]);
      PositionsPush(h[1..], item);
    } else {
      assert Push(h, item) == [item] + h;
      PositionsCons(item, h);
    }
  }

  /** Popping removes the top's point from the points of the heap. */
  lemma PositionsPop(h: seq<HeapItem>)
    requires 0 < |h|
    ensures multiset(Positions(h)) == multiset(Positions(Pop(h))) + multiset{Top(h).pos}
  {
    assert h == [h[0]] + h[1..];
    PositionsCons(h[0], h[1..]);
  }
}

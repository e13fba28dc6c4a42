/** Plane geometry shared by the 2-D tree and both texture pipelines:
    points, split axes, squared distances and the toroidal axis delta. */
module Geometry {

  /** A seed or query location. The sources use `float` and `double`
      coordinates; the model uses exact reals. */
  datatype Point2D = Point2D(x: real, y: real)

  /** The split axis of a tree level: `Axis::X` is 0 and `Axis::Y` is 1. */
  datatype Axis = X | Y

  /** `kDimensions`: the number of axes the tree cycles through. */
  const Dimensions: nat := 2

  /** The enumerator value of an axis. */
  function AxisIndex(a: Axis): (i: nat)
    ensures i < Dimensions
    ensures a == X <==> i == 0
  {
    match a
    case X => 0
    case Y => 1
  }

  /** The axis a tree level at `depth` splits on: `depth % kDimensions`. */
  function AxisOf(depth: nat): (a: Axis)
    ensures AxisIndex(a) == depth % Dimensions
  {
    if depth % Dimensions == 0 then X else Y
  }

  /** Consecutive levels split on different axes, and the axes repeat with
      period `kDimensions`: x, y, x, y, ... down the tree. */
  lemma AxisAlternates(depth: nat)
    ensures AxisOf(depth) != AxisOf(depth + 1)
    ensures AxisOf(depth + Dimensions) == AxisOf(depth)
    ensures AxisOf(0) == X && AxisOf(1) == Y
  {
  }

  /** `GetDimVal`: the coordinate of `p` on axis `a`. */
  function DimVal(p: Point2D, a: Axis): real
  {
    match a
    case X => p.x
    case Y => p.y
  }

  function Abs(v: real): (r: real)
    ensures 0.0 <= r
    ensures r == v || r == -v
  {
    if v < 0.0 then -v else v
  }

  function Square(v: real): real {
    v * v
  }

  lemma SquareMonotone(a: real, b: real)
    requires Abs(a) <= Abs(b)
    ensures Square(a) <= Square(b)
  {
    if Abs(a) < Abs(b) {
      SquareStrictMonotone(a, b);
    } else {
      assert a == b || a == -b;
      assert (-b) * (-b) == b * b;
    }
  }

  lemma SquareStrictMonotone(a: real, b: real)
    requires Abs(a) < Abs(b)
    ensures Square(a) < Square(b)
  {
    var u, v := Abs(a), Abs(b);
    assert Square(a) == u * u by {
      assert (-a) * (-a) == a * a;
    }
    assert Square(b) == v * v by {
      assert (-b) * (-b) == b * b;
    }
    ProductOrder(u, v);
  }

  lemma ProductOrder(u: real, v: real)
    requires 0.0 <= u < v
    ensures u * u < v * v
  {
    var d := v - u;
    assert 0.0 < v * d;
    assert 0.0 <= u * d;
    assert v * v == u * u + u * d + v * d;
  }

  /** For non-negative reals, squares order like their roots. */
  lemma SquareRootOrder(u: real, v: real)
    requires 0.0 <= u && 0.0 <= v
    requires Square(u) <= Square(v)
    ensures u <= v
  {
    if v < u {
      SquareStrictMonotone(v, u);
    }
  }

  lemma SquareZero(v: real)
    ensures Square(v) == 0.0 <==> v == 0.0
    ensures 0.0 <= Square(v)
  {
    if v != 0.0 {
      SquareStrictMonotone(0.0, v);
    }
  }

  /** `GetDistanceSquared`: the squared Euclidean distance of two points. It
      is never negative and vanishes exactly on identical points. */
  function DistanceSquared(a: Point2D, b: Point2D): (d: real)
    ensures 0.0 <= d
    ensures d == 0.0 <==> a == b
  {
    SquareZero(a.x - b.x);
    SquareZero(a.y - b.y);
    Square(a.x - b.x) + Square(a.y - b.y)
  }

  lemma DistanceSquaredSymmetric(a: Point2D, b: Point2D)
    ensures DistanceSquared(a, b) == DistanceSquared(b, a)
  {
    assert Square(a.x - b.x) == Square(b.x - a.x);
    assert Square(a.y - b.y) == Square(b.y - a.y);
  }

  /** The squared offset of two points along one axis never exceeds their
      squared distance: the fact a pruned nearest-neighbour search rests on. */
  lemma AxisOffsetBelowDistance(a: Point2D, b: Point2D, ax: Axis)
    ensures Square(DimVal(a, ax) - DimVal(b, ax)) <= DistanceSquared(a, b)
  {
    SquareZero(a.x - b.x);
    SquareZero(a.y - b.y);
  }

  /** A square root. The sources call `std::sqrt`, `std::sqrtf` and
      `f64::sqrt`; the model takes the root as a parameter and states what
      it needs of it with this predicate. */
  ghost predicate IsSqrt(sqrt: real -> real) {
    forall v :: 0.0 <= v ==> 0.0 <= sqrt(v) && sqrt(v) * sqrt(v) == v
  }

  lemma SqrtOfSquare(sqrt: real -> real, r: real)
    requires IsSqrt(sqrt)
    requires 0.0 <= r
    ensures sqrt(r * r) == r
  {
    var s := sqrt(r * r);
    assert 0.0 <= s && Square(s) == Square(r);
    SquareRootOrder(s, r);
    SquareRootOrder(r, s);
  }

  lemma SqrtMonotone(sqrt: real -> real, a: real, b: real)
    requires IsSqrt(sqrt)
    requires 0.0 <= a <= b
    ensures sqrt(a) <= sqrt(b)
  {
    var sa, sb := sqrt(a), sqrt(b);
    assert 0.0 <= sa && Square(sa) == a;
    assert 0.0 <= sb && Square(sb) == b;
    SquareRootOrder(sa, sb);
  }

  /** The toroidal delta of two coordinates on an axis of length `dim`: the
      absolute delta, replaced by `dim - delta` when it exceeds half the
      axis. For a non-negative axis length the wrapped delta is never longer
      than the raw one, it equals the raw one exactly when no wrap happens,
      and for coordinates inside `[0, dim]` it lies in `[0, dim / 2]`. */
  function WrapDelta(a: real, b: real, dim: real): (d: real)
    ensures d == Abs(a - b) <==> Abs(a - b) <= dim / 2.0
    ensures 0.0 <= dim ==> Abs(d) <= Abs(a - b)
    ensures 0.0 < dim && dim / 2.0 < Abs(a - b) ==> Abs(d) < Abs(a - b)
    ensures 0.0 <= a <= dim && 0.0 <= b <= dim ==> 0.0 <= d <= dim / 2.0
  {
    var raw := Abs(a - b);
    if raw > dim / 2.0 then dim - raw else raw
  }

  /** Squared toroidal distance of two points on a `width` x `height` torus,
      the radicand of `DistanceWrapped` and of `wrapped_distance`. */
  function WrappedDistanceSquared(a: Point2D, b: Point2D, width: real, height: real): real {
    Square(WrapDelta(a.x, b.x, width)) + Square(WrapDelta(a.y, b.y, height))
  }

  /** The toroidal distance never exceeds the planar one, and it equals it
      exactly when neither axis delta exceeds half its dimension. */
  lemma {:induction false} WrappedNotLonger(a: Point2D, b: Point2D, width: real, height: real)
    requires 0.0 < width && 0.0 < height
    ensures WrappedDistanceSquared(a, b, width, height) <= DistanceSquared(a, b)
    ensures WrappedDistanceSquared(a, b, width, height) == DistanceSquared(a, b)
            <==> Abs(a.x - b.x) <= width / 2.0 && Abs(a.y - b.y) <= height / 2.0
  {
    var dx, dy := WrapDelta(a.x, b.x, width), WrapDelta(a.y, b.y, height);
    SquareMonotone(dx, a.x - b.x);
    SquareMonotone(dy, a.y - b.y);
    if Abs(a.x - b.x) > width / 2.0 {
      SquareStrictMonotone(dx, a.x - b.x);
    }
    if Abs(a.y - b.y) > height / 2.0 {
      SquareStrictMonotone(dy, a.y - b.y);
    }
  }
}

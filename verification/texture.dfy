/** The C++ texture pipeline of `src/Texture.cpp`: every pixel of a
    `width` x `height` image gets the combination of its distances to its
    nearest seed points, and the combined values are min-max normalised
    into colours. The seed points, the nearest-neighbour query and the
    square root are parameters: the source draws the seeds at random and
    calls a tree library and `std::sqrt` for the other two. */
module Texture {
  import opened Outcome
  import opened Geometry
  import opened Raster
  import opened RealMath

  /** `DistOp`: how the distances of one pixel to its neighbours are
      combined. */
  datatype DistOp = Add | Subtract | Multiply

  /** The configuration fields `src/Texture.cpp` reads. */
  datatype TextureConfig = TextureConfig(
    width: nat,
    height: nat,
    numNeighbors: nat,
    invertColors: bool,
    isTiled: bool,
    op: DistOp)

  /** A pixel of the output: its row, its column and its colour. */
  datatype Pixel = Pixel(row: nat, col: nat, color: real)

  /** Why texture creation fails: a neighbour query that returned too few
      points for the pixel at (`row`, `col`), or distances that are all
      equal, so that normalising them divides zero by zero. */
  datatype TextureError = TooFewNeighbors(row: nat, col: nat) | DegenerateRange

  /** `std::numeric_limits<double>::max()`, the seed of the smallest
      distance seen. */
  const DoubleMax: real := 179769313486231570814527423731704356798070567525844996598917476803157260780028538760589558632766878171540458953514382464234321326889464182768467546703537516986049910576551282076245490090389328944075868508455133942304583236903222948165808559332123348274797826204144723168738177180919299881250404026184124858368.0

  /** `Distance`: the planar distance, the root of the squared distance. */
  function Distance(sqrt: real -> real, a: Point2D, b: Point2D): (d: real)
    ensures IsSqrt(sqrt) ==> 0.0 <= d && d * d == DistanceSquared(a, b)
  {
    sqrt(DistanceSquared(a, b))
  }

  /** `DistanceWrapped`: the distance on a `width` x `height` torus, each
      axis delta wrapped when it exceeds half its dimension. */
  function DistanceWrapped(sqrt: real -> real, a: Point2D, b: Point2D, width: nat, height: nat): (d: real)
    ensures IsSqrt(sqrt) ==> 0.0 <= d && d * d == WrappedDistanceSquared(a, b, width as real, height as real)
  {
    SquareZero(WrapDelta(a.x, b.x, width as real));
    SquareZero(WrapDelta(a.y, b.y, height as real));
    sqrt(WrappedDistanceSquared(a, b, width as real, height as real))
  }

  /** On a torus of positive size the wrapped distance never exceeds the
      planar one, and equals it when no axis delta exceeds half its
      dimension. */
  lemma WrappedNotFarther(sqrt: real -> real, a: Point2D, b: Point2D, width: nat, height: nat)
    requires IsSqrt(sqrt) && 0 < width && 0 < height
    ensures DistanceWrapped(sqrt, a, b, width, height) <= Distance(sqrt, a, b)
    ensures Abs(a.x - b.x) <= width as real / 2.0 && Abs(a.y - b.y) <= height as real / 2.0 ==>
              DistanceWrapped(sqrt, a, b, width, height) == Distance(sqrt, a, b)
  {
    WrappedNotLonger(a, b, width as real, height as real);
    SquareZero(WrapDelta(a.x, b.x, width as real));
    SquareZero(WrapDelta(a.y, b.y, height as real));
    SqrtMonotone(sqrt, WrappedDistanceSquared(a, b, width as real, height as real), DistanceSquared(a, b));
  }

  /** `ApplyOp`: one step of the combination. */
  function ApplyOp(a: real, b: real, op: DistOp): (r: real)
    ensures op == Subtract ==> 0.0 <= r
    ensures 0.0 <= a && 0.0 <= b ==> 0.0 <= r
  {
    match op
    case Add => a + b
    case Subtract => Abs(a - b)
    case Multiply => a * b
  }

  /** `kSubtract` is the absolute difference, so its order does not matter. */
  lemma SubtractSymmetric(a: real, b: real)
    ensures ApplyOp(a, b, Subtract) == ApplyOp(b, a, Subtract)
    ensures ApplyOp(a, b, Subtract) == 0.0 <==> a == b
  {
  }

  /** The left fold of `ApplyOp` over `ds`, seeded with 1.0. */
  function Fold(ds: seq<real>, op: DistOp): (r: real)
    ensures (forall i :: 0 <= i < |ds| ==> 0.0 <= ds[i]) ==> 0.0 <= r
    decreases |ds|
  {
    if |ds| == 0 then 1.0 else ApplyOp(Fold(ds[..|ds| - 1], op), ds[|ds| - 1], op)
  }

  /** With `kAdd` the fold is one more than the sum of the distances. */
  lemma {:induction false} FoldAddIsSum(ds: seq<real>)
    ensures Fold(ds, Add) == 1.0 + Sum(ds)
    decreases |ds|
  {
    if |ds| != 0 {
      FoldAddIsSum(ds[..|ds| - 1]);
      SumSnoc(ds[..|ds| - 1], ds[|ds| - 1]);
      assert ds[..|ds| - 1] + [ds[|ds| - 1]] == ds;
    }
  }

  /** With `kMultiply` the fold is the product of the distances. */
  lemma {:induction false} FoldMultiplyIsProduct(ds: seq<real>)
    ensures Fold(ds, Multiply) == Product(ds)
    decreases |ds|
  {
    if |ds| != 0 {
      FoldMultiplyIsProduct(ds[..|ds| - 1]);
      ProductSnoc(ds[..|ds| - 1], ds[|ds| - 1]);
      assert ds[..|ds| - 1] + [ds[|ds| - 1]] == ds;
    }
  }

  /** With a single neighbour the value is 1 + d, |1 - d| or d. */
  lemma FoldSingle(d: real, op: DistOp)
    ensures Fold([d], op) == ApplyOp(1.0, d, op)
    ensures op == Multiply ==> Fold([d], op) == d
  {
    assert [d][..0] == [];
  }

  /** With `kSubtract` the chain starts from the seed: two neighbours give
      `fabs(fabs(1 - d1) - d2)`, not the difference of the distances. */
  lemma FoldSubtractPair(d1: real, d2: real)
    ensures Fold([d1, d2], Subtract) == Abs(Abs(1.0 - d1) - d2)
  {
    assert [d1, d2][..1] == [d1];
    FoldSingle(d1, Subtract);
  }

  /** The location of a pixel as a query point: the row is the first
      coordinate and the column the second. */
  function PixelPoint(p: Pixel): Point2D {
    Point2D(p.row as real, p.col as real)
  }

  /** The distance from a pixel to one neighbour: wrapped iff the texture
      is tiled. The first coordinate, the row, is wrapped with the width. */
  function NeighborDistance(conf: TextureConfig, sqrt: real -> real, p: Pixel, n: Point2D): (d: real)
    ensures IsSqrt(sqrt) ==> 0.0 <= d
  {
    if conf.isTiled then DistanceWrapped(sqrt, PixelPoint(p), n, conf.width, conf.height)
    else Distance(sqrt, PixelPoint(p), n)
  }

  /** Tiling never makes a neighbour farther: on an image of positive size
      the tiled distance is at most the planar one. */
  lemma TiledNotFarther(conf: TextureConfig, sqrt: real -> real, p: Pixel, n: Point2D)
    requires IsSqrt(sqrt) && 0 < conf.width && 0 < conf.height
    ensures NeighborDistance(conf.(isTiled := true), sqrt, p, n) <= NeighborDistance(conf.(isTiled := false), sqrt, p, n)
  {
    WrappedNotFarther(sqrt, PixelPoint(p), n, conf.width, conf.height);
  }

  /** The distances from a pixel to its neighbours, in the query's order. */
  function NeighborDistances(conf: TextureConfig, sqrt: real -> real, p: Pixel, ns: seq<Point2D>): (ds: seq<real>)
    ensures |ds| == |ns|
  {
    seq(|ns|, i requires 0 <= i < |ns| => NeighborDistance(conf, sqrt, p, ns[i]))
  }

  /** `DistToNearestKPoints` given the points `found` the query returned:
      too few is an error, otherwise the seeded fold of their distances. */
  function DistToNearestKPoints(conf: TextureConfig, sqrt: real -> real, p: Pixel, found: seq<Point2D>): (r: Result<real, TextureError>)
    ensures r.Err? <==> |found| < conf.numNeighbors
    ensures r.Err? ==> r.error == TooFewNeighbors(p.row, p.col)
    ensures r.Ok? && IsSqrt(sqrt) ==> 0.0 <= r.value
  {
    if |found| < conf.numNeighbors then Err(TooFewNeighbors(p.row, p.col))
    else Ok(Fold(NeighborDistances(conf, sqrt, p, found), conf.op))
  }

  /** The pixels of the sweep, row-major, all with colour 0. */
  function Grid(width: nat, height: nat): (ps: seq<Pixel>)
    ensures |ps| == width * height
  {
    seq(width * height, k requires 0 <= k < width * height =>
      Pixel(RowMajor(width, height)[k].row, RowMajor(width, height)[k].col, 0.0))
  }

  /** The `k`-th pixel of the sweep is at row `k / width` and column
      `k % width`. */
  lemma GridRowMajor(width: nat, height: nat, k: nat)
    requires k < width * height
    ensures Grid(width, height)[k] == Pixel(k / width, k % width, 0.0)
  {
    RowMajorIndex(width, height, k);
  }

  /** The value of one pixel: the query is asked for `numNeighbors` points
      near the pixel's location and their distances are combined. */
  function PixelValue(conf: TextureConfig, sqrt: real -> real, query: (Point2D, nat) -> seq<Point2D>, p: Pixel): (r: Result<real, TextureError>)
    ensures r.Err? <==> |query(PixelPoint(p), conf.numNeighbors)| < conf.numNeighbors
  {
    DistToNearestKPoints(conf, sqrt, p, query(PixelPoint(p), conf.numNeighbors))
  }

  /** The values of the pixels `ps`, in order; the first pixel that fails
      ends the sweep with its error. */
  function Sweep(conf: TextureConfig, sqrt: real -> real, query: (Point2D, nat) -> seq<Point2D>, ps: seq<Pixel>): (r: Result<seq<real>, TextureError>)
    ensures r.Ok? ==> |r.value| == |ps|
    decreases |ps|
  {
    if |ps| == 0 then Ok([])
    else
      var d :- PixelValue(conf, sqrt, query, ps[0]);
      var rest :- Sweep(conf, sqrt, query, ps[1..]);
      Ok([d] + rest)
  }

  /** The sweep succeeds exactly when every pixel does, and then holds each
      pixel's value; when it fails, the error is that of the first pixel
      that fails. */
  lemma {:induction false} SweepSpec(conf: TextureConfig, sqrt: real -> real, query: (Point2D, nat) -> seq<Point2D>, ps: seq<Pixel>)
    ensures Sweep(conf, sqrt, query, ps).Ok? <==> forall k :: 0 <= k < |ps| ==> PixelValue(conf, sqrt, query, ps[k]).Ok?
    ensures Sweep(conf, sqrt, query, ps).Ok? ==>
              forall k :: 0 <= k < |ps| ==> Sweep(conf, sqrt, query, ps).value[k] == PixelValue(conf, sqrt, query, ps[k]).value
    ensures Sweep(conf, sqrt, query, ps).Err? ==>
              exists k :: 0 <= k < |ps| && (forall j :: 0 <= j < k ==> PixelValue(conf, sqrt, query, ps[j]).Ok?) &&
                PixelValue(conf, sqrt, query, ps[k]) == Err(Sweep(conf, sqrt, query, ps).error)
    decreases |ps|
  {
    if |ps| != 0 {
      SweepSpec(conf, sqrt, query, ps[1..]);
      if PixelValue(conf, sqrt, query, ps[0]).Ok? && Sweep(conf, sqrt, query, ps[1..]).Err? {
        var k :| 0 <= k < |ps[1..]| && (forall j :: 0 <= j < k ==> PixelValue(conf, sqrt, query, ps[1..][j]).Ok?) &&
          PixelValue(conf, sqrt, query, ps[1..][k]) == Err(Sweep(conf, sqrt, query, ps[1..]).error);
        assert ps[1..][k] == ps[k + 1];
        forall j | 0 <= j < k + 1
          ensures PixelValue(conf, sqrt, query, ps[j]).Ok?
        {
          if j != 0 {
            assert ps[1..][j - 1] == ps[j];
          }
        }
      }
    }
  }

  /** `mindist` after the sweep: seeded with the largest double, lowered by
      `std::min` at each value. It is a lower bound of the values, and it is
      either one of them or still the seed. */
  function MinSoFar(ds: seq<real>): (m: real)
    ensures m <= DoubleMax
    ensures forall i :: 0 <= i < |ds| ==> m <= ds[i]
    ensures m == DoubleMax || exists i :: 0 <= i < |ds| && ds[i] == m
    decreases |ds|
  {
    if |ds| == 0 then DoubleMax
    else
      var prev := MinSoFar(ds[..|ds| - 1]);
      if prev < ds[|ds| - 1] then prev else ds[|ds| - 1]
  }

  /** `maxdist` after the sweep: seeded with 0.0, raised by `std::max` at
      each value. It is an upper bound of the values, never negative, and
      either one of them or still the seed. */
  function MaxSoFar(ds: seq<real>): (m: real)
    ensures 0.0 <= m
    ensures forall i :: 0 <= i < |ds| ==> ds[i] <= m
    ensures m == 0.0 || exists i :: 0 <= i < |ds| && ds[i] == m
    decreases |ds|
  {
    if |ds| == 0 then 0.0
    else
      var prev := MaxSoFar(ds[..|ds| - 1]);
      if prev < ds[|ds| - 1] then ds[|ds| - 1] else prev
  }

  /** The colour of a pixel whose value is `d`: its position between `lo`
      and `hi`, or the complement when colours are inverted. */
  function Color(d: real, lo: real, hi: real, invert: bool): real
    requires lo != hi
  {
    var v := (d - lo) / (hi - lo);
    if invert then 1.0 - v else v
  }

  /** Inside the range a colour lies in [0, 1], and it is at an end exactly
      when the value is at the matching end of the range. */
  lemma ColorSpec(d: real, lo: real, hi: real, invert: bool)
    requires lo < hi && lo <= d <= hi
    ensures 0.0 <= Color(d, lo, hi, invert) <= 1.0
    ensures d == lo <==> Color(d, lo, hi, invert) == (if invert then 1.0 else 0.0)
    ensures d == hi <==> Color(d, lo, hi, invert) == (if invert then 0.0 else 1.0)
  {
    UnitFraction(d - lo, hi - lo);
  }

  /** Normalisation keeps the order of the values, and inversion reverses
      it. */
  lemma ColorMonotone(d1: real, d2: real, lo: real, hi: real)
    requires lo < hi && d1 <= d2
    ensures Color(d1, lo, hi, false) <= Color(d2, lo, hi, false)
    ensures Color(d2, lo, hi, true) <= Color(d1, lo, hi, true)
  {
    assert (d2 - lo) / (hi - lo) - (d1 - lo) / (hi - lo) == (d2 - d1) / (hi - lo);
  }

  /** The second pass: every pixel takes the colour of its value. */
  function Colorize(ps: seq<Pixel>, ds: seq<real>, lo: real, hi: real, invert: bool): (r: seq<Pixel>)
    requires |ds| == |ps| && (0 < |ps| ==> lo != hi)
    ensures |r| == |ps|
    ensures forall k :: 0 <= k < |ps| ==> r[k].row == ps[k].row && r[k].col == ps[k].col
  {
    seq(|ps|, k requires 0 <= k < |ps| => ps[k].(color := Color(ds[k], lo, hi, invert)))
  }

  /** `CreateTexture` given the seed points' neighbour query: sweep the
      grid, then normalise. Distances that are all equal leave nothing to
      normalise by and fail. */
  function CreateTexture(conf: TextureConfig, sqrt: real -> real, query: (Point2D, nat) -> seq<Point2D>): (r: Result<seq<Pixel>, TextureError>)
    ensures r.Ok? ==> |r.value| == conf.width * conf.height
  {
    var ps := Grid(conf.width, conf.height);
    var ds :- Sweep(conf, sqrt, query, ps);
    if 0 < |ds| && MinSoFar(ds) == MaxSoFar(ds) then Err(DegenerateRange)
    else Ok(Colorize(ps, ds, MinSoFar(ds), MaxSoFar(ds), conf.invertColors))
  }

  /** The texture is in row-major order: the `k`-th pixel is at row
      `k / width` and column `k % width`. */
  lemma CreateTextureRowMajor(conf: TextureConfig, sqrt: real -> real, query: (Point2D, nat) -> seq<Point2D>, k: nat)
    requires k < conf.width * conf.height
    ensures CreateTexture(conf, sqrt, query).Ok? ==> CreateTexture(conf, sqrt, query).value[k].row == k / conf.width
    ensures CreateTexture(conf, sqrt, query).Ok? ==> CreateTexture(conf, sqrt, query).value[k].col == k % conf.width
  {
    GridRowMajor(conf.width, conf.height, k);
  }

  /** Every colour lies in [0, 1]. */
  lemma CreateTextureColorsInRange(conf: TextureConfig, sqrt: real -> real, query: (Point2D, nat) -> seq<Point2D>, k: nat)
    requires k < conf.width * conf.height
    ensures CreateTexture(conf, sqrt, query).Ok? ==> 0.0 <= CreateTexture(conf, sqrt, query).value[k].color <= 1.0
  {
    if CreateTexture(conf, sqrt, query).Ok? {
      var ds := Sweep(conf, sqrt, query, Grid(conf.width, conf.height)).value;
      ColorSpec(ds[k], MinSoFar(ds), MaxSoFar(ds), conf.invertColors);
    }
  }

  /** A shortage of neighbours is reported for the first pixel, in
      row-major order, whose own query returns too few points. */
  lemma CreateTextureFails(conf: TextureConfig, sqrt: real -> real, query: (Point2D, nat) -> seq<Point2D>)
    ensures CreateTexture(conf, sqrt, query).Err? && CreateTexture(conf, sqrt, query).error.TooFewNeighbors? ==>
              exists k :: 0 <= k < conf.width * conf.height &&
                (forall j :: 0 <= j < k ==> PixelValue(conf, sqrt, query, Grid(conf.width, conf.height)[j]).Ok?) &&
                PixelValue(conf, sqrt, query, Grid(conf.width, conf.height)[k]) == Err(CreateTexture(conf, sqrt, query).error)
  {
    SweepSpec(conf, sqrt, query, Grid(conf.width, conf.height));
  }

  /** The texture exists exactly when every pixel has its neighbours and
      the values are not all equal; then the `k`-th pixel's colour is the
      normalised value of the `k`-th pixel of the grid. */
  lemma CreateTextureColors(conf: TextureConfig, sqrt: real -> real, query: (Point2D, nat) -> seq<Point2D>, k: nat)
    requires k < conf.width * conf.height
    ensures CreateTexture(conf, sqrt, query).Ok? <==>
              Sweep(conf, sqrt, query, Grid(conf.width, conf.height)).Ok? &&
              MinSoFar(Sweep(conf, sqrt, query, Grid(conf.width, conf.height)).value)
                != MaxSoFar(Sweep(conf, sqrt, query, Grid(conf.width, conf.height)).value)
    ensures CreateTexture(conf, sqrt, query).Ok? ==>
              && Sweep(conf, sqrt, query, Grid(conf.width, conf.height)).Ok?
              && MinSoFar(Sweep(conf, sqrt, query, Grid(conf.width, conf.height)).value)
                 != MaxSoFar(Sweep(conf, sqrt, query, Grid(conf.width, conf.height)).value)
              && PixelValue(conf, sqrt, query, Grid(conf.width, conf.height)[k])
                 == Ok(Sweep(conf, sqrt, query, Grid(conf.width, conf.height)).value[k])
              && CreateTexture(conf, sqrt, query).value[k].color
                 == Color(Sweep(conf, sqrt, query, Grid(conf.width, conf.height)).value[k],
                          MinSoFar(Sweep(conf, sqrt, query, Grid(conf.width, conf.height)).value),
                          MaxSoFar(Sweep(conf, sqrt, query, Grid(conf.width, conf.height)).value),
                          conf.invertColors)
  {
    SweepSpec(conf, sqrt, query, Grid(conf.width, conf.height));
    CreateTextureIsColorize(conf, sqrt, query);
  }

  /** When the image is not empty and its values stay within the largest
      double and are not all equal, the texture has a pixel of colour 0 and one of colour 1. */
  lemma CreateTextureHitsEnds(conf: TextureConfig, sqrt: real -> real, query: (Point2D, nat) -> seq<Point2D>)
    requires IsSqrt(sqrt)
    ensures 0 < conf.width * conf.height && Sweep(conf, sqrt, query, Grid(conf.width, conf.height)).Ok? &&
            MinSoFar(Sweep(conf, sqrt, query, Grid(conf.width, conf.height)).value)
              != MaxSoFar(Sweep(conf, sqrt, query, Grid(conf.width, conf.height)).value) &&
            (forall i :: 0 <= i < conf.width * conf.height ==>
               Sweep(conf, sqrt, query, Grid(conf.width, conf.height)).value[i] <= DoubleMax) ==>
              && CreateTexture(conf, sqrt, query).Ok?
              && (exists k :: 0 <= k < conf.width * conf.height && CreateTexture(conf, sqrt, query).value[k].color == 0.0)
              && (exists k :: 0 <= k < conf.width * conf.height && CreateTexture(conf, sqrt, query).value[k].color == 1.0)
  {
    if && 0 < conf.width * conf.height
       && Sweep(conf, sqrt, query, Grid(conf.width, conf.height)).Ok?
       && MinSoFar(Sweep(conf, sqrt, query, Grid(conf.width, conf.height)).value)
          != MaxSoFar(Sweep(conf, sqrt, query, Grid(conf.width, conf.height)).value)
       && (forall i :: 0 <= i < conf.width * conf.height ==>
             Sweep(conf, sqrt, query, Grid(conf.width, conf.height)).value[i] <= DoubleMax)
    {
      CreateTextureIsColorize(conf, sqrt, query);
      SweepNonNegative(conf, sqrt, query, Grid(conf.width, conf.height));
      ColorizeHitsEnds(Grid(conf.width, conf.height), Sweep(conf, sqrt, query, Grid(conf.width, conf.height)).value, conf.invertColors);
    }
  }

  /** A successful sweep of a non-empty image with values not all equal
      is normalised into the texture. */
  lemma CreateTextureIsColorize(conf: TextureConfig, sqrt: real -> real, query: (Point2D, nat) -> seq<Point2D>)
    ensures 0 < conf.width * conf.height && Sweep(conf, sqrt, query, Grid(conf.width, conf.height)).Ok? &&
            MinSoFar(Sweep(conf, sqrt, query, Grid(conf.width, conf.height)).value)
              != MaxSoFar(Sweep(conf, sqrt, query, Grid(conf.width, conf.height)).value) ==>
              CreateTexture(conf, sqrt, query)
                == Ok(Colorize(Grid(conf.width, conf.height), Sweep(conf, sqrt, query, Grid(conf.width, conf.height)).value,
                               MinSoFar(Sweep(conf, sqrt, query, Grid(conf.width, conf.height)).value),
                               MaxSoFar(Sweep(conf, sqrt, query, Grid(conf.width, conf.height)).value),
                               conf.invertColors))
  {
  }

  /** With a true square root every value of a successful sweep is
      non-negative. */
  lemma SweepNonNegative(conf: TextureConfig, sqrt: real -> real, query: (Point2D, nat) -> seq<Point2D>, ps: seq<Pixel>)
    requires IsSqrt(sqrt)
    ensures Sweep(conf, sqrt, query, ps).Ok? ==>
              forall i :: 0 <= i < |ps| ==> 0.0 <= Sweep(conf, sqrt, query, ps).value[i]
  {
    SweepSpec(conf, sqrt, query, ps);
  }

  /** When the values reach zero and stay within the largest double, the
      smallest value maps to colour 0 and the largest to 1 (the other way
      round when inverted). */
  lemma ColorizeHitsEnds(ps: seq<Pixel>, ds: seq<real>, invert: bool)
    requires |ds| == |ps| && 0 < |ps| && MinSoFar(ds) != MaxSoFar(ds)
    requires forall i :: 0 <= i < |ds| ==> 0.0 <= ds[i] <= DoubleMax
    ensures exists k :: 0 <= k < |ps| &&
              Colorize(ps, ds, MinSoFar(ds), MaxSoFar(ds), invert)[k].color == (if invert then 1.0 else 0.0)
    ensures exists k :: 0 <= k < |ps| &&
              Colorize(ps, ds, MinSoFar(ds), MaxSoFar(ds), invert)[k].color == (if invert then 0.0 else 1.0)
  {
    assert MinSoFar(ds) <= ds[0] <= MaxSoFar(ds);
    var lo :| 0 <= lo < |ds| && ds[lo] == MinSoFar(ds);
    var hi :| 0 <= hi < |ds| && ds[hi] == MaxSoFar(ds);
    ColorSpec(ds[lo], MinSoFar(ds), MaxSoFar(ds), invert);
    ColorSpec(ds[hi], MinSoFar(ds), MaxSoFar(ds), invert);
    assert Colorize(ps, ds, MinSoFar(ds), MaxSoFar(ds), invert)[lo].color == Color(ds[lo], MinSoFar(ds), MaxSoFar(ds), invert);
    assert Colorize(ps, ds, MinSoFar(ds), MaxSoFar(ds), invert)[hi].color == Color(ds[hi], MinSoFar(ds), MaxSoFar(ds), invert);
  }

  /** What reading a `DistOp` from a stream leaves: the operation, and
      whether the stream's fail bit is set. */
  datatype ReadOutcome = ReadOutcome(op: DistOp, failed: bool)

  /** `operator>>(istream&, DistOp&)` on the token it extracted: "+", "-"
      and "*" select an operation; any other token sets the fail bit and
      leaves `current` as it was. */
  function ReadDistOp(token: string, current: DistOp): (r: ReadOutcome)
    ensures r.failed ==> r.op == current
  {
    if token == "+" then ReadOutcome(Add, false)
    else if token == "-" then ReadOutcome(Subtract, false)
    else if token == "*" then ReadOutcome(Multiply, false)
    else ReadOutcome(current, true)
  }

  /** The token that stands for an operation. */
  function OpToken(op: DistOp): (t: string)
    ensures |t| == 1
  {
    match op
    case Add => "+"
    case Subtract => "-"
    case Multiply => "*"
  }

  /** Reading an operation's token gives back that operation, whatever was
      there before, and the tokens of operations are the only ones read
      without failing. */
  lemma ReadDistOpRoundTrip(op: DistOp, current: DistOp, token: string)
    ensures ReadDistOp(OpToken(op), current) == ReadOutcome(op, false)
    ensures !ReadDistOp(token, current).failed <==> exists o :: OpToken(o) == token
    ensures !ReadDistOp(token, current).failed ==> OpToken(ReadDistOp(token, current).op) == token
  {
    if token == "+" {
      assert OpToken(Add) == token;
    } else if token == "-" {
      assert OpToken(Subtract) == token;
    } else if token == "*" {
      assert OpToken(Multiply) == token;
    }
  }
}

/** The Rust texture pipeline of `src/lib.rs`: every pixel of the image
    gets the reduction of its wrapped distances to its nearest texture
    points, and the reduced values are min-max normalised into 8-bit
    grayscale. The texture points' neighbour query (the `kd_tree` crate's
    `nearests`) and the square root are parameters. */
module CellularTextures {
  import opened Outcome
  import opened Geometry
  import opened Raster
  import opened RealMath

  /** `DistanceOperation`: how the distances of one pixel are reduced. */
  datatype DistanceOperation = Add | Subtract | Multiply | Divide

  datatype ImageDimensions = ImageDimensions(width: nat, height: nat)

  /** The fields of `Config` that texture generation reads. */
  datatype Config = Config(
    dimensions: ImageDimensions,
    invertColors: bool,
    numNeighbors: nat,
    numTexturePoints: nat,
    distOp: DistanceOperation)

  /** The values of a `u8`. */
  type Byte = b: int | 0 <= b < 256

  /** A grayscale pixel at location `[x, y]`. */
  datatype Pixel = Pixel(x: int, y: int, grayscale: Byte)

  /** Why generation fails: a loop index that does not fit an `i32`, a
      pixel without neighbours, a pixel whose quotient of distances divides
      by zero (IEEE arithmetic would go on with an infinity or a NaN), or a
      pixel whose grayscale value falls outside `u8`. */
  datatype TextureError =
    | CoordinateOverflow
    | NoNeighbors(x: int, y: int)
    | DivisionByZero(x: int, y: int)
    | GrayscaleOutOfRange(index: nat)

  /** `i32::MAX`. */
  const I32Max: int := 0x7fff_ffff

  /** The location of a pixel as a point. */
  function Location(p: Pixel): Point2D
  {
    Point2D(p.x as real, p.y as real)
  }

  /** `Pixel::wrapped_distance`: the distance on the torus the image
      dimensions span. */
  function WrappedDistance(sqrt: real -> real, a: Pixel, b: Pixel, dims: ImageDimensions): (d: real)
    ensures IsSqrt(sqrt) ==>
              0.0 <= d && d * d == WrappedDistanceSquared(Location(a), Location(b), dims.width as real, dims.height as real)
  {
    SquareZero(WrapDelta(a.x as real, b.x as real, dims.width as real));
    SquareZero(WrapDelta(a.y as real, b.y as real, dims.height as real));
    sqrt(WrappedDistanceSquared(Location(a), Location(b), dims.width as real, dims.height as real))
  }

  /** The two unit-test cases: in a 10 x 10 image, (0, 0) and (3, 4) are 5
      apart, and (0, 0) and (9, 9) are the square root of 2 apart, both
      axes wrapping. */
  lemma WrappedDistanceExamples(sqrt: real -> real)
    requires IsSqrt(sqrt)
    ensures WrappedDistance(sqrt, Pixel(0, 0, 0), Pixel(3, 4, 0), ImageDimensions(10, 10)) == 5.0
    ensures WrappedDistance(sqrt, Pixel(0, 0, 0), Pixel(9, 9, 0), ImageDimensions(10, 10)) == sqrt(2.0)
  {
    assert WrappedDistanceSquared(Point2D(0.0, 0.0), Point2D(3.0, 4.0), 10.0, 10.0) == 5.0 * 5.0 by {
      assert WrapDelta(0.0, 3.0, 10.0) == 3.0 && WrapDelta(0.0, 4.0, 10.0) == 4.0;
    }
    SqrtOfSquare(sqrt, 5.0);
    assert WrappedDistanceSquared(Point2D(0.0, 0.0), Point2D(9.0, 9.0), 10.0, 10.0) == 2.0 by {
      assert WrapDelta(0.0, 9.0, 10.0) == 1.0;
    }
  }

  /** The outcome of `reduce` over the distances: no items at all, a value,
      or a division by a zero distance. */
  datatype Reduction = NoItems | Reduced(value: real) | ZeroDivisor

  /** One step of the reduction. */
  function Combine(acc: real, d: real, op: DistanceOperation): real
    requires op == Divide ==> d != 0.0
  {
    match op
    case Add => acc + d
    case Subtract => acc - d
    case Multiply => acc * d
    case Divide => acc / d
  }

  /** The left fold of `Combine` over `ds` from `acc`. */
  function FoldFrom(acc: real, ds: seq<real>, op: DistanceOperation): (r: Reduction)
    ensures r != NoItems
    decreases |ds|
  {
    if |ds| == 0 then Reduced(acc)
    else if op == Divide && ds[0] == 0.0 then ZeroDivisor
    else FoldFrom(Combine(acc, ds[0], op), ds[1..], op)
  }

  /** `Iterator::reduce`: unseeded, the first distance starts the fold. */
  function Reduce(ds: seq<real>, op: DistanceOperation): (r: Reduction)
    ensures r == NoItems <==> |ds| == 0
  {
    if |ds| == 0 then NoItems else FoldFrom(ds[0], ds[1..], op)
  }

  /** With one neighbour the value is that neighbour's distance. */
  lemma ReduceSingle(d: real, op: DistanceOperation)
    ensures Reduce([d], op) == Reduced(d)
  {
  }

  lemma {:induction false} FoldAddIsSum(acc: real, ds: seq<real>)
    ensures FoldFrom(acc, ds, Add) == Reduced(acc + Sum(ds))
    decreases |ds|
  {
    if |ds| != 0 {
      FoldAddIsSum(acc + ds[0], ds[1..]);
    }
  }

  lemma {:induction false} FoldSubtractIsDifference(acc: real, ds: seq<real>)
    ensures FoldFrom(acc, ds, Subtract) == Reduced(acc - Sum(ds))
    decreases |ds|
  {
    if |ds| != 0 {
      FoldSubtractIsDifference(acc - ds[0], ds[1..]);
    }
  }

  lemma {:induction false} FoldMultiplyIsProduct(acc: real, ds: seq<real>)
    ensures FoldFrom(acc, ds, Multiply) == Reduced(Product([acc] + ds))
    decreases |ds|
  {
    if |ds| == 0 {
      assert ([acc] + ds)[1..] == ds;
    } else {
      FoldMultiplyIsProduct(acc * ds[0], ds[1..]);
      ProductRegroups(acc, ds[0], ds[1..]);
      assert [ds[0]] + ds[1..] == ds;
    }
  }

  /** Multiplying the first two factors first leaves the product alone. */
  lemma ProductRegroups(a: real, b: real, rest: seq<real>)
    ensures Product([a] + ([b] + rest)) == Product([a * b] + rest)
  {
    assert ([a] + ([b] + rest))[1..] == [b] + rest;
    assert ([b] + rest)[1..] == rest;
    assert ([a * b] + rest)[1..] == rest;
    assert a * b * Product(rest) == a * (b * Product(rest));
  }

  /** A product of non-zero reals is non-zero. */
  lemma {:induction false} ProductNonZero(ds: seq<real>)
    requires forall i :: 0 <= i < |ds| ==> ds[i] != 0.0
    ensures Product(ds) != 0.0
    decreases |ds|
  {
    if |ds| != 0 {
      ProductNonZero(ds[1..]);
    }
  }

  lemma {:induction false} FoldDivideIsQuotient(acc: real, ds: seq<real>)
    ensures FoldFrom(acc, ds, Divide) == ZeroDivisor <==> 0.0 in ds
    ensures 0.0 !in ds ==> Product(ds) != 0.0 && FoldFrom(acc, ds, Divide) == Reduced(acc / Product(ds))
    decreases |ds|
  {
    if |ds| != 0 {
      assert 0.0 in ds <==> ds[0] == 0.0 || 0.0 in ds[1..];
      if ds[0] != 0.0 {
        FoldDivideIsQuotient(acc / ds[0], ds[1..]);
        if 0.0 !in ds[1..] {
          QuotientTwice(acc, ds[0], Product(ds[1..]));
        }
      }
    }
  }

  /** Dividing twice divides by the product. */
  lemma QuotientTwice(a: real, b: real, c: real)
    requires b != 0.0 && c != 0.0
    ensures b * c != 0.0 && a / b / c == a / (b * c)
  {
    assert (a / b / c) * (b * c) == a;
  }

  /** With `Add` the reduction is the sum of the distances. */
  lemma ReduceAddIsSum(ds: seq<real>)
    requires 0 < |ds|
    ensures Reduce(ds, Add) == Reduced(Sum(ds))
  {
    FoldAddIsSum(ds[0], ds[1..]);
  }

  /** With `Subtract` it is the first distance less the others: a signed
      running difference, not the absolute one of the C++ pipeline. */
  lemma ReduceSubtractIsDifference(ds: seq<real>)
    requires 0 < |ds|
    ensures Reduce(ds, Subtract) == Reduced(ds[0] - Sum(ds[1..]))
  {
    FoldSubtractIsDifference(ds[0], ds[1..]);
  }

  /** With `Multiply` it is the product of the distances. */
  lemma ReduceMultiplyIsProduct(ds: seq<real>)
    requires 0 < |ds|
    ensures Reduce(ds, Multiply) == Reduced(Product(ds))
  {
    FoldMultiplyIsProduct(ds[0], ds[1..]);
    assert [ds[0]] + ds[1..] == ds;
  }

  /** With `Divide` it is the first distance divided by the product of the
      others, and it divides by zero exactly when one of the others is
      zero. */
  lemma ReduceDivideIsQuotient(ds: seq<real>)
    requires 0 < |ds|
    ensures Reduce(ds, Divide) == ZeroDivisor <==> 0.0 in ds[1..]
    ensures 0.0 !in ds[1..] ==> Product(ds[1..]) != 0.0 && Reduce(ds, Divide) == Reduced(ds[0] / Product(ds[1..]))
  {
    FoldDivideIsQuotient(ds[0], ds[1..]);
  }

  /** The distances from a pixel to each of its neighbours, in the order
      the query returned them. */
  function NeighborDistances(sqrt: real -> real, p: Pixel, ns: seq<Pixel>, dims: ImageDimensions): (ds: seq<real>)
    ensures |ds| == |ns|
  {
    seq(|ns|, i requires 0 <= i < |ns| => WrappedDistance(sqrt, p, ns[i], dims))
  }

  /** The value of one pixel: the reduction of its distances to the
      `numNeighbors` texture points the query returns. */
  function PixelValue(config: Config, sqrt: real -> real, nearest: (Pixel, nat) -> seq<Pixel>, p: Pixel): (r: Result<real, TextureError>)
    ensures r == Err(NoNeighbors(p.x, p.y)) <==> |nearest(p, config.numNeighbors)| == 0
    ensures r.Err? ==> r.error == NoNeighbors(p.x, p.y) || r.error == DivisionByZero(p.x, p.y)
  {
    match Reduce(NeighborDistances(sqrt, p, nearest(p, config.numNeighbors), config.dimensions), config.distOp)
    case NoItems => Err(NoNeighbors(p.x, p.y))
    case ZeroDivisor => Err(DivisionByZero(p.x, p.y))
    case Reduced(v) => Ok(v)
  }

  /** The pixel the loops make at `cell`: location `[j, i]` for row `i`
      and column `j`, each converted to `i32`, the column first. */
  function CellPixel(c: Cell): Result<Pixel, TextureError> {
    if c.col > I32Max || c.row > I32Max then Err(CoordinateOverflow) else Ok(Pixel(c.col, c.row, 0))
  }

  /** What the sweep collects: the pixels and their values, in order. */
  datatype Swept = Swept(pixels: seq<Pixel>, values: seq<real>)

  /** The sweep of `generate_texture` over `cells`: each pixel and its
      value, or the error of the first cell that fails. */
  function Sweep(config: Config, sqrt: real -> real, nearest: (Pixel, nat) -> seq<Pixel>, cells: seq<Cell>): (r: Result<Swept, TextureError>)
    ensures r.Ok? ==> |r.value.pixels| == |cells| && |r.value.values| == |cells|
    decreases |cells|
  {
    if |cells| == 0 then Ok(Swept([], []))
    else
      var p :- CellPixel(cells[0]);
      var v :- PixelValue(config, sqrt, nearest, p);
      var rest :- Sweep(config, sqrt, nearest, cells[1..]);
      Ok(Swept([p] + rest.pixels, [v] + rest.values))
  }

  /** A successful sweep holds, for each cell, its pixel and that pixel's
      value. */
  lemma {:induction false} SweepSpec(config: Config, sqrt: real -> real, nearest: (Pixel, nat) -> seq<Pixel>, cells: seq<Cell>, k: nat)
    requires k < |cells|
    ensures Sweep(config, sqrt, nearest, cells).Ok? ==>
              && Sweep(config, sqrt, nearest, cells).value.pixels[k] == Pixel(cells[k].col, cells[k].row, 0)
              && PixelValue(config, sqrt, nearest, Sweep(config, sqrt, nearest, cells).value.pixels[k])
                 == Ok(Sweep(config, sqrt, nearest, cells).value.values[k])
    decreases |cells|
  {
    SweepCons(config, sqrt, nearest, cells);
    if k != 0 && Sweep(config, sqrt, nearest, cells).Ok? {
      SweepSpec(config, sqrt, nearest, cells[1..], k - 1);
    }
  }

  /** A successful sweep starts with the first cell's pixel and value,
      followed by the sweep of the remaining cells. */
  lemma SweepCons(config: Config, sqrt: real -> real, nearest: (Pixel, nat) -> seq<Pixel>, cells: seq<Cell>)
    requires 0 < |cells|
    ensures Sweep(config, sqrt, nearest, cells).Ok? ==>
              && PixelValue(config, sqrt, nearest, Pixel(cells[0].col, cells[0].row, 0)).Ok?
              && Sweep(config, sqrt, nearest, cells[1..]).Ok?
              && Sweep(config, sqrt, nearest, cells).value
                 == Swept([Pixel(cells[0].col, cells[0].row, 0)] + Sweep(config, sqrt, nearest, cells[1..]).value.pixels,
                          [PixelValue(config, sqrt, nearest, Pixel(cells[0].col, cells[0].row, 0)).value]
                            + Sweep(config, sqrt, nearest, cells[1..]).value.values)
  {
  }

  /** What one step of the sweep makes of `cell`: the value of its pixel,
      or why the cell fails. Only the conversion of the location overflows;
      the pixel itself fails for want of neighbours or by a zero divisor. */
  function CellValue(config: Config, sqrt: real -> real, nearest: (Pixel, nat) -> seq<Pixel>, c: Cell): (r: Result<real, TextureError>)
    ensures r == Err(CoordinateOverflow) <==> c.col > I32Max || c.row > I32Max
  {
    var p :- CellPixel(c);
    PixelValue(config, sqrt, nearest, p)
  }

  /** The sweep stops at the first cell that fails and returns that cell's
      error. */
  lemma {:induction false} SweepFirstError(config: Config, sqrt: real -> real, nearest: (Pixel, nat) -> seq<Pixel>, cells: seq<Cell>, k: nat)
    requires k < |cells|
    ensures (forall j :: 0 <= j < k ==> CellValue(config, sqrt, nearest, cells[j]).Ok?) &&
            CellValue(config, sqrt, nearest, cells[k]).Err? ==>
              Sweep(config, sqrt, nearest, cells) == Err(CellValue(config, sqrt, nearest, cells[k]).error)
    decreases |cells|
  {
    if k != 0 && (forall j :: 0 <= j < k ==> CellValue(config, sqrt, nearest, cells[j]).Ok?) {
      assert CellValue(config, sqrt, nearest, cells[0]).Ok?;
      forall j | 0 <= j < k - 1
        ensures CellValue(config, sqrt, nearest, cells[1..][j]).Ok?
      {
        assert cells[1..][j] == cells[j + 1];
      }
      assert cells[1..][k - 1] == cells[k];
      SweepFirstError(config, sqrt, nearest, cells[1..], k - 1);
    }
  }

  /** The sweep succeeds exactly when every cell does; when it fails, its
      error is that of the first cell that fails. */
  lemma {:induction false} SweepFails(config: Config, sqrt: real -> real, nearest: (Pixel, nat) -> seq<Pixel>, cells: seq<Cell>)
    ensures Sweep(config, sqrt, nearest, cells).Ok? <==>
              forall k :: 0 <= k < |cells| ==> CellValue(config, sqrt, nearest, cells[k]).Ok?
    ensures Sweep(config, sqrt, nearest, cells).Err? ==>
              exists k :: 0 <= k < |cells| &&
                (forall j :: 0 <= j < k ==> CellValue(config, sqrt, nearest, cells[j]).Ok?) &&
                CellValue(config, sqrt, nearest, cells[k]) == Err(Sweep(config, sqrt, nearest, cells).error)
    decreases |cells|
  {
    if |cells| != 0 {
      SweepFails(config, sqrt, nearest, cells[1..]);
      if CellValue(config, sqrt, nearest, cells[0]).Ok? {
        if Sweep(config, sqrt, nearest, cells[1..]).Err? {
          var k :| 0 <= k < |cells[1..]| &&
            (forall j :: 0 <= j < k ==> CellValue(config, sqrt, nearest, cells[1..][j]).Ok?) &&
            CellValue(config, sqrt, nearest, cells[1..][k]) == Err(Sweep(config, sqrt, nearest, cells[1..]).error);
          assert cells[1..][k] == cells[k + 1];
          forall j | 0 <= j < k + 1
            ensures CellValue(config, sqrt, nearest, cells[j]).Ok?
          {
            if j != 0 {
              assert cells[1..][j - 1] == cells[j];
            }
          }
        } else {
          forall k | 0 <= k < |cells|
            ensures CellValue(config, sqrt, nearest, cells[k]).Ok?
          {
            if k != 0 {
              assert cells[1..][k - 1] == cells[k];
            }
          }
        }
      }
    }
  }

  /** A pixel without neighbours fails the sweep, and when every cell
      before it succeeds, the error names that pixel. */
  lemma {:induction false} SweepFailsWithoutNeighbors(config: Config, sqrt: real -> real, nearest: (Pixel, nat) -> seq<Pixel>, cells: seq<Cell>, k: nat)
    requires k < |cells| && cells[k].col <= I32Max && cells[k].row <= I32Max
    requires |nearest(Pixel(cells[k].col, cells[k].row, 0), config.numNeighbors)| == 0
    ensures Sweep(config, sqrt, nearest, cells).Err?
    ensures (forall j :: 0 <= j < k ==> CellValue(config, sqrt, nearest, cells[j]).Ok?) ==>
              Sweep(config, sqrt, nearest, cells) == Err(NoNeighbors(cells[k].col, cells[k].row))
    decreases |cells|
  {
    SweepFirstError(config, sqrt, nearest, cells, k);
    SweepFails(config, sqrt, nearest, cells);
    assert CellValue(config, sqrt, nearest, cells[k]) == Err(NoNeighbors(cells[k].col, cells[k].row));
  }

  /** `f64::min` folded over the values from `f64::INFINITY`; the infinite
      seed is never the result once there is a value. */
  function RunningMin(ds: seq<real>): (m: real)
    requires 0 < |ds|
    ensures forall i :: 0 <= i < |ds| ==> m <= ds[i]
    ensures exists i :: 0 <= i < |ds| && ds[i] == m
    decreases |ds|
  {
    if |ds| == 1 then ds[0]
    else
      var prev := RunningMin(ds[..|ds| - 1]);
      if ds[|ds| - 1] < prev then ds[|ds| - 1] else prev
  }

  /** `f64::max` folded over the values from `f64::NEG_INFINITY`. */
  function RunningMax(ds: seq<real>): (m: real)
    requires 0 < |ds|
    ensures forall i :: 0 <= i < |ds| ==> ds[i] <= m
    ensures exists i :: 0 <= i < |ds| && ds[i] == m
    decreases |ds|
  {
    if |ds| == 1 then ds[0]
    else
      var prev := RunningMax(ds[..|ds| - 1]);
      if prev < ds[|ds| - 1] then ds[|ds| - 1] else prev
  }

  /** `TextureAlgoData`: the smallest and largest value and the buffer of
      values. */
  datatype TextureAlgoData = TextureAlgoData(minDist: real, maxDist: real, distBuffer: seq<real>)

  /** `f64::round`: the nearest integer, within one half of `v`; a value
      exactly halfway between two integers goes to the one farther from
      zero. */
  function RoundHalfAwayFromZero(v: real): (r: int)
    ensures v - 0.5 <= r as real <= v + 0.5
    ensures r as real == v + 0.5 ==> 0.0 <= v
    ensures r as real == v - 0.5 ==> v < 0.0
  {
    if 0.0 <= v then (v + 0.5).Floor else -((-v + 0.5).Floor)
  }

  /** The grayscale value of one buffered value, or `None` when it is not a
      `u8`. A zero range is IEEE arithmetic's: a value at the minimum gives
      0 / 0, a NaN, which `as i64` turns into 0; any other value gives an
      infinity, which saturates and is rejected. */
  function Intensity(d: real, lo: real, hi: real, invert: bool): (r: Option<Byte>)
  {
    if hi == lo then (if d == lo then Some(0) else None)
    else
      var v := (d - lo) / (hi - lo);
      var g := RoundHalfAwayFromZero((if invert then 1.0 - v else v) * 255.0);
      if 0 <= g < 256 then Some(g) else None
  }

  /** `set_pixel_intensity`: every pixel takes the grayscale value of the
      buffered value at its index, in order; the first value that is not a
      `u8` fails with its index. */
  function SetPixelIntensity(ps: seq<Pixel>, data: TextureAlgoData, invert: bool, from: nat): (r: Result<seq<Pixel>, TextureError>)
    requires from + |ps| <= |data.distBuffer|
    ensures r.Ok? ==> |r.value| == |ps|
    ensures r.Ok? ==> forall k :: 0 <= k < |ps| ==> r.value[k].x == ps[k].x && r.value[k].y == ps[k].y
    ensures r.Ok? ==> forall k :: 0 <= k < |ps| ==>
      Intensity(data.distBuffer[from + k], data.minDist, data.maxDist, invert) == Some(r.value[k].grayscale)
    ensures r.Err? ==> r.error.GrayscaleOutOfRange? && from <= r.error.index < from + |ps|
    ensures r.Err? ==> Intensity(data.distBuffer[r.error.index], data.minDist, data.maxDist, invert).None?
    decreases |ps|
  {
    if |ps| == 0 then Ok([])
    else
      match Intensity(data.distBuffer[from], data.minDist, data.maxDist, invert)
      case None => Err(GrayscaleOutOfRange(from))
      case Some(g) =>
        var rest :- SetPixelIntensity(ps[1..], data, invert, from + 1);
        Ok([ps[0].(grayscale := g)] + rest)
  }

  /** Inside a range the grayscale value is always a `u8`; a non-empty
      range maps its minimum to 0 and its maximum to 255, the other way
      round when inverted, and a zero range maps its only value to 0. */
  lemma IntensityInRange(d: real, lo: real, hi: real, invert: bool)
    requires lo <= d <= hi
    ensures Intensity(d, lo, hi, invert).Some?
    ensures lo < hi && d == lo ==> Intensity(d, lo, hi, invert) == Some(if invert then 255 else 0)
    ensures lo < hi && d == hi ==> Intensity(d, lo, hi, invert) == Some(if invert then 0 else 255)
    ensures lo == hi ==> Intensity(d, lo, hi, invert) == Some(0)
  {
    if lo < hi {
      UnitFraction(d - lo, hi - lo);
      ScaledRoundInRange(if invert then 1.0 - (d - lo) / (hi - lo) else (d - lo) / (hi - lo));
    }
  }

  /** A fraction in [0, 1] scaled by 255 rounds into `u8`, the ends to the
      ends. */
  lemma ScaledRoundInRange(w: real)
    requires 0.0 <= w <= 1.0
    ensures 0 <= RoundHalfAwayFromZero(w * 255.0) < 256
    ensures w == 0.0 ==> RoundHalfAwayFromZero(w * 255.0) == 0
    ensures w == 1.0 ==> RoundHalfAwayFromZero(w * 255.0) == 255
  {
  }

  /** The unit test that fails: a buffered 5.0 in the range [0, 1] scales
      to 1275, outside `u8`. */
  lemma SetPixelIntensityRejects()
    ensures SetPixelIntensity([Pixel(0, 0, 0)], TextureAlgoData(0.0, 1.0, [5.0]), false, 0) == Err(GrayscaleOutOfRange(0))
  {
    assert RoundHalfAwayFromZero(5.0 * 255.0) == 1275;
  }

  /** The unit test that succeeds: 0.5, 0.25, 0.75 and 1.0 in the range
      [0, 1] give 128, 64, 191 and 255, halves rounded up. */
  lemma SetPixelIntensityExample()
    ensures SetPixelIntensity([Pixel(0, 0, 0), Pixel(1, 0, 0), Pixel(0, 1, 0), Pixel(1, 1, 0)],
                              TextureAlgoData(0.0, 1.0, [0.5, 0.25, 0.75, 1.0]), false, 0)
         == Ok([Pixel(0, 0, 128), Pixel(1, 0, 64), Pixel(0, 1, 191), Pixel(1, 1, 255)])
  {
    var data := TextureAlgoData(0.0, 1.0, [0.5, 0.25, 0.75, 1.0]);
    assert RoundHalfAwayFromZero(0.5 * 255.0) == 128;
    assert RoundHalfAwayFromZero(0.25 * 255.0) == 64;
    assert RoundHalfAwayFromZero(0.75 * 255.0) == 191;
    assert RoundHalfAwayFromZero(1.0 * 255.0) == 255;
    assert Intensity(data.distBuffer[3], 0.0, 1.0, false) == Some(255);
    assert Intensity(data.distBuffer[2], 0.0, 1.0, false) == Some(191);
    assert Intensity(data.distBuffer[1], 0.0, 1.0, false) == Some(64);
    assert Intensity(data.distBuffer[0], 0.0, 1.0, false) == Some(128);
    SetPixelIntensityStep(Pixel(1, 1, 0), [], data, false, 3, 255, []);
    assert [Pixel(1, 1, 0).(grayscale := 255)] + [] == [Pixel(1, 1, 255)];
    SetPixelIntensityStep(Pixel(0, 1, 0), [Pixel(1, 1, 0)], data, false, 2, 191, [Pixel(1, 1, 255)]);
    assert [Pixel(0, 1, 0).(grayscale := 191)] + [Pixel(1, 1, 255)] == [Pixel(0, 1, 191), Pixel(1, 1, 255)];
    SetPixelIntensityStep(Pixel(1, 0, 0), [Pixel(0, 1, 0), Pixel(1, 1, 0)], data, false, 1, 64,
                          [Pixel(0, 1, 191), Pixel(1, 1, 255)]);
    assert [Pixel(1, 0, 0).(grayscale := 64)] + [Pixel(0, 1, 191), Pixel(1, 1, 255)]
        == [Pixel(1, 0, 64), Pixel(0, 1, 191), Pixel(1, 1, 255)];
    SetPixelIntensityStep(Pixel(0, 0, 0), [Pixel(1, 0, 0), Pixel(0, 1, 0), Pixel(1, 1, 0)], data, false, 0, 128,
                          [Pixel(1, 0, 64), Pixel(0, 1, 191), Pixel(1, 1, 255)]);
    assert [Pixel(0, 0, 0).(grayscale := 128)] + [Pixel(1, 0, 64), Pixel(0, 1, 191), Pixel(1, 1, 255)]
        == [Pixel(0, 0, 128), Pixel(1, 0, 64), Pixel(0, 1, 191), Pixel(1, 1, 255)];
    assert [Pixel(0, 0, 0)] + [Pixel(1, 0, 0), Pixel(0, 1, 0), Pixel(1, 1, 0)]
        == [Pixel(0, 0, 0), Pixel(1, 0, 0), Pixel(0, 1, 0), Pixel(1, 1, 0)];
  }

  /** One pixel in front of a successful run takes the grayscale value of
      its own buffered value. */
  lemma SetPixelIntensityStep(p: Pixel, ps: seq<Pixel>, data: TextureAlgoData, invert: bool, from: nat, g: Byte, rest: seq<Pixel>)
    requires from + 1 + |ps| <= |data.distBuffer|
    ensures Intensity(data.distBuffer[from], data.minDist, data.maxDist, invert) == Some(g) &&
            SetPixelIntensity(ps, data, invert, from + 1) == Ok(rest) ==>
              SetPixelIntensity([p] + ps, data, invert, from) == Ok([p.(grayscale := g)] + rest)
  {
    assert ([p] + ps)[1..] == ps;
  }

  /** When every buffered value from `from` on is a `u8`, setting the
      intensities succeeds. */
  lemma {:induction false} SetPixelIntensityFits(ps: seq<Pixel>, data: TextureAlgoData, invert: bool, from: nat)
    requires from + |ps| <= |data.distBuffer|
    requires forall i :: from <= i < from + |ps| ==> Intensity(data.distBuffer[i], data.minDist, data.maxDist, invert).Some?
    ensures SetPixelIntensity(ps, data, invert, from).Ok?
    decreases |ps|
  {
    if |ps| != 0 {
      SetPixelIntensityFits(ps[1..], data, invert, from + 1);
    }
  }

  /** The data the sweep leaves for normalisation. With no values the
      infinite seeds stay, but normalisation never reads them; the model
      puts 0.0 in their place. */
  function AlgoData(values: seq<real>): (data: TextureAlgoData)
    ensures data.distBuffer == values
    ensures forall i :: 0 <= i < |values| ==> data.minDist <= values[i] <= data.maxDist
  {
    if |values| == 0 then TextureAlgoData(0.0, 0.0, [])
    else TextureAlgoData(RunningMin(values), RunningMax(values), values)
  }

  /** `generate_texture` given the texture points' neighbour query: sweep
      the image row by row, then set the intensities. */
  function GenerateTexture(config: Config, sqrt: real -> real, nearest: (Pixel, nat) -> seq<Pixel>): (r: Result<seq<Pixel>, TextureError>)
    ensures r.Ok? ==> |r.value| == config.dimensions.width * config.dimensions.height
  {
    var sw :- Sweep(config, sqrt, nearest, RowMajor(config.dimensions.width, config.dimensions.height));
    SetPixelIntensity(sw.pixels, AlgoData(sw.values), config.invertColors, 0)
  }

  /** The pixels come in row-major order: the `k`-th is at location
      `[k % width, k / width]`. */
  lemma GenerateTextureRowMajor(config: Config, sqrt: real -> real, nearest: (Pixel, nat) -> seq<Pixel>, k: nat)
    requires k < config.dimensions.width * config.dimensions.height
    ensures GenerateTexture(config, sqrt, nearest).Ok? ==>
              GenerateTexture(config, sqrt, nearest).value[k].x == k % config.dimensions.width
    ensures GenerateTexture(config, sqrt, nearest).Ok? ==>
              GenerateTexture(config, sqrt, nearest).value[k].y == k / config.dimensions.width
  {
    RowMajorIndex(config.dimensions.width, config.dimensions.height, k);
    SweepSpec(config, sqrt, nearest, RowMajor(config.dimensions.width, config.dimensions.height), k);
  }

  /** Every value lies between the smallest and the largest, so inside
      `generate_texture` the grayscale conversion never fails: generation
      fails exactly when the sweep does. */
  lemma GenerateTextureFailsOnlyInSweep(config: Config, sqrt: real -> real, nearest: (Pixel, nat) -> seq<Pixel>)
    ensures GenerateTexture(config, sqrt, nearest).Ok?
        <==> Sweep(config, sqrt, nearest, RowMajor(config.dimensions.width, config.dimensions.height)).Ok?
  {
    var r := Sweep(config, sqrt, nearest, RowMajor(config.dimensions.width, config.dimensions.height));
    if r.Ok? {
      BufferFits(r.value.values, config.invertColors);
      SetPixelIntensityFits(r.value.pixels, AlgoData(r.value.values), config.invertColors, 0);
    }
  }

  /** Every value of a buffer has a grayscale value within its own range. */
  lemma BufferFits(values: seq<real>, invert: bool)
    ensures forall i :: 0 <= i < |values| ==>
      Intensity(values[i], AlgoData(values).minDist, AlgoData(values).maxDist, invert).Some?
  {
    forall i | 0 <= i < |values|
      ensures Intensity(values[i], AlgoData(values).minDist, AlgoData(values).maxDist, invert).Some?
    {
      IntensityInRange(values[i], AlgoData(values).minDist, AlgoData(values).maxDist, invert);
    }
  }

  /** The picture uses the whole grayscale: when the values are not all
      equal, the smallest becomes black and the largest white, the other
      way round when the colours are inverted. */
  lemma GenerateTextureHitsEnds(config: Config, sqrt: real -> real, nearest: (Pixel, nat) -> seq<Pixel>)
    ensures Sweep(config, sqrt, nearest, RowMajor(config.dimensions.width, config.dimensions.height)).Ok? &&
            AlgoData(Sweep(config, sqrt, nearest, RowMajor(config.dimensions.width, config.dimensions.height)).value.values).minDist
            < AlgoData(Sweep(config, sqrt, nearest, RowMajor(config.dimensions.width, config.dimensions.height)).value.values).maxDist
        ==> && GenerateTexture(config, sqrt, nearest).Ok?
            && (exists k :: 0 <= k < |GenerateTexture(config, sqrt, nearest).value| && GenerateTexture(config, sqrt, nearest).value[k].grayscale == 0)
            && (exists k :: 0 <= k < |GenerateTexture(config, sqrt, nearest).value| && GenerateTexture(config, sqrt, nearest).value[k].grayscale == 255)
  {
    var sweep := Sweep(config, sqrt, nearest, RowMajor(config.dimensions.width, config.dimensions.height));
    if sweep.Ok? && AlgoData(sweep.value.values).minDist < AlgoData(sweep.value.values).maxDist {
      GenerateTextureFailsOnlyInSweep(config, sqrt, nearest);
      var values := sweep.value.values;
      var lo :| 0 <= lo < |values| && values[lo] == RunningMin(values);
      var hi :| 0 <= hi < |values| && values[hi] == RunningMax(values);
      IntensityInRange(values[lo], RunningMin(values), RunningMax(values), config.invertColors);
      IntensityInRange(values[hi], RunningMin(values), RunningMax(values), config.invertColors);
      if config.invertColors {
        assert GenerateTexture(config, sqrt, nearest).value[hi].grayscale == 0;
        assert GenerateTexture(config, sqrt, nearest).value[lo].grayscale == 255;
      } else {
        assert GenerateTexture(config, sqrt, nearest).value[lo].grayscale == 0;
        assert GenerateTexture(config, sqrt, nearest).value[hi].grayscale == 255;
      }
    }
  }


  /** Generation fails with the error of the first pixel, in row-major
      order, that fails. */
  lemma GenerateTextureFirstError(config: Config, sqrt: real -> real, nearest: (Pixel, nat) -> seq<Pixel>)
    ensures GenerateTexture(config, sqrt, nearest).Err? ==>
              exists k :: 0 <= k < config.dimensions.width * config.dimensions.height &&
                (forall j :: 0 <= j < k ==>
                   CellValue(config, sqrt, nearest, RowMajor(config.dimensions.width, config.dimensions.height)[j]).Ok?) &&
                CellValue(config, sqrt, nearest, RowMajor(config.dimensions.width, config.dimensions.height)[k])
                  == Err(GenerateTexture(config, sqrt, nearest).error)
  {
    GenerateTextureFailsOnlyInSweep(config, sqrt, nearest);
    SweepFails(config, sqrt, nearest, RowMajor(config.dimensions.width, config.dimensions.height));
  }

  /** The conversions to `i32` fail generation only on an image whose
      width or height exceeds `i32::MAX + 1`, and on such an image (with at
      least one pixel) generation always fails. */
  lemma GenerateTextureOverflow(config: Config, sqrt: real -> real, nearest: (Pixel, nat) -> seq<Pixel>)
    ensures config.dimensions.width <= I32Max + 1 && config.dimensions.height <= I32Max + 1 ==>
              GenerateTexture(config, sqrt, nearest) != Err(CoordinateOverflow)
    ensures 0 < config.dimensions.width && 0 < config.dimensions.height &&
            (I32Max + 1 < config.dimensions.width || I32Max + 1 < config.dimensions.height) ==>
              GenerateTexture(config, sqrt, nearest).Err?
  {
    GenerateTextureFirstError(config, sqrt, nearest);
    GenerateTextureFailsOnlyInSweep(config, sqrt, nearest);
    SweepFails(config, sqrt, nearest, RowMajor(config.dimensions.width, config.dimensions.height));
    if config.dimensions.width <= I32Max + 1 && config.dimensions.height <= I32Max + 1 &&
       GenerateTexture(config, sqrt, nearest).Err?
    {
      var k :| 0 <= k < config.dimensions.width * config.dimensions.height &&
        CellValue(config, sqrt, nearest, RowMajor(config.dimensions.width, config.dimensions.height)[k])
          == Err(GenerateTexture(config, sqrt, nearest).error);
      RowMajorBounds(config.dimensions.width, config.dimensions.height, k);
    }
    if 0 < config.dimensions.width && 0 < config.dimensions.height &&
       (I32Max + 1 < config.dimensions.width || I32Max + 1 < config.dimensions.height)
    {
      var k := WideCell(config.dimensions.width, config.dimensions.height);
      assert CellValue(config, sqrt, nearest, RowMajor(config.dimensions.width, config.dimensions.height)[k]).Err?;
    }
  }

  /** The index of a cell whose column or row does not fit an `i32`, on an
      image wider or taller than `i32::MAX + 1`. */
  function WideCell(width: nat, height: nat): (k: nat)
    requires 0 < width && 0 < height
    requires I32Max + 1 < width || I32Max + 1 < height
    ensures k < width * height
    ensures RowMajor(width, height)[k].col > I32Max || RowMajor(width, height)[k].row > I32Max
  {
    assert width * height == width * (height - 1) + width;
    if I32Max + 1 < width then
      RowMajorIndex(width, height, width - 1);
      DivModUnique(width - 1, width, 0, width - 1);
      width - 1
    else
      RowMajorIndex(width, height, (height - 1) * width);
      DivModUnique((height - 1) * width, width, height - 1, 0);
      (height - 1) * width
  }

  /** `nearests(&pixel, k)` returns at most `k` items, so asking for no
      neighbours leaves every pixel without any: each pixel fails, and so
      does generation of a non-empty image, at location [0, 0]. */
  lemma NoNeighborsRequested(config: Config, sqrt: real -> real, nearest: (Pixel, nat) -> seq<Pixel>, p: Pixel)
    requires forall q: Pixel, k: nat :: |nearest(q, k)| <= k
    requires config.numNeighbors == 0
    ensures PixelValue(config, sqrt, nearest, p) == Err(NoNeighbors(p.x, p.y))
    ensures 0 < config.dimensions.width && 0 < config.dimensions.height ==>
              GenerateTexture(config, sqrt, nearest) == Err(NoNeighbors(0, 0))
  {
    assert |nearest(p, 0)| <= 0;
    assert |nearest(Pixel(0, 0, 0), 0)| <= 0;
    if 0 < config.dimensions.width && 0 < config.dimensions.height {
      GenerateTextureWithoutPoints(config, sqrt, nearest);
    }
  }

  /** The unit test with no texture points: when the query finds nothing
      near the first pixel, generation fails naming location [0, 0]. */
  lemma GenerateTextureWithoutPoints(config: Config, sqrt: real -> real, nearest: (Pixel, nat) -> seq<Pixel>)
    requires 0 < config.dimensions.width && 0 < config.dimensions.height
    requires |nearest(Pixel(0, 0, 0), config.numNeighbors)| == 0
    ensures GenerateTexture(config, sqrt, nearest) == Err(NoNeighbors(0, 0))
  {
    RowMajorIndex(config.dimensions.width, config.dimensions.height, 0);
  }
}

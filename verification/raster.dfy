/** The row-major sweep both texture pipelines make over an image: rows top
    to bottom, each row left to right. */
module Raster {

  /** A position in the image: its row and its column. */
  datatype Cell = Cell(row: nat, col: nat)

  /** The cells of row `i`, columns `0` to `j - 1`. */
  function Row(i: nat, j: nat): (cs: seq<Cell>)
    ensures |cs| == j
    ensures forall c :: 0 <= c < j ==> cs[c] == Cell(i, c)
  {
    seq(j, c requires 0 <= c => Cell(i, c))
  }

  /** The cells of rows `0` to `height - 1` of an image `width` wide, in
      the order the nested loops visit them. */
  function RowMajor(width: nat, height: nat): (cs: seq<Cell>)
    ensures |cs| == width * height
    decreases height
  {
    if height == 0 then [] else RowMajor(width, height - 1) + Row(height - 1, width)
  }

  /** A positive multiple of `w` is at least `w`, a non-positive one at
      most 0. */
  lemma MulAtLeast(a: int, w: int)
    requires 0 < w
    ensures 1 <= a ==> a * w >= w
    ensures a <= 0 ==> a * w <= 0
  {
  }

  /** One row more is `width` cells more. */
  lemma MulPred(width: nat, height: nat)
    requires 0 < width * height
    ensures 0 < height && width * height == width * (height - 1) + width
  {
  }

  /** Euclidean division by a positive divisor is unique. */
  lemma DivModUnique(k: int, w: int, q: int, c: int)
    requires 0 < w && 0 <= c < w && k == q * w + c
    ensures k / w == q && k % w == c
  {
    assert k == (k / w) * w + k % w;
    assert (q - k / w) * w == q * w - (k / w) * w;
    MulAtLeast(q - k / w, w);
    MulAtLeast(k / w - q, w);
  }

  /** The sweep is row-major: the `k`-th cell is at row `k / width` and
      column `k % width`. */
  lemma {:induction false} RowMajorIndex(width: nat, height: nat, k: nat)
    requires k < width * height
    ensures RowMajor(width, height)[k] == Cell(k / width, k % width)
    decreases height
  {
    MulPred(width, height);
    if k < width * (height - 1) {
      RowMajorIndex(width, height - 1, k);
    } else {
      assert RowMajor(width, height)[k] == Row(height - 1, width)[k - width * (height - 1)];
      DivModUnique(k, width, height - 1, k - width * (height - 1));
    }
  }

  /** Every cell of the sweep lies inside the image. */
  lemma {:induction false} RowMajorBounds(width: nat, height: nat, k: nat)
    requires k < width * height
    ensures RowMajor(width, height)[k].row < height && RowMajor(width, height)[k].col < width
    decreases height
  {
    MulPred(width, height);
    if k < width * (height - 1) {
      RowMajorBounds(width, height - 1, k);
    } else {
      assert RowMajor(width, height)[k] == Row(height - 1, width)[k - width * (height - 1)];
    }
  }
}

# Cellular textures: k-d tree and texture pipeline in Dafny

This project models the core of a generator of grayscale cellular
("Worley") noise textures. The generator scatters seed points on a canvas and
indexes them in a spatial tree. For every pixel it measures the distance to the
nearest seed points, combines those distances into one value, and normalises
the values of all pixels into grayscale intensities.

Three pieces of the repository are modelled:

- **The C++ two-dimensional tree** (`TwoDTree`).
  - `Geometry` holds the points, axes and squared distances.
  - `AxisSort` is the axis sort.
  - `SpatialIndex` holds the median split and the construction.
  - `PointHeap` is the bounded max-heap keyed on squared distance.
  - `NearestSearch` is the n-nearest-neighbour search as written.
  - `KdCorrected` holds the counterexamples for the two defects found in the tree, and the corrected construction and search.
- **The C++ texture pipeline** (`Texture`): planar and wrapped distances, the distance combinator and its fold, the row-major sweep, min–max normalisation with inversion, and the distance-operation parser.
- **The Rust texture pipeline** (`CellularTextures`): the wrapped distance, the unseeded reduction of neighbour distances, the sweep, and the grayscale conversion with its failure.

Shared pieces: `Outcome` (Result and Option), `Raster` (row-major cell order) and `RealMath` (sums, products, unit fractions).

Arithmetic is exact: coordinates and distances are `real`. The square root is a
parameter, and lemmas that need it assume the predicate `IsSqrt`. Seed
generation is left out, and the neighbour queries the pipelines call
become function parameters:

- `Texture.cpp` calls the `knearest` query of an index API that is not part of this model.
- `lib.rs` calls the `nearests` query of the `kd_tree` crate.

The tree construction is modelled in value form. `ConstructTree(pts, depth)`
takes the contents of the inclusive range `[l, r]` and runs the median search
on it with `l = 0` and `r = |pts| - 1`. In the source, every call only reorders
inside its own range, and the two recursive calls use disjoint ranges. Sorting
`[0, |pts| - 1)` of the slice is therefore the same reordering as sorting
`[l, r)` of the whole vector.

## Model

| member | source | states |
|---|---|---|
| Geometry.AxisOf | include/TwoDTree.h:34-39 | The axis at depth `d` has index `d % 2` and is X exactly for index 0 |
| Geometry.AxisAlternates | include/TwoDTree.h:34-39 | Successive depths alternate axes, the pattern repeats every 2 levels, and depth 0 splits on x |
| Geometry.DistanceSquared | src/TwoDTree.cpp:20-24 | The squared distance is non-negative and is zero exactly when the two points are equal |
| Geometry.DistanceSquaredSymmetric | src/TwoDTree.cpp:20-24 | The squared distance does not depend on argument order |
| Geometry.AxisOffsetBelowDistance | src/TwoDTree.cpp:20-24 | The square of the offset on one axis never exceeds the squared distance |
| Geometry.WrapDelta | src/Texture.cpp:36-43 | The wrapped axis delta equals the raw one exactly when the raw one is at most half the dimension. It never exceeds the raw delta, and it is strictly shorter when it wraps. For coordinates inside `[0, dim]` it lies in `[0, dim/2]` |
| Geometry.WrappedNotLonger | src/Texture.cpp:28-45 | The squared wrapped distance is at most the squared planar distance, and the two are equal when neither axis delta exceeds half its dimension |
| AxisSort.SortPermutes | src/TwoDTree.cpp:36-38 | Sorting along an axis yields a permutation of its input |
| AxisSort.SortSorted | src/TwoDTree.cpp:27-32 | Sorting leaves the sequence ascending under the `a.x < b.x` / `a.y < b.y` comparators |
| AxisSort.SortRangeSpec | src/TwoDTree.cpp:36-38 | Sorting the half-open range `[l, r)` keeps every index outside it, permutes the whole vector, and leaves the range ascending |
| SpatialIndex.FindAxisMedian | src/TwoDTree.cpp:26-43 | The median index is `(l+r)/2`: it lies in `[l, r]` and is below `r` for a non-empty range |
| SpatialIndex.FindAxisMedianSpec | src/TwoDTree.cpp:26-43 | The median search changes only `points[l..r)`, permutes the points, and sorts that range on the depth's axis |
| SpatialIndex.ConstructTree | src/TwoDTree.cpp:45-49 | Construction gives no node exactly when the range is empty |
| SpatialIndex.SplitAtStores | src/TwoDTree.cpp:51-56 | The node built around the median of any reordering of the range holds exactly the range's points |
| SpatialIndex.ConstructTreeStores | src/TwoDTree.cpp:45-57 | The tree built from a range holds exactly the range's multiset of points |
| SpatialIndex.SplitAtSize | src/TwoDTree.cpp:51-54 | The left child holds the `median - l` points below the median, and the right child holds the rest |
| SpatialIndex.ConstructTreeBalanced | src/TwoDTree.cpp:45-57 | A range of fewer than `2^k` points gives a tree of height at most `k` |
| SpatialIndex.ConstructTreeLeftBounded | src/TwoDTree.cpp:36-38 | No left-subtree point exceeds its node on the node's split axis |
| SpatialIndex.MedianBelowSortedRight | src/TwoDTree.cpp:36-38 | What the half-open sort does guarantee on the right: every point after the median, up to but not including the last index `r` of the range, lies at or above the median on the depth's axis |
| SpatialIndex.Build | src/TwoDTree.cpp:93-99 | The constructor, given a non-empty vector, yields a non-null root |
| SpatialIndex.BuildStoresAll | src/TwoDTree.cpp:93-99 | The root holds every input point exactly once |
| SpatialIndex.BuildBalanced | src/TwoDTree.cpp:93-99 | Fewer than `2^k` points give a tree of height at most `k` |
| SpatialIndex.BuildLeftBounded | src/TwoDTree.cpp:93-99 | The whole tree satisfies the left-side ordering |
| PointHeap.TopIsMax | include/TwoDTree.h:11-17 | With the `a.first < b.first` comparator, the top of the queue has the largest squared distance |
| PointHeap.PushAdds | include/TwoDTree.h:30-32 | Pushing adds exactly the pushed pair |
| PointHeap.PushKeepsHeap | include/TwoDTree.h:30-32 | Pushing keeps the max-heap order |
| PointHeap.PushTop | include/TwoDTree.h:30-32 | After a push, the top has the larger of the two distances. It is the pushed pair itself unless that pair orders below the old top, which then stays on top. A tie goes to the pushed pair, an order the standard library leaves open |
| PointHeap.Pop | include/TwoDTree.h:30-32 | Popping removes exactly the top and one element |
| PointHeap.PopKeepsHeap | include/TwoDTree.h:30-32 | Popping keeps the heap order, and nothing left exceeds the removed top |
| NearestSearch.Offer | src/TwoDTree.cpp:66-74 | A visited node grows the heap while it holds fewer than `n` pairs and leaves its size unchanged once it holds `n` |
| NearestSearch.OfferKeepsNearest | src/TwoDTree.cpp:66-74 | After a visit, the heap still holds the `n` nearest of the points seen so far, measured correctly, and its top bounds every point left out |
| NearestSearch.Search | src/TwoDTree.cpp:59-91 | The heap size equals `min(n, heap size before + nodes visited)`. A non-null node is itself visited first. The threaded `min_dist` is the heap top after every visit |
| NearestSearch.SearchKeepsNearest | src/TwoDTree.cpp:59-91 | The search as written leaves the `n` nearest points among those already seen and those it visits |
| NearestSearch.SearchVisitsWithin | src/TwoDTree.cpp:59-91 | The search visits only points of the tree, each at most as often as the tree holds it |
| NearestSearch.Drain | src/TwoDTree.cpp:111-116 | Popping the queue into a vector gives the heap's points in heap order, top first |
| NearestSearch.HeapFarthestFirst | src/TwoDTree.cpp:107-116 | Points drained from a heap of measured pairs come farthest first |
| NearestSearch.FindNNearestNeighbors | src/TwoDTree.cpp:101-117 | The query fails exactly for `n == 0`. Otherwise the result is a sub-multiset of the tree, non-empty and at most `n` long for a non-empty tree, ordered farthest first, and it holds the `n` nearest of the visited points |
| KdCorrected.ConstructTreeNotRightBounded | src/TwoDTree.cpp:36-38 | As written, sorting `[l, r)` leaves point `r` out of the sort, so a right child can lie below its node on the split axis |
| KdCorrected.BuildNotRightBounded | src/TwoDTree.cpp:93-99 | A four-point vector whose built tree breaks the right-side ordering |
| KdCorrected.FindAxisMedianInclusiveSplits | src/TwoDTree.cpp:26-43 | Sorting the inclusive range puts every point before the median at or below it, and every point after it at or above it |
| KdCorrected.FixedBuildCorrect | src/TwoDTree.cpp:93-99 | With the inclusive sort, the tree holds every input point and is ordered on both sides at every depth |
| KdCorrected.SearchMissesNearest | src/TwoDTree.cpp:76-88 | As written, the pruning compares a linear offset with a squared distance. For three points, a query with `n = 1` returns a point that is not the nearest |
| KdCorrected.FixedSearch | src/TwoDTree.cpp:59-91 | The corrected search grows the heap by one per node it visits until the heap holds `n` pairs. An empty subtree leaves the heap as it was and visits and prunes nothing |
| KdCorrected.FixedSearchCovers | src/TwoDTree.cpp:59-91 | Every tree point is either visited or in a subtree that was pruned |
| KdCorrected.PruneKeepsPruned | src/TwoDTree.cpp:79-89 | Pruning the far side when the squared axis offset exceeds the full heap's top skips only points no nearer than that top |
| KdCorrected.FixedSearchFindsNearest | src/TwoDTree.cpp:59-91 | On an ordered tree, the corrected search keeps the `n` points of the whole tree nearest to the query |
| KdCorrected.FixedSearchFindsMissed | src/TwoDTree.cpp:76-88 | The corrected search returns the nearest point that the search as written misses |
| KdCorrected.FixedFindNNearestNeighbors | src/TwoDTree.cpp:101-117 | The corrected query fails exactly for `n == 0`, otherwise returns the `n` nearest points of the whole tree, farthest first |
| Raster.RowMajorIndex | src/Texture.cpp:103-105 | The `k`-th cell of a row-major sweep has row `k / width` and column `k % width` |
| Raster.RowMajorBounds | src/Texture.cpp:103-105 | Every cell of a row-major sweep lies inside the image |
| Texture.Distance | src/Texture.cpp:28-32 | The planar distance is the non-negative root of the squared distance |
| Texture.DistanceWrapped | src/Texture.cpp:34-45 | The wrapped distance is the non-negative root of the squared wrapped distance |
| Texture.WrappedNotFarther | src/Texture.cpp:28-45 | The wrapped distance never exceeds the planar one, and equals it when neither delta wraps |
| Texture.ApplyOp | src/Texture.cpp:47-58 | Subtract never gives a negative value, and no operation gives one from non-negative operands |
| Texture.SubtractSymmetric | src/Texture.cpp:51-52 | Subtract is symmetric and is zero exactly for equal operands |
| Texture.Fold | src/Texture.cpp:73-84 | The fold of non-negative distances is non-negative |
| Texture.FoldAddIsSum | src/Texture.cpp:73-84 | With Add, the fold seeded with 1.0 is one plus the sum of the distances |
| Texture.FoldMultiplyIsProduct | src/Texture.cpp:73-84 | With Multiply, the fold is the product of the distances |
| Texture.FoldSingle | src/Texture.cpp:73-84 | One neighbour gives `ApplyOp(1.0, d)`, which is `d` itself under Multiply |
| Texture.FoldSubtractPair | src/Texture.cpp:47-84 | With Subtract, the chain starts from the seed 1.0: two neighbours give `fabs(fabs(1 - d1) - d2)` |
| Texture.TiledNotFarther | src/Texture.cpp:76-81 | A tiled configuration never measures a neighbour farther than an untiled one |
| Texture.DistToNearestKPoints | src/Texture.cpp:60-85 | The pixel fails, naming its row and column, exactly when fewer than `num_neighbors` points are found. Otherwise, with a true square root, its value is non-negative |
| Texture.GridRowMajor | src/Texture.cpp:103-105 | The `k`-th pixel pushed has row `k / width` and column `k % width` |
| Texture.PixelValue | src/Texture.cpp:107 | A pixel fails exactly when the query returns too few points for it |
| Texture.SweepSpec | src/Texture.cpp:103-112 | The sweep succeeds exactly when every pixel does. Each recorded value is that pixel's value. A failure is the failure of the first pixel, in sweep order, that fails, and every pixel before it succeeds |
| Texture.MinSoFar | src/Texture.cpp:101-109 | The running minimum, seeded with the largest double, is below every value and is either the seed or one of the values |
| Texture.MaxSoFar | src/Texture.cpp:102-110 | The running maximum, seeded with 0.0, is above every value and is either the seed or one of the values |
| Texture.ColorSpec | src/Texture.cpp:114-118 | A value in a non-empty range gets a colour in `[0, 1]`. The minimum maps to 0 and the maximum to 1, and inversion swaps them, in both directions |
| Texture.ColorMonotone | src/Texture.cpp:114-118 | Normalisation keeps the order of values, and inversion reverses it |
| Texture.Colorize | src/Texture.cpp:114-118 | Normalisation keeps every pixel's row and column |
| Texture.CreateTexture | src/Texture.cpp:87-121 | A texture has `width * height` pixels |
| Texture.CreateTextureRowMajor | src/Texture.cpp:103-112 | The `k`-th pixel of a texture has row `k / width` and column `k % width` |
| Texture.CreateTextureColorsInRange | src/Texture.cpp:114-118 | Every colour of a texture lies in `[0, 1]` |
| Texture.CreateTextureFails | src/Texture.cpp:87-121 | A neighbour-shortage failure is that of the first pixel of the grid, in row-major order, whose query came back short |
| Texture.CreateTextureColors | src/Texture.cpp:101-118 | A texture exists exactly when the sweep succeeds and its values are not all equal. Then the `k`-th pixel's colour is its own value normalised between the running minimum and maximum, inverted when asked |
| Texture.CreateTextureHitsEnds | src/Texture.cpp:101-118 | For a non-empty image whose values stay within the largest double and are not all equal, with a true square root, the texture has a pixel of colour 0 and a pixel of colour 1 |
| Texture.ColorizeHitsEnds | src/Texture.cpp:101-118 | When the values are non-negative doubles and not all equal, some pixel gets colour 0 and some gets colour 1, swapped when inverted |
| Texture.ReadDistOpRoundTrip | src/Texture.cpp:138-151 | Reading an operation's own token gives that operation. Reading succeeds exactly for the three tokens, and then the operation read prints back as the token |
| Texture.ReadDistOp | src/Texture.cpp:138-151 | A failed read leaves the operation unchanged |
| CellularTextures.WrappedDistance | src/lib.rs:120-131 | The wrapped distance is the non-negative root of the sum of the squared wrapped axis deltas |
| CellularTextures.WrappedDistanceExamples | src/lib.rs:274-290 | (0,0)–(3,4) in a 10×10 image is 5, and (0,0)–(9,9) is √2 |
| CellularTextures.Reduce | src/lib.rs:219-228 | The reduction gives no value exactly when there are no neighbour distances |
| CellularTextures.ReduceSingle | src/lib.rs:219-228 | One neighbour gives its own distance |
| CellularTextures.ReduceAddIsSum | src/lib.rs:223-224 | With Add, the reduction is the sum |
| CellularTextures.ReduceSubtractIsDifference | src/lib.rs:223-225 | With Subtract, the reduction is the first distance minus the sum of the rest |
| CellularTextures.ReduceMultiplyIsProduct | src/lib.rs:223-226 | With Multiply, the reduction is the product |
| CellularTextures.ReduceDivideIsQuotient | src/lib.rs:223-227 | With Divide, the reduction fails exactly when a later distance is zero. Otherwise it is the first distance divided by the product of the rest |
| CellularTextures.PixelValue | src/lib.rs:219-240 | A pixel fails with "no neighbours", naming its location, exactly when the neighbour query returns nothing |
| CellularTextures.CellValue | src/lib.rs:218-240 | A cell fails with the `i32` conversion error exactly when its column or row exceeds `i32::MAX` |
| CellularTextures.SweepSpec | src/lib.rs:216-233 | The `k`-th swept pixel is at `[col, row]` of the `k`-th cell, and its buffered value is that pixel's value |
| CellularTextures.SweepFirstError | src/lib.rs:216-240 | When every cell before the `k`-th succeeds and the `k`-th fails, the sweep returns the `k`-th cell's error |
| CellularTextures.SweepFails | src/lib.rs:216-240 | The sweep succeeds exactly when every cell does. A failure is the error of the first cell that fails |
| CellularTextures.SweepFailsWithoutNeighbors | src/lib.rs:234-240 | Any pixel whose query finds nothing makes the sweep fail. When every cell before it succeeds, the error names that pixel's location |
| CellularTextures.RunningMin | src/lib.rs:230 | The running `f64::min` of a non-empty buffer is at most every value and is one of them |
| CellularTextures.RunningMax | src/lib.rs:231 | The running `f64::max` of a non-empty buffer is at least every value and is one of them |
| CellularTextures.RoundHalfAwayFromZero | src/lib.rs:193 | `f64::round` is within one half of its argument, and a tie goes away from zero |
| CellularTextures.SetPixelIntensity | src/lib.rs:179-198 | Each pixel keeps its location and takes the grayscale of its buffered value. A failure is a value outside `u8`, at an index inside the run |
| CellularTextures.IntensityInRange | src/lib.rs:184-194 | A value inside the range always converts. In a non-empty range the minimum gives 0 and the maximum 255, swapped when inverted. In a zero range the value gives 0 |
| CellularTextures.SetPixelIntensityFits | src/lib.rs:184-197 | When every buffered value converts, setting the intensities succeeds |
| CellularTextures.SetPixelIntensityRejects | src/lib.rs:313-324 | Buffer `[5.0]` in the range `[0, 1]` fails at index 0 |
| CellularTextures.SetPixelIntensityExample | src/lib.rs:326-344 | Buffer `[0.5, 0.25, 0.75, 1.0]` in the range `[0, 1]` gives 128, 64, 191 and 255 |
| CellularTextures.AlgoData | src/lib.rs:143-157 | Every buffered value lies between the recorded minimum and maximum |
| CellularTextures.GenerateTexture | src/lib.rs:211-247 | A generated texture has `width * height` pixels |
| CellularTextures.GenerateTextureRowMajor | src/lib.rs:216-218 | The `k`-th pixel is at location `[k % width, k / width]` |
| CellularTextures.GenerateTextureFailsOnlyInSweep | src/lib.rs:230-246 | Generation succeeds exactly when the sweep does, so the grayscale conversion never fails inside it |
| CellularTextures.GenerateTextureFirstError | src/lib.rs:216-240 | Generation fails with the error of the first pixel, in row-major order, that fails |
| CellularTextures.GenerateTextureOverflow | src/lib.rs:216-218 | The `i32` conversions never fail on an image at most `i32::MAX + 1` wide and high. On a non-empty image wider or taller than that, generation always fails |
| CellularTextures.GenerateTextureHitsEnds | src/lib.rs:230-246 | When the values are not all equal, the picture has a black pixel and a white pixel |
| CellularTextures.GenerateTextureWithoutPoints | src/lib.rs:346-357 | When the neighbour query finds nothing near pixel [0, 0] of a non-empty image, generation fails naming [0, 0] |
| CellularTextures.NoNeighborsRequested | src/lib.rs:219-240 | When the query returns at most `k` items for `k` requested, as `nearests` does, `num_neighbors == 0` makes every pixel fail with "no neighbours", and generation of a non-empty image fails at [0, 0] |

## Left out

- Floating point. Coordinates and distances are exact reals. The C++ `float` coordinates, the `sqrtf` narrowing in the planar distance, and IEEE infinities and NaNs are not modelled. The square root is a parameter, constrained only where a lemma assumes `IsSqrt`.
- Random seed points (`GetRandNum`, `generate_search_tree`). The points, or the queries over them, are inputs. So the number of texture points in `CellularTextures.Config` is never read. On an image of zero width or height with texture points requested, `generate_search_tree` draws from the empty range `0..0` (src/lib.rs:168-169), which panics, so `generate_texture` never returns. The model does not model that panic and returns the empty texture.
- Image and file output: `WriteToPng`, `run`, and GIF assembly.
- The neighbour index used by the pipelines. `Texture.cpp` calls an `add`/`build`/`knearest` index API that no shown header declares. `lib.rs` calls the `kd_tree` crate. Both queries are function parameters.
- The tie order of `std::sort` and of `std::priority_queue`. The model fixes one order; the source leaves it unspecified.
- SpatialIndex.Build: requires a non-empty vector. On an empty vector the source reads `points[0]`, which is undefined behaviour.
- NearestSearch.FindNNearestNeighbors: the search as written does not promise the `n` nearest points of the whole tree, only the `n` nearest of those it visited (see Findings).
- Texture.CreateTexture: when every pixel has the same value, the source divides 0 by 0 and emits NaN colours. The model returns an error instead.
- CellularTextures.PixelValue: with Divide, a zero neighbour distance gives an infinity or a NaN in `f64`. A NaN (0/0) never reaches the range, because `f64::min` and `f64::max` (src/lib.rs:230-231) return the other argument. It stays in the distance buffer, and the cast at src/lib.rs:193 turns it into grayscale 0. An infinity (x/0 with x non-zero) becomes the maximum. Then every finite pixel gets grayscale 0 (255 when inverted), and the infinite ones get 0 through the same NaN cast. In both cases generation succeeds. The model reports a division-by-zero error instead.
- CellularTextures.Intensity: a zero range follows IEEE arithmetic. The minimum gives 0/0 = NaN, which `as i64` turns into 0. Any other value gives an infinity, which is rejected. The NaN and the infinity themselves are not modelled.
- CellularTextures.AlgoData: with an empty buffer, the infinite seeds of `TextureAlgoData::default` are never read, and the model puts 0.0 in their place.
- CellularTextures.SetPixelIntensity: the Rust error is a message string. The model's error carries the failing index instead.
- The `ApplyOp` default branch that throws is unreachable, because the operation type has exactly three values.
- The `GetDimVal` throw for an axis other than x or y is unreachable, because the axis type has exactly two values. `Geometry.DimVal` is a plain coordinate selector; what it means for the search is stated by `Geometry.AxisOffsetBelowDistance`.
- `operator>>` reads one whitespace-delimited token from a stream. The model starts from the token already extracted.
- The C++ texture queries the tree at (row, col) but wraps the first coordinate with the width and the second with the height. The model reproduces this as written.
- `Config`'s `Display`, `output_file`, `main.rs`, and the benchmark harnesses.

## Findings

| source | as written | input that shows it | evidently intended | confidence | as-written member | corrected member |
|---|---|---|---|---|---|---|
| src/TwoDTree.cpp:36-38 | `std::sort` covers `[l, r)` while `ConstructTree` treats `r` as inclusive, so the point at index `r` is never sorted | points (0,1), (1,0), (2,0), (3,0): the built tree has a right child below its node on the split axis | sort the inclusive range `[l, r]`, so that every subtree is ordered on both sides | not executed | KdCorrected.BuildNotRightBounded | KdCorrected.FixedBuildCorrect |
| src/TwoDTree.cpp:76-88 | the far side is pruned by comparing the linear axis offset with `min_dist`, which is a squared distance | points (-1,0), (0.3,0.4), (0.35,0), query (0,0), `n = 1`: returns (0.3,0.4) at squared distance 0.25 and misses (0.35,0) at 0.1225 | compare the squared axis offset with the top of a full heap | not executed | KdCorrected.SearchMissesNearest | KdCorrected.FixedFindNNearestNeighbors |

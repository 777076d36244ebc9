# artistic: edge detection, quadtree seeds and nearest-seed stylization

`artistic` turns a picture into a flat-colour mosaic in three stages, all in `main.c`:

1. **Edge detection** (`detect_edges`, `convolute`). Every interior pixel gets the two Sobel
   kernels applied to the channel sums `r+g+b` of its 3x3 window. The truncated gradient
   magnitude `(int)sqrt(Gx*Gx + Gy*Gy)` is compared with a threshold. The cell is written
   `BLACK` when the magnitude is below it and `WHITE` otherwise. The one-pixel border is never
   written.
2. **Seed placement** (`find_seeds`, `find_seeds_step`). This is a quadtree over the edge map.
   - A rectangle whose cells all share the red channel of its top-left cell receives one seed,
     at its integer midpoint.
   - Any other rectangle is cut into four quadrants that skip the middle column and the middle
     row. They are visited top-left, top-right, bottom-left, bottom-right.
   - One budget (`max_seeds`) is shared by the whole placement, and `seeds_found` counts the
     seeds placed. A quadrant is entered only while there is room left.
3. **Stylization** (`stylize`). Every output pixel takes the source colour at the seed nearest
   to it, by squared Euclidean distance. Ties go to the earliest seed, because a later seed
   replaces the current one only when it is strictly nearer.

The Dafny model has four modules:

- `Pixels` (`pixels.dfy`): the `Rgb` and `Point` records, the `BLACK`/`WHITE` constants, the
  channel sum, and a few arithmetic facts the stages share.
- `EdgeDetection` (`edges.dfy`):
  - `Convolute` and `DetectEdges` are methods with the source's loops. They are proved against
    the specification functions `WeightedSum` and `EdgeCell`.
  - The floating-point square root is specified by the exact integer square root `ISqrt`.
    `ISqrtBelow` shows that the threshold test is the same as comparing `Gx*Gx + Gy*Gy` with
    `threshold * threshold`.
- `SeedPlacement` (`seeds.dfy`):
  - The class `SeedPlacer` holds the seed array, the counter and the budget. Its recursive
    `FindSeedsStep` is proved against the function `Seeds`, which gives the unbudgeted placement
    order.
  - A step with room for `n` more seeds appends exactly the first `n` seeds of that order.
    Over several calls, the shared budget therefore cuts one fixed sequence into a prefix.
  - A ghost field `found` mirrors the placed seeds. A ghost parameter `red` is the red channel
    of the edge map as a value.
- `Stylization` (`stylize.dfy`):
  - `NearestSeed` (the inner loop) and `Stylize` (the two outer loops) are methods with the
    source's loops.
  - They are proved against `Nearest`, the index of the first nearest seed, and `Chosen`, the
    seed at that index.

Images are `array2<Rgb>` indexed `[row, column]`: `Length0` is the height and `Length1` is the
width. Integers are mathematical. The only place where 32-bit `int` range matters is the
starting distance `INT32_MAX` of the stylizer. There, `DistanceFitsInt32` shows that every
distance inside an image of side at most 32768 stays below it.

## Model

| member | source | states |
|---|---|---|
| Pixels.Intensity | main.c:303-307 | the channel sum that a kernel weighs lies in 0..765; it is 0 exactly for BLACK and 765 exactly for WHITE |
| EdgeDetection.Convolute | main.c:300-310 | the accumulated result is the sum over the first `size` positions of (r+g+b)·kernel[i] |
| EdgeDetection.ISqrt | main.c:288 | the result r is the truncated square root: r·r ≤ n < (r+1)·(r+1) |
| EdgeDetection.ISqrtBelow | main.c:288-289 | floor(sqrt(n)) < t holds exactly when t > 0 and n < t·t, so the threshold test needs no float |
| EdgeDetection.Neighbors | main.c:274-284 | the window has nine pixels, and pixel i is the one at row offset i/3-1 and column offset i%3-1 |
| EdgeDetection.DetectEdges | main.c:255-292 | every interior cell of `out` is BLACK when the truncated magnitude is below the threshold and WHITE otherwise; every border cell keeps its previous value; `in` is not modified |
| EdgeDetection.KernelsBalanced | main.c:260-270 | the coefficients of each Sobel kernel sum to 0, with weight 4 on the positive side and 4 on the negative side |
| EdgeDetection.WeightedSumUniform | main.c:300-310 | on identical pixels the convolution is that pixel's channel sum times the kernel's coefficient sum |
| EdgeDetection.WeightedSumBounds | main.c:300-310 | a convolution lies between -765 times the negative weight and 765 times the positive weight of its kernel |
| EdgeDetection.TermBounds | main.c:304-306 | one term (r+g+b)·k lies between -765·max(-k,0) and 765·max(k,0) |
| EdgeDetection.GradientBounds | main.c:286-288 | \|Gx\| and \|Gy\| are at most 3060, so the truncated magnitude is at most 4327 |
| EdgeDetection.UniformWindowIsBlack | main.c:272-289 | a window of nine identical pixels gives Gx = Gy = 0 and a BLACK cell for every positive threshold |
| EdgeDetection.UniformImageIsBlack | main.c:272-291 | an image of one colour gives BLACK on every interior cell for every positive threshold |
| EdgeDetection.HighThresholdIsBlack | main.c:252-253 | a threshold above 4327 makes every interior cell BLACK |
| EdgeDetection.NonPositiveThresholdIsWhite | main.c:289 | a threshold of 0 or below makes every interior cell WHITE |
| EdgeDetection.ThresholdMonotone | main.c:252 | raising the threshold can only turn WHITE cells BLACK, never the reverse |
| EdgeDetection.EdgeCellBySquares | main.c:288-289 | a cell is BLACK exactly when the threshold is positive and Gx·Gx + Gy·Gy < threshold·threshold |
| SeedPlacement.Quadrants | main.c:209-214 | there are four quadrants; each is well formed, inside the parent, and strictly narrower and shorter than it, so the recursion terminates |
| SeedPlacement.QuadrantLayout | main.c:197-214 | the quadrants are, in order, the cells left/above, right/above, left/below and right/below the middle cell; they are pairwise disjoint and skip the middle column and row |
| SeedPlacement.Seeds | main.c:190-238 | an unbudgeted step over any well-formed region places at least one seed |
| SeedPlacement.Subdivided | main.c:216-229 | quadrants i..3 of a non-empty region contribute at least 4-i seeds |
| SeedPlacement.Budgeted | main.c:216-219 | a budget of `room` keeps the first min(room, \|s\|) seeds of the order `s`, unchanged |
| SeedPlacement.BudgetedAppend | main.c:216-229 | while the seeds so far leave room, the rest of the budget passes to the quadrants that follow |
| SeedPlacement.BudgetedFull | main.c:216-219 | once the seeds so far fill the budget, the later quadrants place nothing |
| SeedPlacement.BudgetMonotone | main.c:216-219 | a smaller budget places a prefix of what a larger one places |
| SeedPlacement.SubdividedStep | main.c:221-228 | visiting quadrant i appends its seeds before those of quadrants i+1..3 |
| SeedPlacement.ScanRegion | main.c:196-206 | the scan reports "homogeneous" exactly when every cell of the region has the red value of its top-left cell |
| SeedPlacement.SeedPlacer.constructor | main.c:73-74 | a placer starts with no seeds found, an array of `maxSeeds` points and budget `maxSeeds` |
| SeedPlacement.SeedPlacer.FindSeedsStep | main.c:190-238 | entered with room left, a step appends at least one seed and never more than the budget; it keeps the seeds already placed; it appends exactly the first seeds of the region's placement order that fit |
| SeedPlacement.SeedPlacer.VisitQuadrants | main.c:209-231 | the quadrant loop appends the seeds of the four quadrants in order, up to the budget, stops once the budget is used up, and places no seed for the region itself |
| SeedPlacement.SeedPlacer.FindSeeds | main.c:175-179 | a placement over the whole map with room left ends with 1 ≤ seedsFound ≤ maxSeeds, and the appended seeds are the budgeted prefix of the map's placement order |
| SeedPlacement.HomogeneousRegionOneSeed | main.c:196-237 | a homogeneous region receives exactly one seed, its integer midpoint, which lies inside the region when the region is not empty |
| SeedPlacement.EmptyRegionStillSeeded | main.c:235-237 | an empty quadrant still receives a seed, at a midpoint that is not inside it |
| SeedPlacement.SeedsEnclosed | main.c:197-237 | every seed of a region lies in the closed rectangle of that region, far edges included |
| SeedPlacement.SubdividedEnclosed | main.c:209-228 | every seed of quadrants i..3 lies in the closed rectangle of the parent |
| SeedPlacement.PlacementEnclosed | main.c:175-179 | whatever the budget, every seed of a whole placement lies in [0, width] x [0, height] |
| SeedPlacement.SeedsLeaveTheMap | main.c:209-237 | on a 2x1 map whose two cells differ, the four seeds are (0,0), (2,0), (0,1) and (2,1); three of them lie outside the map |
| SeedPlacement.SeedsBelowTheMap | main.c:196-237 | on a 16x2 map whose only odd cell is column 1 of row 0, the seeds are (2,0), (6,0), (2,1), (6,1), (12,0), (4,2), (12,2); the two bottom quadrants are empty and their seeds lie on row 2 |
| SeedPlacement.TopLeftOfSixteenByTwo | main.c:196-237 | on that map the top-left quadrant splits into four empty quadrants, which give the seeds (2,0), (6,0), (2,1), (6,1) |
| SeedPlacement.RestOfSixteenByTwo | main.c:209-237 | on that map the other three quadrants give (12,0) for the uniform strip of row 0 and (4,2), (12,2) for the two empty bottom quadrants |
| SeedPlacement.UniformMapOneSeed | main.c:175-237 | a map whose cells all share one red value receives exactly one seed, at (width/2, height/2) |
| Stylization.SquaredDistance | main.c:155-157 | the squared distance is 0 exactly at the seed itself |
| Stylization.Nearest | main.c:149-163 | the scan's argmin is a valid seed index |
| Stylization.NearestIsNearest | main.c:152-163 | no seed is nearer than the selected one, and every earlier seed is strictly farther, so the earliest nearest seed wins |
| Stylization.NearestStep | main.c:159-162 | trying seed i replaces the best seed so far exactly when seed i is strictly nearer |
| Stylization.Chosen | main.c:149-165 | the chosen seed is one of the seeds |
| Stylization.ChosenIsNearest | main.c:152-163 | no seed is nearer to the pixel than the chosen one |
| Stylization.DistanceFitsInt32 | main.c:150-157 | on an image of side at most 32768, every squared distance between two of its pixels is below INT32_MAX |
| Stylization.NearestSeed | main.c:149-163 | the inner loop, which starts from seeds[0] at INT32_MAX and replaces it only on a strictly smaller distance, returns the first nearest seed |
| Stylization.Stylize | main.c:144-168 | every output pixel is the source colour at the first seed nearest to it; the source is not modified |
| Stylization.SeedPixelKeepsColour | main.c:152-165 | a pixel that is itself a seed is assigned that seed |
| Stylization.SingleSeedFlat | main.c:149-165 | with one seed, every pixel is assigned that seed |
| Stylization.DuplicateSeedNeverChosen | main.c:159-162 | a seed that repeats an earlier one is never the selected index |
| Stylization.OutputFromSeedColours | main.c:165 | every output colour is the source colour at some seed |
| Stylization.UniformSourceStaysUniform | main.c:165 | a source image of one colour gives an output of that colour |
| Stylization.OffMapSeedChosen | main.c:152-163 | among those seven seeds, (4,2) is the one chosen for the pixel in column 4, row 1 |
| Stylization.StylizeReadsOffTheMap | main.c:144-168 | on that 16x2 map the placement's seeds are not all inside the image, and the one chosen for the pixel in column 4, row 1 is (4,2), on a row the image does not have |

## Left out

- `main`, `init`, `validate`, `load`, `draw` and `keyboard` are not modelled. They do argument parsing, GLUT/OpenGL set-up, rendering, key handling and SOIL image decoding. This is I/O and foreign-library code.
- The image dimensions are not passed separately. They come from the `array2` lengths. The source's global `width`/`height` and the `ImageRgb` wrapper are not modelled.
- The floating-point `sqrt` in `detect_edges` is specified by the exact integer square root `ISqrt`, and `DetectEdges` decides `G < threshold` on the squares (`EdgeCellBySquares`), so it takes no root at all. The exact root is taken to agree with the truncated double for every value that occurs (at most 2·3060²); IEEE doubles are not modelled.
- `int` overflow is not modelled. `convolute`, `Gx*Gx + Gy*Gy` and the loop counters use mathematical integers. These values stay far below 2^31 on 8-bit channels (see GradientBounds).
- EdgeDetection.DetectEdges: the bounds `height-1` and `width-1` are computed on integers. So a 0-wide or 0-high image writes nothing, instead of wrapping around as `size_t` does.
- EdgeDetection.DetectEdges: the model requires `out` to be a different array from `in`. The source is never called with the same buffer for both.
- The edge map's border is never written by `detect_edges`, and its buffer is not initialised. The placement therefore takes the edge map as an arbitrary input, border included.
- SeedPlacement.SeedPlacer.FindSeedsStep: uses the map's real row stride. It reads the cell in row `y`, column `x` of the full-width edge map. In recursive calls the source declares the edge map with row length `end_x`, so it reads through a different stride. The model implements the intended 2-D indexing, not that reinterpretation.
- SeedPlacement.SeedPlacer.FindSeedsStep: reads the top-left cell only when the region is not empty. The source reads it unconditionally, out of range for an empty quadrant. The value is never compared, because the scan loops do not run.
- SeedPlacement.SeedPlacer.FindSeedsStep: requires room for one more seed on entry. The source's own calls meet this: `find_seeds` starts from 0 of 80000 seeds, and the budget is checked before every recursive call. A call with a full array on a homogeneous region would write one past the end of the array; on any other region it would return without placing a seed.
- SeedPlacement.SeedPlacer: the globals `seeds_found` and `max_seeds` (80000 in the source) are fields of the placer. The budget is a constructor argument.
- SeedPlacement.SeedPlacer.FindSeedsStep: the scan loop of `find_seeds_step` is a separate method, `ScanRegion`, and its quadrant loop is `VisitQuadrants`. The placement order that the contracts refer to is stated over the red channel as a value (`RedMap`), which is passed as a ghost argument.
- Stylization.Stylize: requires `seedsFound ≥ 1`. With no seeds the source copies the uninitialised `seeds[0]`.
- Stylization.Stylize: requires every seed to lie inside the image. The placement does not guarantee this, because an empty quadrant's seed can land on `x == width` or `y == height` (SeedsLeaveTheMap). Such a seed can also be the one chosen: on a 16x2 map the pixel in column 4, row 1 is given the seed (4, 2), so the source reads row 2 of a 2-row image (StylizeReadsOffTheMap).
- Stylization.Stylize: requires both sides to be at most 32768, so that `dx*dx + dy*dy` fits in a 32-bit `int`. Beyond that the source overflows.
- Stylization.Stylize: the innermost loop of `stylize` is a separate method, `NearestSeed`.

# Augraphy paper textures: the index logic, in Dafny

This project models the integer, index and decision logic of two files of the Augraphy
document-augmentation library. It covers:

- from `TextureGenerator`:
  - patch quilting and its donor-patch search;
  - the strange-pattern pixel rule;
  - the broken-edge point filter;
  - the octave loop of the normal texture;
  - the low-frequency disk mask;
- from `PaperFactory`:
  - the paper-edge check;
  - the two-phase `resize` of texture dimensions;
  - the exact random crop of `retrieve_texture`;
  - the one- or two-side crop of `generate_random_texture`;
  - the decisions `__call__` takes before any pixel work.

Conventions:

- Every `random.*` and `np.random.*` draw is a caller-supplied parameter, with its range as a precondition. `random.uniform(a, b)` is `a + (b - a) * u` for a unit draw `u` in [0, 1).
- Anything OpenCV or scikit-learn computes is an input. This covers the Otsu mask, the blurred image, contour areas and their order, rotated-box corners, HSV planes, the clustered sample coordinates and the banded noise field.
- Python's slicing and truncation rules are written out explicitly: negative bounds count from the end, bounds are clamped, and `int()` truncates toward zero.

Modules, one per concern:

- `Numeric`: `Option`, `random.uniform`, truncation, `Min`/`Max`.
- `Grid`: images as `seq<seq<T>>`, numpy slicing, block sums and means.
- `Quilting`: `quilt_texture` and `get_random_patch`. The quilt canvas is an `array2` that the painting loops update in place.
- `StrangePattern`: the pixel rule of `generate_strange_texture`.
- `BrokenEdge`: the point filter and point write of `generate_broken_edge_texture`. The noise canvas is an `array2`.
- `NormalTexture`: the `while ratio != 1` loop of `generate_normal_texture`.
- `FrequencyMask`: the disk mask of `remove_frequency`.
- `PaperEdges`: `check_paper_edges`.
- `CanvasFit`: `resize`, `retrieve_texture` and `generate_random_texture`.
- `PaperFactory`: flag, source, blend and colour resolution in `__call__`.

## Model

| member | source | states |
|---|---|---|
| Numeric.Uniform | augraphy/base/paperfactory.py:412-415 | `random.uniform(a, b)` lies between `a` and `b` in either order, and below `b` when `a < b` |
| Numeric.Trunc | augraphy/utilities/texturegenerator.py:185-186 | `int()`/`astype("int")` truncates toward zero: the result is within 1 of `x` on the side of zero, and negative exactly when `x <= -1` |
| Grid.ClampIndex | augraphy/base/paperfactory.py:326-328 | numpy's normalisation of a slice bound on a side of `n`: the result is at most `n`, and a non-negative bound is clamped to `n` |
| Grid.Slice | augraphy/base/paperfactory.py:334 | Python's `s[start:stop]` has the clamped, wrap-normalised length and holds the elements from the normalised start on, in order |
| Grid.SubGrid | augraphy/base/paperfactory.py:388 | numpy's `g[top:bottom, left:right]` has the clamped, wrap-normalised slice lengths as its shape, and cell (i, j) is the source cell offset by the normalised starts |
| Grid.BlockMeanBounds | augraphy/base/paperfactory.py:324-329 | the mean of a non-empty block whose pixels lie in [lo, hi] lies in [lo, hi] |
| Quilting.Overlap | augraphy/utilities/texturegenerator.py:543 | `patch_size // 5` is the floor of a fifth of the patch: `5 * o <= ps < 5 * o + 5` |
| Quilting.CanvasLength | augraphy/utilities/texturegenerator.py:546-547 | with no patches the formula leaves a canvas of the overlap alone |
| Quilting.CanvasLengthBounds | augraphy/utilities/texturegenerator.py:546-547 | with at least one patch the canvas is at least one patch long and at most `n * ps` |
| Quilting.Origin | augraphy/utilities/texturegenerator.py:589-590 | the first patch starts at 0, and with a non-empty patch patch `t` starts at or after `t` |
| Quilting.OriginStep | augraphy/utilities/texturegenerator.py:589-590 | neighbouring patches start one stride apart |
| Quilting.Stride | augraphy/utilities/texturegenerator.py:589-590 | the distance between neighbouring patch origins, `ps - ps // 5`, is at most `ps`, and at least 1 for a non-empty patch |
| Quilting.NineTwentyPatchCanvas | augraphy/utilities/texturegenerator.py:543-547 | patch size 20 with 3 by 3 patches gives an overlap of 4 and a 52 by 52 canvas |
| Quilting.LastCover | augraphy/utilities/texturegenerator.py:587-590 | the patch index returned covers the coordinate and no later index does; `None` exactly when no patch covers it |
| Quilting.LastPatchEndsAtEdge | augraphy/utilities/texturegenerator.py:546-547 | the last patch along an axis ends exactly at the canvas edge |
| Quilting.PatchInsideCanvas | augraphy/utilities/texturegenerator.py:589-601 | every patch square lies inside the canvas |
| Quilting.CoveredBelow | augraphy/utilities/texturegenerator.py:589-590 | every coordinate before the end of patch `n - 1` lies in one of the first `n` patches; the proof walks down the patches |
| Quilting.EveryCellCovered | augraphy/utilities/texturegenerator.py:546-590 | with at least one patch per axis, every canvas coordinate is covered by some patch |
| Quilting.RowMajorLast | augraphy/utilities/texturegenerator.py:587-601 | any patch covering a cell comes no later in row-major order than the pair of last covering row and column patches, so that pair paints the cell last |
| Quilting.ReferenceAcceptsItself | augraphy/utilities/texturegenerator.py:578-584 | the reference patch passes the donor test under its own windows, and each window has width 20 |
| Quilting.ReferenceWindows | augraphy/utilities/texturegenerator.py:566-584 | the reference search returns the first draw whose mean value lies strictly between 10 and 245, or the last draw if none does; the windows are its three means ± 10 |
| Quilting.DonorChoice | augraphy/utilities/texturegenerator.py:637-673 | the donor location is always a valid draw |
| Quilting.GetRandomPatch | augraphy/utilities/texturegenerator.py:637-673 | an accepted donor is a drawn location that passes all three half-open windows, and no earlier draw passes them; otherwise no draw passes and the donor is the location drawn before the loop |
| Quilting.PaintPatch | augraphy/utilities/texturegenerator.py:601 | after the copy, the cells of the patch square hold the donor's pixels and every other cell keeps its old value |
| Quilting.PaintedNothing | augraphy/utilities/texturegenerator.py:556 | before any patch is painted, every cell holds the blank value |
| Quilting.PaintedStep | augraphy/utilities/texturegenerator.py:589-601 | painting patch (i, j) changes exactly the cells in its square, to that patch's pixels |
| Quilting.PaintedRowDone | augraphy/utilities/texturegenerator.py:587-588 | the state after the last patch of row `i` is the state before the first patch of row `i + 1` |
| Quilting.PaintedAll | augraphy/utilities/texturegenerator.py:587-601 | after all rows, every cell holds the pixel of the last patch in row-major order that covers it |
| Quilting.BlankCanvas | augraphy/utilities/texturegenerator.py:546-556 | the fresh canvas has the quilt's dimensions and is in the "nothing painted yet" state |
| Quilting.PaintCell | augraphy/utilities/texturegenerator.py:589-601 | one step of the inner loop: donor search, then paint; it takes the canvas from state (i, j) to state (i, j + 1) |
| Quilting.PaintRow | augraphy/utilities/texturegenerator.py:588-601 | the inner loop takes the canvas from the start of row `i` to the start of row `i + 1` |
| Quilting.QuiltTexture | augraphy/utilities/texturegenerator.py:543-601 | a texture no larger than a patch on some axis gives the empty-draw-range outcome (the `ValueError` of `np.random.randint` at lines 568-569); otherwise the canvas has size `n * ps - (n - 1) * (ps // 5)` on each axis; the windows come from the reference search; every cell holds the pixel of the last patch, in row-major order, that covers it |
| StrangePattern.Xor | augraphy/utilities/texturegenerator.py:104 | Python's `^` on non-negative integers: the lowest bit of the result is the parity of the sum, and the result is at most the sum |
| StrangePattern.XorHalf | augraphy/utilities/texturegenerator.py:104 | dropping the lowest bit commutes with `^` |
| StrangePattern.XorBits | augraphy/utilities/texturegenerator.py:104 | `^` is bitwise: bit `k` of `a ^ b` is set exactly when bit `k` of `a` and of `b` differ |
| StrangePattern.PixelValue | augraphy/utilities/texturegenerator.py:104 | the pixel value is 0 exactly when the two shifted coordinates truncate to the same integer |
| StrangePattern.XorSelf | augraphy/utilities/texturegenerator.py:104 | `a ^ a == 0` |
| StrangePattern.XorZeroIffEqual | augraphy/utilities/texturegenerator.py:104 | `a ^ b == 0` exactly when `a == b` |
| StrangePattern.Shift | augraphy/utilities/texturegenerator.py:93-104 | the shift `t * 80 + m * 10` with `t`, `m` drawn in [0, 100) lies in [0, 9000) |
| StrangePattern.Isqrt | augraphy/utilities/texturegenerator.py:112 | `int(floor(sqrt(v)))` is the `s` with `s * s <= v < (s + 1) * (s + 1)` |
| StrangePattern.IsqrtUnique | augraphy/utilities/texturegenerator.py:112 | that `s` is unique |
| StrangePattern.DividesAmongFirstMeans | augraphy/utilities/texturegenerator.py:112-114 | the scan of the first `k` candidates finds a divisor exactly when one of them divides `v` |
| StrangePattern.ScanComplete | augraphy/utilities/texturegenerator.py:112-114 | once the candidates pass the square root, the scan has seen every candidate of `range(3, isqrt(v), stride)` |
| StrangePattern.ClassifyPixel | augraphy/utilities/texturegenerator.py:107-114 | the pixel is background exactly when `v <= 1`, or `v` is even and above 2, or a candidate of `range(3, isqrt(v), stride)` divides it |
| StrangePattern.SmallValuesAreBackground | augraphy/utilities/texturegenerator.py:108-109 | 0 and 1 are background for every stride |
| StrangePattern.TwoIsForeground | augraphy/utilities/texturegenerator.py:107-114 | 2 is foreground for every stride |
| StrangePattern.OddPrimeIsForeground | augraphy/utilities/texturegenerator.py:107-114 | every odd prime is foreground for every stride |
| StrangePattern.SmallDivisorIsBackground | augraphy/utilities/texturegenerator.py:112-114 | a value with a candidate divisor below its integer square root is background |
| StrangePattern.NineIsForeground | augraphy/utilities/texturegenerator.py:112 | 9 is foreground, because the scan stops below the square root: the rule is not a primality test |
| StrangePattern.StrideChangesOutcome | augraphy/utilities/texturegenerator.py:112 | the drawn stride matters: 77 is background with stride 1 and foreground with stride 3 |
| BrokenEdge.KeepInBand | augraphy/utilities/texturegenerator.py:189-199 | a point survives exactly when it is in the input and lies in `[2, 398)` on both axes, and no more survive than were given |
| BrokenEdge.KeepInBandAppend | augraphy/utilities/texturegenerator.py:181-199 | filtering the concatenated clusters is concatenating the filtered clusters |
| BrokenEdge.KeepInBandIdempotent | augraphy/utilities/texturegenerator.py:189-199 | filtering twice is filtering once |
| BrokenEdge.ClusterPoints | augraphy/utilities/texturegenerator.py:185-186 | truncation keeps one point per sample |
| BrokenEdge.GeneratedPoints | augraphy/utilities/texturegenerator.py:160-186 | the generated points are the seed (0, 0) followed by every sample, truncated, in order |
| BrokenEdge.SeedAlwaysRemoved | augraphy/utilities/texturegenerator.py:160-199 | the seed point (0, 0) never survives, so the survivors are exactly the surviving samples |
| BrokenEdge.NearZeroSampleDropped | augraphy/utilities/texturegenerator.py:185-192 | a sample coordinate in (-1, 2) truncates into the dropped band, never wrapping to the far edge |
| BrokenEdge.WritePoints | augraphy/utilities/texturegenerator.py:208 | the write sets exactly the listed cells to the field's values and leaves every other cell unchanged |
| BrokenEdge.BrokenEdgeNoise | augraphy/utilities/texturegenerator.py:141-208 | the 400 by 400 noise canvas holds the field's value at every surviving sample and 255 everywhere else |
| NormalTexture.NextRatio | augraphy/utilities/texturegenerator.py:58 | with turbulence at least 2, `(ratio // turbulence) or 1` is at least 1, smaller than any ratio above 1, and either 1 or at most `ratio / turbulence` |
| NormalTexture.Ratios | augraphy/utilities/texturegenerator.py:50-58 | the ratios the loop runs at all lie in [2, min side], strictly decrease, and are empty exactly when the smaller side is 1 |
| NormalTexture.OctaveCountLogarithmic | augraphy/utilities/texturegenerator.py:50-58 | with `k` octaves, `turbulence ^ (k - 1) <= min side` |
| NormalTexture.SixtyWideSchedule | augraphy/utilities/texturegenerator.py:50-58 | a 60-pixel smaller side with turbulence 2 runs at ratios 60, 30, 15, 7, 3 |
| NormalTexture.Sizes | augraphy/utilities/texturegenerator.py:52-53 | one noise size per ratio |
| NormalTexture.SizesAreFloors | augraphy/utilities/texturegenerator.py:52-53 | each noise size is `(floor(ysize / ratio), floor(xsize / ratio))`: `q * r <= side < (q + 1) * r` on both axes |
| NormalTexture.SizesPositive | augraphy/utilities/texturegenerator.py:52-53 | every noise layer `(int(ysize / ratio), int(xsize / ratio))` is at least 1 by 1 |
| NormalTexture.NoiseSchedule | augraphy/utilities/texturegenerator.py:50-58 | the loop terminates for turbulence at least 2; it raises the division error exactly when a side is 0, and otherwise draws noise at the schedule's sizes, each at least 1 by 1 |
| FrequencyMask.DiskMask | augraphy/utilities/texturegenerator.py:501-509 | the mask is 0 exactly on the closed disk of radius `frequency` about `(ysize // 2, xsize // 2)` and 1 elsewhere |
| FrequencyMask.CentreMasked | augraphy/utilities/texturegenerator.py:501-509 | the centre cell is always 0 |
| FrequencyMask.ZeroRadiusMasksOnlyCentre | augraphy/utilities/texturegenerator.py:504-509 | with radius 0 the centre is the only masked cell |
| FrequencyMask.MaskedCellsNearCentre | augraphy/utilities/texturegenerator.py:507-509 | a masked cell lies within `abs(frequency)` of the centre on both axes |
| FrequencyMask.SignIrrelevant | augraphy/utilities/texturegenerator.py:504-509 | a negative radius masks the same disk as its absolute value |
| FrequencyMask.MaskGrows | augraphy/utilities/texturegenerator.py:507-509 | a larger radius masks every cell a smaller one does |
| PaperEdges.Complement | augraphy/base/paperfactory.py:338 | `255 - b` keeps the shape, and each pixel and its complement sum to 255 |
| PaperEdges.ComplementInvolution | augraphy/base/paperfactory.py:338 | complementing twice gives the mask back |
| PaperEdges.ComplementKeepsBinary | augraphy/base/paperfactory.py:338 | the complement of a {0, 255} mask is a {0, 255} mask with 0 and 255 exchanged |
| PaperEdges.BorderAverage | augraphy/base/paperfactory.py:324-329 | the mean of the four 10-pixel border bands (each clamped to the image) of a byte image lies in [0, 255] |
| PaperEdges.CentreSpanAsWritten | augraphy/base/paperfactory.py:332-334 | the window `[c - 10 : c + 10]` as numpy takes it lies inside the side |
| PaperEdges.SmallTextureWindowMissesCentre | augraphy/base/paperfactory.py:332-334 | on a 12-row texture the window as written is rows 8 to 11, which misses the centre row 6 |
| PaperEdges.CentreSpan | augraphy/base/paperfactory.py:332-334 | the corrected window lies inside the side, contains the centre and is at most 20 long |
| PaperEdges.SpansAgreeOnLargeSides | augraphy/base/paperfactory.py:332-334 | on sides of 20 or more, the corrected window is the written one |
| PaperEdges.CentreAverage | augraphy/base/paperfactory.py:331-334 | the mean over the (corrected) centre window of a byte image lies in [0, 255] |
| PaperEdges.OrientMask | augraphy/base/paperfactory.py:336-338 | the mask is complemented exactly when the border average exceeds the centre average, and is otherwise unchanged |
| PaperEdges.OrientedMaskBinary | augraphy/base/paperfactory.py:336-338 | the oriented mask is still binary |
| PaperEdges.SelectContour | augraphy/base/paperfactory.py:356-373 | the walk picks a contour exactly when exactly one contour's area reaches the threshold, and that contour is the one picked |
| PaperEdges.WalkAccepts | augraphy/base/paperfactory.py:359-371 | when the first step accepts, exactly one contour reaches the threshold |
| PaperEdges.OnlyFirstLarge | augraphy/base/paperfactory.py:350-369 | when the first step accepts, the largest contour is the only one at the threshold |
| PaperEdges.WalkRejects | augraphy/base/paperfactory.py:359-373 | when the first step rejects, no contour or more than one reaches the threshold |
| PaperEdges.NoCropCases | augraphy/base/paperfactory.py:357-390 | no contours, or two at the threshold, rule out a crop |
| PaperEdges.Sort | augraphy/base/paperfactory.py:380-381 | `np.sort` returns an ascending permutation of its input |
| PaperEdges.MiddlePair | augraphy/base/paperfactory.py:380-385 | the 2nd and 3rd smallest of four values are in order, are among the values, and lie between the minimum and maximum |
| PaperEdges.ToCorner | augraphy/base/paperfactory.py:377 | `np.int0` truncates each box coordinate toward zero, to within 1 of the point |
| PaperEdges.Corners | augraphy/base/paperfactory.py:377 | one corner per box point, each one truncated |
| PaperEdges.CropBounds | augraphy/base/paperfactory.py:377-385 | `y_top <= y_bottom` and `x_left <= x_right`; each bound is a corner coordinate of its axis, with a corner at or beyond it on the outer side |
| PaperEdges.CheckPaperEdges | augraphy/base/paperfactory.py:302-392 | the returned mask is the oriented one; with exactly one contour at 65 % of the area the texture is cropped to that contour's box bounds, otherwise it is returned unchanged |
| CanvasFit.Floor | augraphy/base/paperfactory.py:417-431 | `int()` of a non-negative scale product is its floor |
| CanvasFit.Dominant | augraphy/base/paperfactory.py:412-430 | the branch `h_ratio > w_ratio` picks the larger ratio |
| CanvasFit.ZoomOutScale | augraphy/base/paperfactory.py:412-415 | the zoom-out scale lies between the dominant ratio and 1.2, in whichever order they come |
| CanvasFit.ZoomInScale | augraphy/base/paperfactory.py:427-430 | the zoom-in scale lies in [dominant ratio, dominant ratio + 1.5) |
| CanvasFit.ScaledCovers | augraphy/base/paperfactory.py:417-431 | a side scaled by at least `target / side` is at least the target after `int()` |
| CanvasFit.ScaledUp | augraphy/base/paperfactory.py:412-417 | a side scaled by more than 1 does not shrink after `int()` |
| CanvasFit.Resize | augraphy/base/paperfactory.py:394-435 | a texture with an empty side raises the division error; otherwise the result covers the page on both axes, whichever branches ran |
| CanvasFit.FitTexture | augraphy/base/paperfactory.py:92-102 | a texture strictly larger than the page on both axes gives an exact page-sized crop at the drawn offsets; any other texture is resized to cover the page |
| CanvasFit.View | augraphy/base/paperfactory.py:150-159 | a window's pixels are the texture's pixels at its offsets |
| CanvasFit.IntendedCropSide | augraphy/base/paperfactory.py:148-159 | an intended crop leaves a window inside the part, keeps the other axis, and shrinks its side by exactly the crop amount when the amount fits |
| CanvasFit.IntendedCrops | augraphy/base/paperfactory.py:143-176 | the intended crops in order leave a window inside the part |
| CanvasFit.CropSideAsWritten | augraphy/base/paperfactory.py:148-176 | a crop as written still leaves a window inside the part and keeps the other axis |
| CanvasFit.CropsAsWritten | augraphy/base/paperfactory.py:143-176 | the crops as written, in order, leave a window inside the part |
| CanvasFit.CropSideView | augraphy/base/paperfactory.py:148-176 | cropping a window's pixels gives the pixels of the cropped window |
| CanvasFit.FirstIndex | augraphy/base/paperfactory.py:163 | the position of the first occurrence of a value that is in the list |
| CanvasFit.Remove | augraphy/base/paperfactory.py:163 | for a value in the list, `list.remove` cuts out exactly its first occurrence and keeps the rest in order; every other value stays in or out, and on a list without repeats the value is gone |
| CanvasFit.Selections | augraphy/base/paperfactory.py:146-164 | the first side is the drawn index, and the second is one of the three other sides |
| CanvasFit.CropAmounts | augraphy/base/paperfactory.py:143-144 | the crop amounts `int(n / 20)` leave a non-empty side after two crops |
| CanvasFit.FirstCrop | augraphy/base/paperfactory.py:148-159 | the first crop removes exactly its crop amount from its side, as written and as intended alike |
| CanvasFit.FirstCropStep | augraphy/base/paperfactory.py:145-159 | the first crop leaves the non-empty part of the texture in the first window |
| CanvasFit.SecondCropStep | augraphy/base/paperfactory.py:161-176 | the (intended) second crop continues from the part the first left |
| CanvasFit.AsWrittenBounds | augraphy/base/paperfactory.py:143-176 | as written, two crops leave a sub-rectangle of the texture that has lost at most two crop amounts on each axis |
| CanvasFit.SecondCropAsWritten | augraphy/base/paperfactory.py:161-176 | as written, the second crop keeps the loss within two crop amounts per axis |
| CanvasFit.IntendedTwoSides | augraphy/base/paperfactory.py:143-176 | intended, two different sides each lose exactly their crop amount, with the offsets moved only by top and left crops |
| CanvasFit.AsWrittenDiffersOnlyWhenOppositeAfterNear | augraphy/base/paperfactory.py:150-176 | as written and as intended agree unless top is followed by bottom or left by right |
| CanvasFit.TopThenBottomCropsOnce | augraphy/base/paperfactory.py:149-170 | as written, top then bottom removes only the top rows; intended, it removes the crop amount from both ends |
| CanvasFit.LeftThenRightCropsOnce | augraphy/base/paperfactory.py:155-176 | the same for left then right |
| CanvasFit.HundredSquareTopThenBottom | augraphy/base/paperfactory.py:143-170 | a 100 by 100 texture cropped top then bottom keeps 95 rows as written and 90 as intended |
| CanvasFit.RandomSideCrops | augraphy/base/paperfactory.py:143-176 | zero, one or two sides are cropped per the coin draws; the first side is the drawn one, the second is the drawn one of the three `remove` leaves, and it differs from the first; the result is the texture's part in the (intended) window the crops leave |
| PaperFactory.ResolveFlag | augraphy/base/paperfactory.py:185-194 | a "random" flag takes the `randint(0, 1)` draw, and any other value passes through |
| PaperFactory.ResolvedFlagRange | augraphy/base/paperfactory.py:185-194 | a "random" flag resolves to 0 or 1, and a fixed flag does not depend on the draw |
| PaperFactory.SourceFor | augraphy/base/paperfactory.py:197-202 | a non-empty library selects `retrieve_texture`, and an empty one `generate_random_texture` |
| PaperFactory.ResolveBlendMethod | augraphy/base/paperfactory.py:223-244 | "random" becomes one of the 14 listed methods at the drawn index, and any other name passes through |
| PaperFactory.EveryBlendMethodReachable | augraphy/base/paperfactory.py:224-242 | every listed method can be drawn, and "random" itself never comes out |
| PaperFactory.BlendInputs | augraphy/base/paperfactory.py:218-254 | both blend inputs are the first texture |
| PaperFactory.SecondTextureIgnored | augraphy/base/paperfactory.py:207-222 | the second texture has no effect on the blend inputs |
| PaperFactory.HueRange | augraphy/base/paperfactory.py:264-266 | the hue window contains the hue, lies within [0, 255] and has width 20 |
| PaperFactory.SaturationRange | augraphy/base/paperfactory.py:268-270 | the saturation window contains the saturation, lies within [50, 205] and has width 20 |
| PaperFactory.ColourWindowsExhaustive | augraphy/base/paperfactory.py:264-270 | every width-20 window inside those ranges comes from exactly one draw |
| PaperFactory.ColourFor | augraphy/base/paperfactory.py:259-277 | a gray texture is colourised exactly when colour is enabled, and a colour texture made gray exactly when it is disabled; the windows are in range |
| PaperFactory.ColourStepOutcome | augraphy/base/paperfactory.py:259-277 | after the colour step the texture is (or stays) gray exactly when colour is disabled |
| PaperFactory.CallPlan | augraphy/base/paperfactory.py:181-277 | a call's plan has the source from the library size, blends exactly when the resolved flag is truthy with the resolved method, and has the colour step of the resolved colour flag |
| PaperFactory.FixedOffFlags | augraphy/base/paperfactory.py:185-277 | with both flags fixed to 0, a call neither blends nor colourises; it only converts a colour texture to gray |

## Left out

- FFT synthesis and filtering (`generate_FFT_grid`, `generate_wave_grid`, the transforms of `remove_frequency`): complex floating-point transforms. Only the disk mask of `remove_frequency` is modelled.
- Float pixel arithmetic is not modelled: normalisation, gamma correction in `get_random_patch` (lines 665-668), the per-channel colour division, the noise-band thresholding of lines 202-205, the clipping and `uint8` conversions, and the brightness step of `__call__` (lines 280-288). The broken-edge noise field therefore arrives already banded, as an input.
- OpenCV and scikit-learn calls are inputs and are not modelled. These are `GaussianBlur`, `medianBlur`, `cv2.resize` resampling, `cvtColor`/HSV, the Otsu threshold, `erode`, `findContours`, `contourArea`, `minAreaRect`, `boxPoints`, `make_blobs`, `np.rot90`, `enhance_contrast` and the broken-edge contour fill. `Resize` therefore tracks dimensions only.
- Reals stand in for Python floats (the `0.65` area factor, the scale products, `int()` of them, the means): rounding is not modelled.
- `OverlayBuilder`, `ColorPaper`, `Brightness` and `generate_average_intensity` are not modelled: they are collaborators outside the core. `PaperFactory.CallPlan` records which blend and colour steps run, not what they compute.
- File loading in `PaperFactory.__init__` (including the image re-read on line 64) is I/O and is not modelled. So are the numba JIT, `prange` parallelism and the `should_run`/probability gate.
- `retrieve_texture` and `generate_random_texture` are not modelled as whole functions. The texture index and `rot90` draws of `retrieve_texture` (lines 77-79) are not modelled, nor is the `texture_file_name` side effect. `generate_random_texture`'s choice of texture type and its edge handling are outside the model. Only its side crops are modelled.
- Flags are integers or "random". Python truth values of other types (strings, lists) are not modelled.
- `NormalTexture.NoiseSchedule`: a turbulence of 1 loops forever and 0 raises, so both are excluded by its precondition. The noise values and their resampling are left out.
- `Quilting.DonorChoice` states only that the donor is a valid draw. The acceptance properties are stated on `GetRandomPatch`, which the quilt uses.
- `Quilting.QuiltTexture`: the `ValueError` that `np.random.randint` raises when the texture is no larger than a patch on some axis (lines 568-569, and again at 637-638 and 645-646) is the `EmptyDrawRange` outcome of `QuiltTexture`. `Quilting.ReferenceWindows`, `Quilting.GetRandomPatch` and the painting methods are called only after that test, so they take only textures larger than a patch. A patch size of 0 is excluded, since the caller's `int(texture_width / patch_size)` (line 746) raises first.
- The gray-to-BGR conversion around `quilt_texture` and its final median blur are not modelled. These are pixel operations.
- Three behaviours of the code worth noting:
  - `get_random_patch` falls back to the patch drawn before its loop (lines 637-639) when no draw in the loop is accepted, not to the last one drawn.
  - `retrieve_texture` makes an exact crop only when the texture is strictly larger on both axes; otherwise it resizes, and the result may be larger than the page.
  - The strange-pattern rule is not a primality test (9 is foreground).
- `CanvasFit.RandomSideCrops` and `PaperEdges.CheckPaperEdges` use the corrected side crops and centre window described under Findings. The code as written is modelled beside them, by `CanvasFit.CropsAsWritten` and `PaperEdges.CentreSpanAsWritten`.

## Findings

| source | as written | input that shows it | evidently intended | confidence | as-written member | corrected member |
|---|---|---|---|---|---|---|
| augraphy/base/paperfactory.py:166-176 | the second crop's bottom bound `ysize - crop_y` (and right bound `xsize - crop_x`) is measured from the original size, so after a top crop the "bottom" crop removes nothing | a 100 by 100 texture, first side top, second side bottom: 95 rows remain | the bottom (right) crop removes `crop_y` (`crop_x`) rows (columns) from the current part: 90 rows remain | not executed | CanvasFit.TopThenBottomCropsOnce | CanvasFit.IntendedTwoSides |
| augraphy/base/paperfactory.py:332-334 | `texture_blur[center_y - 10 : center_y + 10, ...]` with `center_y < 10` has a negative start, which numpy counts from the far end, so the centre window slides away from the centre | a texture 12 rows high: `center_y = 6` and the window is rows 8 to 11, which does not contain row 6 | the window is clamped at the near border: rows 0 to 11, containing the centre | not executed | PaperEdges.SmallTextureWindowMissesCentre | PaperEdges.CentreSpan |

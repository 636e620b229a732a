# Canny edge extraction, modelled in Dafny

This project models the edge-extraction stage of the LowPoly image-to-mesh
pipeline (`src/LowPoly/EdgeDraw/edgedetect.cpp`). `extractEdgeCanny` turns a
noise-reduced image into a binary edge map in three stages:

1. **Gradient.** For every interior pixel of the grayscale image,
   `calculateGradient` forms the two integer Sobel sums. `gradientInGray` then
   stores a magnitude and an angle for that pixel. Border pixels are never
   written.
2. **Non-maximum suppression.** `discretizeDirection` folds the angle into one
   of four orientation labels. `nonMaxSuppression` keeps an interior pixel's
   magnitude when it is at least both neighbours along that label, and writes
   0 otherwise.
3. **Hysteresis tracking.** `trackEdge` takes the mean of the suppressed map
   (an `unsigned int` sum divided by the pixel count) and a standard
   deviation. From them it derives `lowThreshold = mean + stdDev` and
   `highThreshold = mean + 2 * stdDev`, each stored into an `unsigned char`.
   - A raster pass starts the recursive flood fill `mark` from every pixel
     that is at least `high` and not 255.
   - The same pass clears pixels below `low`.
   - A last pass clears everything that is not 255.

Images are `array2<Byte>` indexed `[x, y]`: `Length0` is the width and
`Length1` the height. Every scan follows CImg's `cimg_forXY` order, with y
outer and x inner.

## Modules

- `Grid` (grid.dfy) holds bytes, cells and the ghost `Snapshot` of a buffer as a map from cells to values.
- `Gradient` (gradient.dfy) holds the Sobel tables, the sums, `CalculateGradient` and the `gradientInGray` loop.
- `Direction` (direction.dfy) holds `DiscretizeDirection`. Its reference definition is the nearest multiple of 45 degrees.
- `Suppression` (suppression.dfy) holds the per-pixel decision and the suppression scan.
- `Hysteresis` (hysteresis.dfy) states what tracking computes:
  - `IsHysteresis` says a pixel ends up 255 exactly when it was 255 on entry or is `Tracked`.
  - `Tracked` means it is reached from a Strong pixel by an 8-connected chain of Weak pixels.
  - The module also holds the invariants of `mark` and of the threshold pass, with their lemmas.
- `Tracking` (tracking.dfy) holds the in-place `Mark`, the two passes, the mean, the thresholds and `TrackEdge`.
- `Canny` (canny.dfy) holds the three stages and `ExtractEdgeCanny`.

## Where the description and the code disagree

The model follows the code in both cases.

- A uniform image yields an edge map of all 255, not all 0:
  - Its gradient and suppressed map are all zero.
  - So the mean is 0, and with a zero standard deviation both thresholds are 0.
  - Every pixel then satisfies `value >= highThreshold && value != 255` and is marked.
  - `Canny.FlatImageIsAllEdge` proves this. It proves the same for the colour mode, which writes no gradient at all and still runs suppression and tracking.
- `lowThreshold <= highThreshold` holds only while `mean + 2 * stdDev < 256`. Above that, storing the float into an `unsigned char` is undefined behaviour in C++, and the two thresholds can cross (see `Tracking.ThresholdPair` below).

## Model

| member | source | states |
|---|---|---|
| Gradient.ConvolveSobelX | src/LowPoly/EdgeDraw/edgedetect.cpp:93-107 | the 9-term sum with SOBEL_X indexed [i + 1][j + 1] equals the weighted row y + 1 minus row y - 1 |
| Gradient.ConvolveSobelY | src/LowPoly/EdgeDraw/edgedetect.cpp:94-107 | the 9-term sum with SOBEL_Y equals the weighted column x + 1 minus column x - 1 |
| Gradient.CalculateGradient | src/LowPoly/EdgeDraw/edgedetect.cpp:92-107 | the accumulation loops (x offset outer, y offset inner) end with exactly the two Sobel differences of the window |
| Gradient.UniformWindowIsFlat | src/LowPoly/EdgeDraw/edgedetect.cpp:102-107 | on a window of nine equal samples both sums are 0 |
| Gradient.GradientBounds | src/LowPoly/EdgeDraw/edgedetect.cpp:102-107 | for byte samples both sums lie in [-1020, 1020] |
| Gradient.GradientRow | src/LowPoly/EdgeDraw/edgedetect.cpp:61-69 | one row of the scan writes magnitude and angle of the sums at its interior pixels and nothing else |
| Gradient.GradientInGray | src/LowPoly/EdgeDraw/edgedetect.cpp:61-69 | every interior pixel holds the magnitude and the angle of its two sums; border pixels of both buffers are unchanged |
| Direction.DiscretizeDirection | src/LowPoly/EdgeDraw/edgedetect.cpp:163-182 | after folding negative angles by +180 the label is always one of 0..3, so the -1 error return is unreachable |
| Direction.OppositeAnglesAgree | src/LowPoly/EdgeDraw/edgedetect.cpp:164-166 | an angle in [-180, 0) and its opposite angle + 180 get the same label |
| Direction.DiscretizeIsNearestAxis | src/LowPoly/EdgeDraw/edgedetect.cpp:163-182 | for every angle in [-180, 180] the four sectors give the index (mod 4) of the nearest multiple of 45 degrees |
| Suppression.SuppressAt | src/LowPoly/EdgeDraw/edgedetect.cpp:153-157 | the suppressed value is either the pixel's magnitude or 0, and never exceeds the magnitude |
| Suppression.SuppressPixel | src/LowPoly/EdgeDraw/edgedetect.cpp:123-157 | the switch on the label picks the two neighbours along Across(label); the pixel keeps its magnitude iff it is at least both |
| Suppression.NonMaxSuppression | src/LowPoly/EdgeDraw/edgedetect.cpp:117-161 | every interior pixel of the output is SuppressAt of the gradient, border pixels keep their previous value |
| Suppression.SuppressionIdempotent | src/LowPoly/EdgeDraw/edgedetect.cpp:117-161 | suppressing the suppressed map (zero border) again with the same directions changes no interior pixel |
| Hysteresis.SpreadingStarts | src/LowPoly/EdgeDraw/edgedetect.cpp:220-221 | setting the start pixel to 255 begins a flood fill: only it changed, and it reaches itself |
| Hysteresis.SpreadingStep | src/LowPoly/EdgeDraw/edgedetect.cpp:226-231 | a nested mark from a Weak neighbour keeps the outer fill's invariant: new edges are reachable and closed |
| Hysteresis.NeighbourSkipped | src/LowPoly/EdgeDraw/edgedetect.cpp:226-228 | a neighbour the guard rejects (outside, already 255, or below `low`) is settled, and the fill invariant holds with one more neighbour visited |
| Hysteresis.NeighbourMarked | src/LowPoly/EdgeDraw/edgedetect.cpp:226-231 | after the recursive mark from a Weak neighbour the outer fill's invariant holds and that neighbour is settled |
| Hysteresis.MarkedFromIsClosed | src/LowPoly/EdgeDraw/edgedetect.cpp:220-234 | after mark, no new edge pixel has an unmarked neighbour at or above `low` |
| Hysteresis.ChainFullyMarked | src/LowPoly/EdgeDraw/edgedetect.cpp:203-234 | along a chain from a new edge pixel, closure forces every chain pixel that was not cleared to be 255 |
| Hysteresis.MarkFillsReach | src/LowPoly/EdgeDraw/edgedetect.cpp:220-234 | mark from s sets to 255 every pixel reachable from s through pixels at or above `low` |
| Hysteresis.PassStarts | src/LowPoly/EdgeDraw/edgedetect.cpp:203 | before the first pixel is visited the pass invariant holds on the untouched map |
| Hysteresis.PassMarks | src/LowPoly/EdgeDraw/edgedetect.cpp:204-206 | marking a seed during the threshold pass keeps the pass invariant: new edges are Tracked, seeds seen so far are edges |
| Hysteresis.PassClears | src/LowPoly/EdgeDraw/edgedetect.cpp:207-208 | clearing a pixel below `low` keeps the pass invariant |
| Hysteresis.PassSkips | src/LowPoly/EdgeDraw/edgedetect.cpp:204-209 | a pixel that is neither a seed nor below `low` is left as it is, and the pass invariant holds |
| Hysteresis.PassNextRow | src/LowPoly/EdgeDraw/edgedetect.cpp:203 | the end of one raster row is the start of the next |
| Hysteresis.PassComplete | src/LowPoly/EdgeDraw/edgedetect.cpp:203-210 | after the threshold pass a pixel is 255 iff it was 255 on entry or is Tracked |
| Hysteresis.StrongIsTracked | src/LowPoly/EdgeDraw/edgedetect.cpp:204-206 | every pixel at least `high` and not 255 is Tracked |
| Hysteresis.HysteresisShape | src/LowPoly/EdgeDraw/edgedetect.cpp:184-218 | the output is binary; 255 and pixels at least `high` stay 255; any other 255 was Weak and has a Tracked neighbour at least `low` |
| Hysteresis.AllZeroIsAllEdge | src/LowPoly/EdgeDraw/edgedetect.cpp:203-217 | with both thresholds 0 an all-zero map becomes all 255 |
| Tracking.Mark | src/LowPoly/EdgeDraw/edgedetect.cpp:220-234 | the recursive fill terminates (the set of non-255 pixels shrinks), writes only 255, marks only pixels reachable from the start and leaves all of them closed |
| Tracking.MarkNeighbour | src/LowPoly/EdgeDraw/edgedetect.cpp:226-231 | the bounds, not-255 and at-least-`low` guard, then the recursive call, keep the fill invariant and settle the neighbour |
| Tracking.ThresholdPass | src/LowPoly/EdgeDraw/edgedetect.cpp:203-210 | after the raster pass each pixel is 255, unchanged, or cleared to 0 because it was below `low`; every seed is 255 and every new 255 is Tracked |
| Tracking.ClearPass | src/LowPoly/EdgeDraw/edgedetect.cpp:213-217 | every pixel that is not 255 becomes 0; 255 stays |
| Tracking.TrackWithThresholds | src/LowPoly/EdgeDraw/edgedetect.cpp:203-217 | the two passes produce exactly IsHysteresis of the entry map, and a binary map |
| Tracking.TotalBounds | src/LowPoly/EdgeDraw/edgedetect.cpp:190 | the sum of the first m rows lies in [0, 255 * width * m] |
| Tracking.MeanIsByte | src/LowPoly/EdgeDraw/edgedetect.cpp:186-191 | the mean lies in [0, 255], and is the true truncated mean when width * height <= 16843009 (no wrap-around) |
| Tracking.AllZeroMean | src/LowPoly/EdgeDraw/edgedetect.cpp:190-191 | an all-zero buffer has mean 0 |
| Tracking.MeanSnapshot | src/LowPoly/EdgeDraw/edgedetect.cpp:186-191 | the mean of a buffer equals MeanOfMap of its contents, the same wrapped sum over the map divided by width * height |
| Tracking.ZeroMapHasMeanZero | src/LowPoly/EdgeDraw/edgedetect.cpp:190-191 | an all-zero map has MeanOfMap 0 |
| Tracking.MeanIntensity | src/LowPoly/EdgeDraw/edgedetect.cpp:186-191 | the raster loop with a 32-bit unsigned accumulator yields MeanOf, the wrapped sum divided by width * height |
| Tracking.ToUnsignedChar | src/LowPoly/EdgeDraw/edgedetect.cpp:200-201 | below 256 the stored byte is the truncation of the float |
| Tracking.ThresholdPair | src/LowPoly/EdgeDraw/edgedetect.cpp:200-201 | while mean + 2 * stdDev < 256, mean <= low <= high; with stdDev 0 both thresholds equal the mean |
| Tracking.TrackEdge | src/LowPoly/EdgeDraw/edgedetect.cpp:184-218 | the output is IsHysteresis of the entry map under the thresholds derived from its mean and stdDev, and binary |
| Canny.FlatGradient | src/LowPoly/EdgeDraw/edgedetect.cpp:13-21 | the gradient buffer is all zero in colour mode, or for a uniform image whose zero gradient has magnitude 0 |
| Canny.SuppressedFlat | src/LowPoly/EdgeDraw/edgedetect.cpp:24-25 | suppressing an all-zero gradient gives an all-zero map |
| Canny.ComputeGradient | src/LowPoly/EdgeDraw/edgedetect.cpp:13-21 | fresh buffers of the image's size whose interior holds the gradient in mode 0 and 0 otherwise; border 0 |
| Canny.SuppressStage | src/LowPoly/EdgeDraw/edgedetect.cpp:24-25 | a fresh map of the same size holding SuppressAt inside and 0 on the border |
| Canny.TrackStage | src/LowPoly/EdgeDraw/edgedetect.cpp:28 | `mean` is the buffer's MeanOf on entry and MeanOfMap of the entry map; tracking in place gives IsHysteresis of that map under ThresholdPair(mean, stdDev), and a binary map |
| Canny.ExtractEdgeCanny | src/LowPoly/EdgeDraw/edgedetect.cpp:11-31 | the returned map is fresh, the image's size and binary; it is IsHysteresis of the suppressed map `thinned` of the gradient stage, under ThresholdPair(mean, stdDev) with `mean` = MeanOfMap(thinned) |
| Canny.FlatImageSuppressed | src/LowPoly/EdgeDraw/edgedetect.cpp:13-25 | in colour mode, or for a uniform image whose zero gradient has magnitude 0, the suppressed map is all zero |
| Canny.ZeroMapIsAllEdge | src/LowPoly/EdgeDraw/edgedetect.cpp:184-218 | tracking an all-zero map with stdDev 0 (mean 0, both thresholds 0) turns every pixel into 255 |
| Canny.FlatImageIsAllEdge | src/LowPoly/EdgeDraw/edgedetect.cpp:11-31 | for the stages ExtractEdgeCanny guarantees, with stdDev 0, in colour mode or for a uniform image, every pixel of the output is 255 |

## Left out

- The grayscale conversion (lines 40-50) is floating-point arithmetic. `ExtractEdgeCanny` takes the grayscale buffer directly.
- GradientInGray: `sqrt`, `atan2` and the float-to-byte store of the magnitude are the function parameters `magnitude` and `angle`. The contracts hold for any such functions.
- The `SCHARR_X`/`SCHARR_Y` tables are declared and never used, so they are not modelled.
- `gradientInColor` only prints a diagnostic. The model keeps its effect: no gradient is written.
- Console output (the diagnostic in `discretizeDirection` and in `gradientInColor`) and the commented-out timing code are left out.
- TrackEdge: the standard deviation (`sumSq`, a float accumulation, and `sqrt`) is the parameter `stdDev >= 0`.
- TrackEdge: requires a non-empty image and width * height below 2^31, since the source divides by `numPixels` and forms it as an `int` product.
- ToUnsignedChar: above 255 the C++ conversion is undefined. The model keeps the low eight bits of the truncated value, so no contract is stated there.
- ThresholdPair: low <= high is proved only while mean + 2 * stdDev < 256, for the same reason.
- ThresholdPair: the two sums `mean + 1 * stdDev` and `mean + 2 * stdDev` are exact reals. The single-precision rounding of the C++ sums is not modelled, and it can carry a sum just below an integer up to that integer (for example mean 100 with stdDev 25 - 2^-19 gives a high threshold of 150 in C++, 149 in the model).
- ExtractEdgeCanny: CImg allocates the gradient, direction and edge buffers without initialising them. The model allocates them zeroed, which is what the border pixels are assumed to hold.
- Mark: the depth of the C++ call stack is not modelled. The recursion is proved to terminate but may be as deep as the number of pixels.
- The angle is a `real`. The model does not capture single-precision rounding of `float`.
- DiscretizeDirection: a NaN angle is not modelled. In C++ it fails every sector test and returns -1, and the pixel then keeps its magnitude (both neighbours stay 0). NaN can arise only from the uninitialised direction buffer of the colour mode, which the model allocates as zeros.

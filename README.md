# Image difference worker, modelled in Dafny

The worker compares a "before" and an "after" photograph, both given as RGBA
byte buffers of the same width and height. For a 'process' message it:

1. Smooths both images with a box blur when the blur radius is positive.
2. Compares them with one of two comparators. `pixelmatch` compares pixel by
   pixel: an alpha test, then a YIQ colour distance against the threshold.
   `blockCompare` compares the mean colours of square tiles.
3. Runs a morphological clean-up (`applyMorphology`) over the comparator's
   raw mask. The clean-up is a 3x3 dilation of the interior, then
   4-connected labelling of the dilated regions (`labelRegions` with its
   stack-based `floodFill`), then removal of regions smaller than the
   minimum size.
4. Replies with the cleaned mask, the comparator's count and the raw mask.

The model has one module per stage:

- `Grid`: row-major pixel grids, 4-adjacency and connectedness through a mask.
- `Color`: the YIQ weights, and the distance decided exactly over the reals.
- `Blur`: `applyGaussianBlur`.
- `PixelCompare`: `pixelmatch`.
- `BlockCompare`: `blockCompare`.
- `Regions`: `labelRegions` and `floodFill`.
- `Morphology`: `applyMorphology`.
- `Pipeline`: the message handler.

Every stage that fills a buffer in loops is an imperative method over
`array`s, with loop invariants. Each method is proved against a
specification function:

| method | specification |
|---|---|
| `Blur.ApplyBlur` | `Blur.Blurred` |
| `PixelCompare.Pixelmatch` | `PixelCompare.DiffMask` and `PixelCompare.CountDiffering` |
| `BlockCompare.Compare` | `BlockCompare.BlockMask` |
| `Morphology.Dilation` | `Morphology.Dilate` |
| `Morphology.ApplyMorphology` | `Morphology.Cleaned` |

The lemmas state what those functions promise.

The colour distance is never square-rooted. The comparators only compare
`delta > threshold` and compute `min(255, floor(delta * 255))`. Both are
decided from `delta * delta` exactly, and `Color.ExceedsIsGreater` and
`Color.MagnitudeIsClampedFloor` prove that these are the same as the
decisions on `delta`.

## Behaviour worth knowing

- Morphology starts from a copy of the raw mask and rewrites only labelled
  pixels. A pixel the dilation leaves at 0 keeps its raw value. The dilation
  never touches the border, so every border pixel keeps its raw difference
  value, which may be a graded magnitude (`Morphology.BorderKeepsRawValue`).
- An isolated interior difference is dilated into a 3x3 block of up to nine
  pixels before the sizes are counted, so its region is judged at its
  dilated size (`Morphology.DilationCovers`,
  `Morphology.InteriorDifferenceIsDecided`).
- An interior difference connected, through interior differences, to at
  least minRegionSize pixels comes out as 255 (`Morphology.LargeRawRegionSurvives`).
  Border pixels are the exception: they keep their raw value whatever the
  size of their region.
- In a 4x4 image, a single difference at (2, 2) is cleaned to the 2x2 block
  of 255 at (1..2, 1..2), the image's interior.
- `blockCompare` returns the number of pixels in differing tiles
  (`BlockCompare.Compare`).
- The handler never reads a flexible-matching setting.

## Model

| member | source | states |
|---|---|---|
| Grid.Coords | image-processor-worker.js:275-276 | An index inside the image splits into the column `idx % width` and the row `idx / width`, and these rebuild the same index. |
| Grid.CellCoords | image-processor-worker.js:275-276 | A row-major index `y * width + x` decodes back to exactly column x and row y. |
| Grid.NeighboursAdjacent | image-processor-worker.js:278-282 | Every index the flood fill pushes for a pixel is one of its 4-neighbours inside the image. |
| Grid.AdjacentIsNeighbour | image-processor-worker.js:278-282 | Every 4-neighbour inside the image is pushed: the edge guards drop exactly the out-of-image neighbours. |
| Grid.ConnectedSym | image-processor-worker.js:267-284 | 4-connectedness through a mask is symmetric. |
| Grid.ConnectedTrans | image-processor-worker.js:267-284 | 4-connectedness through a mask is transitive. |
| Grid.ClosedHoldsComponent | image-processor-worker.js:270-283 | A set that holds the start and is closed under stepping to admitted neighbours holds every pixel connected to the start. This is why a finished fill has reached the whole region. |
| Color.Y | image-processor-worker.js:5-7 | rgbToY: `0.29889531 r + 0.58662247 g + 0.11448223 b`. |
| Color.I | image-processor-worker.js:9-11 | rgbToI: `0.59597799 r - 0.27417610 g - 0.32180189 b`. |
| Color.Q | image-processor-worker.js:13-15 | rgbToQ: `0.21147017 r - 0.52261711 g + 0.31114694 b`. |
| Color.GreyHasNoChroma | image-processor-worker.js:5-15 | For a grey pixel (r = g = b) the I and Q weights cancel to 0, and the Y weights sum to 1.00000001. |
| Color.DistanceOfGreys | image-processor-worker.js:50-54 | Between two greys only the luminance term is left: the squared distance is `(1.00000001 * (u - v))^2`. |
| Color.DeltaSq | image-processor-worker.js:50-54 | The squared YIQ distance is never negative, and it is 0 between equal colours. |
| Color.ExceedsIsGreater | image-processor-worker.js:54-56 | The exact test on the squared distance holds iff `delta > threshold` for the non-negative root `delta`, also for a negative threshold. |
| Color.SameColourNeverExceeds | image-processor-worker.js:54-56 | Equal colours never exceed a threshold of 0 or more. |
| Color.MagnitudeFromIsMin | image-processor-worker.js:58 | The descending search from k gives `min(k, floor(delta * 255))`. |
| Color.MagnitudeIsClampedFloor | image-processor-worker.js:58 | The magnitude written for a differing pixel is `min(255, floor(delta * 255))`. |
| Color.MagnitudeNonzero | image-processor-worker.js:58 | A distance of at least 1/255 gives a magnitude of at least 1. |
| Blur.Sample | image-processor-worker.js:171 | The sample index `(py * width + px) * 4 + c` lies inside the buffer, in pixel `py * width + px` and channel c. |
| Blur.BoxCountPositive | image-processor-worker.js:163-176 | The clamped window around an in-image pixel holds at least one sample, so the division never divides by 0. |
| Blur.SpanBetween | image-processor-worker.js:166-178 | A window row's sum lies between its count times the window's lowest and highest value. |
| Blur.BoxBetween | image-processor-worker.js:165-179 | The window's sum lies between its count times the window's lowest and highest value. |
| Blur.DivBetween | image-processor-worker.js:182-185 | The floor of a sum divided by its count stays within the summed values' bounds. |
| Blur.Blurred | image-processor-worker.js:160-185 | Each sample of the blurred buffer is the floor of its channel's sum over the in-image part of the `(2r+1) x (2r+1)` window, divided by the number of in-image pixels. |
| Blur.BlurWithinWindowRange | image-processor-worker.js:160-185 | Every blurred channel value lies between the lowest and highest value of that channel in its clamped window. |
| Blur.BlurRadiusZeroIsIdentity | image-processor-worker.js:153-199 | With radius 0 the blurred buffer equals the input, byte for byte. |
| Blur.WindowRowSums | image-processor-worker.js:166-178 | The inner window loop returns, for each channel, the sum over the in-image pixels of one window row, and their count. |
| Blur.WindowSums | image-processor-worker.js:165-179 | The window loops return, for each channel, the sum over the in-image part of the window, and its count. |
| Blur.WindowMean | image-processor-worker.js:181-185 | The count is positive, and `floor(sum / count)` is the blurred value of that sample. |
| Blur.BlurPixel | image-processor-worker.js:161-185 | One pixel's four blurred channels are written into the result, and no other entry changes. |
| Blur.BlurRow | image-processor-worker.js:160-196 | After row y, every sample of rows 0..y holds its blurred value, and every sample after row y is unchanged. |
| Blur.ApplyBlur | image-processor-worker.js:153-199 | A fresh buffer equal to the box blur of the input is returned; the input is not written. |
| PixelCompare.DiffMask | image-processor-worker.js:25-64 | The mask has one entry per pixel. |
| PixelCompare.CountDiffering | image-processor-worker.js:23-64 | The number of differing pixels is at most the number of pixels. |
| PixelCompare.PixelValue | image-processor-worker.js:41-63 | A pixel's mask value: 255 when the alphas differ by more than 1, otherwise the clamped magnitude when the distance exceeds the threshold, and 0 otherwise. |
| PixelCompare.ComparePixel | image-processor-worker.js:27-63 | The loop body returns the pixel's mask value, and whether it is counted. |
| PixelCompare.CompareRow | image-processor-worker.js:26-64 | After a row, every pixel so far holds its mask value, the count is the number of differing pixels so far, and every entry after the row is unchanged. |
| PixelCompare.Pixelmatch | image-processor-worker.js:18-77 | The output equals the mask (every index written), and the return value is the number of differing pixels. |
| PixelCompare.AlphaMismatchIsFullDifference | image-processor-worker.js:41-47 | Alphas more than 1 apart make a pixel count as different and write 255, whatever its colours. |
| PixelCompare.ColourDifference | image-processor-worker.js:49-63 | With close alphas, a pixel counts iff `delta > threshold`. It is written as `min(255, floor(delta * 255))` when it counts, and as 0 otherwise. |
| PixelCompare.NonzeroMeansDiffering | image-processor-worker.js:41-63 | A non-zero mask value marks a counted pixel. |
| PixelCompare.DifferingIsNonzero | image-processor-worker.js:56-58 | With a threshold of at least 1/255, a pixel is counted iff its mask value is non-zero. |
| PixelCompare.MaskEntry | image-processor-worker.js:41-63 | Per mask entry: non-zero implies counted, and for a threshold of at least 1/255 the converse holds too. |
| PixelCompare.CountAgainstMask | image-processor-worker.js:23-76 | The returned count is never below the number of non-zero mask entries, and it equals that number when the threshold is at least 1/255. |
| PixelCompare.IdenticalImagesNoDifference | image-processor-worker.js:18-77 | Comparing an image with itself at a threshold of 0 or more writes an all-zero mask and counts 0. |
| BlockCompare.TileStart | image-processor-worker.js:85-86 | A column or row lies in the tile that starts at the nearest multiple of blockSize at or below it. |
| BlockCompare.TileOfPixel | image-processor-worker.js:85-86 | A pixel between `k * bs` and `k * bs + bs` belongs to tile k and no other, so the tiles partition the image. |
| BlockCompare.TileArea | image-processor-worker.js:90-105 | A tile's pixelCount is `(min(top + bs, h) - top) * (min(left + bs, w) - left)` and is positive, so the means never divide by 0. |
| BlockCompare.RowsAreaIsProduct | image-processor-worker.js:92-105 | Counting one per pixel over the tile's rows gives rows times columns. |
| BlockCompare.TileMean | image-processor-worker.js:108-115 | A tile's mean red, green and blue: the channel sums over the clipped tile divided by its pixelCount. |
| BlockCompare.TileDiffers | image-processor-worker.js:117-124 | A tile differs when the YIQ distance between its two mean colours exceeds the threshold. |
| BlockCompare.BlockMask | image-processor-worker.js:85-132 | Each pixel's mask value is 255 when the tile that holds it differs, and 0 otherwise. |
| BlockCompare.BlockValue | image-processor-worker.js:124-131 | Every mask value is 0 or 255. |
| BlockCompare.TileIsUniform | image-processor-worker.js:127-132 | Every pixel of a tile carries that tile's mark: 255 when its mean colours differ, 0 otherwise. |
| BlockCompare.RowSums | image-processor-worker.js:93-105 | One tile row returns the red, green and blue sums of both images over that row, and its pixel count. |
| BlockCompare.TileSums | image-processor-worker.js:88-106 | The tile loops return the channel sums of both images over the clipped tile, and the tile's pixel count. |
| BlockCompare.MarkRow | image-processor-worker.js:128-131 | The row's cells inside the tile get the value; nothing else changes. |
| BlockCompare.MarkTile | image-processor-worker.js:127-132 | Exactly the clipped tile's cells get the value, and there are pixelCount of them. |
| BlockCompare.CompareTile | image-processor-worker.js:87-136 | After a tile, every pixel of the finished tiles holds its mark, the count is the number of marked pixels among them, and every pixel of the tiles not yet reached is unchanged. |
| BlockCompare.CompareBand | image-processor-worker.js:86-146 | After a band of tiles, every pixel above the next band holds its mark, the count is the number of marked pixels among them, and every pixel below the band is unchanged. |
| BlockCompare.Compare | image-processor-worker.js:80-149 | The output equals the block mask (every index written once), and the return value is the number of 255 entries. |
| BlockCompare.IdenticalImagesNoBlocks | image-processor-worker.js:80-149 | Comparing an image with itself at a threshold of 0 or more marks no tile. |
| BlockCompare.OnePixelTile | image-processor-worker.js:108-115 | With blockSize 1 a tile's mean colour is the pixel's own colour. |
| BlockCompare.OneCellSum | image-processor-worker.js:92-105 | A one-pixel tile's sum is that pixel's sample. |
| BlockCompare.BlockSizeOneIsColourTest | image-processor-worker.js:80-149 | With blockSize 1, a pixel is marked iff its colour distance exceeds the threshold, as in pixelmatch without the alpha test. |
| BlockCompare.SingleTile | image-processor-worker.js:80-149 | With a blockSize of at least width and height, every pixel's mark is the test on the two images' global mean colours. |
| Regions.PushNeighbours | image-processor-worker.js:275-282 | The stack grows by the pixel's in-image 4-neighbours. |
| Regions.FillSkip | image-processor-worker.js:271-272 | Dropping a labelled or zero pixel from the stack keeps the fill invariant. |
| Regions.FillVisit | image-processor-worker.js:274-282 | Labelling a popped admitted pixel and pushing its neighbours keeps the fill invariant: the stack stays in the image, and filled pixels stay connected to the start. |
| Regions.UnfilledShrinks | image-processor-worker.js:274 | Labelling a pixel shrinks the set of admitted unlabelled pixels, the first part of the termination measure. |
| Regions.FillComplete | image-processor-worker.js:270 | When the stack is empty, the filled pixels are exactly those connected to the start. |
| Regions.FillStep | image-processor-worker.js:271-282 | One pop keeps the invariant and the labels, and lowers the pair (admitted unlabelled pixels, stack length) lexicographically. |
| Regions.FloodFill | image-processor-worker.js:267-284 | `labels[j]` becomes the label exactly for the unlabelled non-zero pixels 4-connected to the start through such pixels; every other entry is unchanged. |
| Regions.FillReachesRegion | image-processor-worker.js:258-259 | From an unlabelled non-zero pixel, the fill reaches exactly that pixel's whole region. |
| Regions.FillKeepsLabelling | image-processor-worker.js:257-262 | A fill from an unlabelled non-zero pixel gives its whole region the next label and keeps every earlier label. |
| Regions.ScanSkip | image-processor-worker.js:257-258 | Passing a zero or already labelled pixel keeps the scan invariant. |
| Regions.ScanFill | image-processor-worker.js:258-261 | Filling from the scanned pixel and incrementing nextLabel keeps the scan invariant. |
| Regions.ScanDone | image-processor-worker.js:257-264 | At the end of the scan, exactly the non-zero pixels are labelled, and two of them share a label iff they are 4-connected. The labels used are exactly 1..nextLabel-1. |
| Regions.LabelRegions | image-processor-worker.js:253-265 | `labels[i] > 0` iff `data[i] > 0`. Two non-zero pixels get the same label iff they are 4-connected. The labels are exactly 1..regions. |
| Morphology.WindowCell | image-processor-worker.js:212-214 | Every 3x3 window index of an interior pixel lies inside the image. |
| Morphology.WindowCellAt | image-processor-worker.js:212-214 | Window entry `(ky + 1) * 3 + (kx + 1)` is the index `(y + ky) * width + (x + kx)`. |
| Morphology.WindowMaxBounds | image-processor-worker.js:211-217 | The running maximum is at least every value seen so far, and it equals one of them. |
| Morphology.Dilate | image-processor-worker.js:208-219 | Each interior pixel gets the maximum of the raw mask over its 3x3 neighbourhood; every border pixel is 0. |
| Morphology.DilateIsWindowMax | image-processor-worker.js:208-219 | An interior pixel's dilated value is the maximum of its 3x3 neighbourhood; a border pixel's stays 0. |
| Morphology.DilationCovers | image-processor-worker.js:212-218 | Every raw value in an interior pixel's 3x3 neighbourhood is at most its dilated value. |
| Morphology.WindowMax | image-processor-worker.js:211-217 | The kernel loops return the maximum of the 3x3 neighbourhood. |
| Morphology.Dilation | image-processor-worker.js:208-228 | A fresh buffer holds the dilation of the raw mask. |
| Morphology.RegionSizes | image-processor-worker.js:232-238 | The map holds exactly the positive labels present, each with the number of pixels carrying it. |
| Morphology.LabelCountIsRegionSize | image-processor-worker.js:231-238 | The number of pixels carrying a region's label is the size of that 4-connected region. |
| Morphology.SameRegionSameSize | image-processor-worker.js:231-238 | Connected pixels have the same region size. |
| Morphology.RemoveSmallRegions | image-processor-worker.js:240-248 | A labelled pixel becomes 0 when its region has fewer than minSize pixels, and 255 otherwise. An unlabelled pixel keeps its value. |
| Morphology.Cleaned | image-processor-worker.js:203-248 | A pixel non-zero after dilation becomes 0 when its dilated 4-connected region has fewer than minSize pixels, and 255 otherwise; any other pixel keeps its raw value. |
| Morphology.RemovalIsCleaned | image-processor-worker.js:230-248 | Labelling the dilated mask, counting and removing give the cleaned mask, whatever labels are chosen. |
| Morphology.ApplyMorphology | image-processor-worker.js:202-251 | A fresh buffer holding the cleaned mask is returned; the raw mask is not written. |
| Morphology.BorderKeepsRawValue | image-processor-worker.js:203-248 | A border pixel of the cleaned mask keeps its raw difference value. |
| Morphology.InteriorDifferenceIsDecided | image-processor-worker.js:208-248 | An interior pixel with a raw difference is in a dilated region, so it ends up as 0 or 255. |
| Morphology.LargeRawRegionSurvives | image-processor-worker.js:208-248 | An interior difference connected, through interior differences, to at least minSize pixels is cleaned to 255. |
| Morphology.RegionIsUniform | image-processor-worker.js:240-248 | Connected pixels of the dilated mask get the same cleaned value. |
| Morphology.NoMinimumKeepsEveryRegion | image-processor-worker.js:243-246 | With a minimum size of 1 or less, every pixel of a dilated region becomes 255. |
| Morphology.ZeroMaskStaysZero | image-processor-worker.js:202-251 | An all-zero raw mask is cleaned to all zero. |
| Pipeline.Fits | image-processor-worker.js:309-310 | A buffer makes a width x height image when both sides are positive and its length is `width * height * 4`. |
| Pipeline.Prepared | image-processor-worker.js:316-321 | Without a positive blur radius the comparators see the input unchanged. |
| Pipeline.RawMask | image-processor-worker.js:324-348 | The raw mask has one entry per pixel, whichever comparator made it. |
| Pipeline.RawCount | image-processor-worker.js:327-348 | The count is the number of 255 entries of the block mask when block comparison is on, and otherwise the number of differing pixels. |
| Pipeline.Process | image-processor-worker.js:287-369 | An error reply comes exactly when a buffer does not fit `width * height * 4` with positive sides. Otherwise: both images are blurred iff the radius is positive; the block comparator is used iff it is configured, else pixelmatch; the reply carries that raw mask, that count and the cleaned mask. |
| Pipeline.IdenticalImagesReportNothing | image-processor-worker.js:287-369 | For two identical images at a threshold of 0 or more, the count is 0 and both masks are all zero, whatever the other settings. |

## Left out

- Progress messages are message I/O and are not modelled; the division by `height - 2` in the morphology progress is among them. The result and error posting become the returned `Reply`.
- The YIQ weights, the sums, the means and the distance are exact reals rather than IEEE doubles. `Math.sqrt` is replaced by an exact comparison of squares, so rounding near the threshold is not modelled.
- `includeAA` and `kernelSum` are computed but never used, so they are not modelled.
- Missing or non-numeric message fields are not modelled. These include pixelmatch's default threshold of 0.1 for an undefined threshold, and comparisons against `undefined`. Every field is a typed `Config` value.
- pixelmatch's branches for a missing `output` are not modelled: the handler always passes a buffer.
- The `ArrayBuffer`, `Uint8ClampedArray` and `ImageData` construction is a browser API. The model keeps its observable rule: positive width and height, and a buffer length of `width * height * 4`, or else an error. WebIDL conversion of non-integer sizes is not modelled.
- Labels are unbounded naturals rather than `Uint32Array` entries; an image cannot hold 2^32 regions.
- Blur.ApplyBlur: the radius is a natural number; a fractional radius is not modelled.
- BlockCompare.Compare: requires a positive blockSize. With 0 or a negative size the tile loops never advance, so the worker never replies.
- Pipeline.Process: requires a positive blockSize when block comparison is on, for the same reason.
- Regions.FloodFill: requires a positive label. labelRegions only passes labels from 1 up.
- `presets.js` is configuration data and DOM or `localStorage` access, and is not part of this model.

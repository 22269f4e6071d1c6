# Deforestation in Rondônia — the pixel arithmetic, modelled in Dafny

The script `amazonia.py` fetches before/after Sentinel-2 imagery of an area of
interest and estimates how much vegetation was lost. Almost all of it is I/O:
credentials, prompts, remote requests and image files. What is left is two
small integer computations over 8-bit rasters, and that is what this project
models and proves things about:

- **Brightness adjustment** (`request_save`): the first raster of a response
  is either returned as it is (factor 1), or every sample is widened to
  unsigned 32 bits, multiplied by the factor, clipped to [0, 255] and narrowed
  back to 8 bits. The true-colour requests use factor 6.
- **Change estimate** (module level): each NDVI visualisation is thresholded
  on channel 1: a pixel counts as vegetation when that sample is strictly
  below 177. The vegetation pixels of each raster are counted. The script then
  reports:
  - the absolute difference of the two counts (the pixel delta);
  - that delta times 25 · 25 m² (the area);
  - a percentage whose numerator uses the *signed* difference
    `count_after - count_before`.

A raster is a `seq<seq<seq<int>>>` indexed row, column, channel (`rasters.dfy`).
The brightness step is in `brightness.dfy` and the change estimate in
`change.dfy`. All of it is pure: functions over nested sequences, recursive
maps and counts, and lemmas about them.

What the proofs establish:
- With factor 1 the raster is returned unchanged. Rescaling a byte raster by 1
  would give the same raster anyway.
- With any other factor every sample is a byte. When the product does not wrap
  around 32 bits, each sample is `min(255, sample · factor)`.
- For an integer factor from 1 to 16843009 (6 among them), every output sample
  is `min(255, k · sample)` and is at least the input sample. 16843009 is the
  largest factor for which no byte sample times the factor wraps around 32
  bits: at 16843010 a sample of 255 gives 254.
- Each mask sum equals the size of the set of pixel positions whose channel-1
  sample is below 177. For an h × w raster that sum lies in [0, h · w].
- The pixel delta:
  - is at most h · w;
  - does not change when the two rasters are swapped;
  - is 0 for identical rasters.
- The area is 625 times the pixel delta. It is zero exactly when the delta is.
- The signed numerator:
  - negates when the rasters are swapped;
  - has absolute value equal to the pixel delta;
  - equals the delta exactly when the count did not fall, so it differs from
    the delta whenever vegetation was lost.
- The pixel delta is a net difference. It never exceeds the number of pixels
  whose vegetation status changed. It can be 0 while pixels did change, for
  example when one pixel loses vegetation and another gains it. The comment at
  `amazonia.py:170` speaks of "counting pixels where vegetation disappeared",
  but the code computes the net difference, and the model follows the code.

`EstimateLoss` requires the two rasters to have the same height and width.
The script never checks this. Both rasters come from requests with the same
`aoi_size`, so the assumption holds wherever the script calls it. On other
shapes numpy would still subtract the two sums.

## Model

| member | source | states |
|---|---|---|
| `Brightness.AdjustBrightness` | amazonia.py:79-82 | Only the first raster of the response is used, and the result has its shape. Factor 1 returns it unchanged. Any other factor yields a byte raster whose samples are `min(255, sample · factor)` wherever the uint32 product does not wrap. |
| `Brightness.ScaleSample` | amazonia.py:80 | Widen, multiply, clip, narrow: the result is a byte, equal to `min(255, s · k)` whenever `0 <= s · k < 2^32`. |
| `Brightness.Wrap32` | amazonia.py:80 | The uint32 product `astype(np.uint32) * factor` is taken modulo 2^32: the result is in [0, 2^32) and equals the value whenever that is already in range. |
| `Brightness.Clip` | amazonia.py:80 | `.clip(0, 255)`: the result is a byte, equal to the input when it is a byte, 0 below the range and 255 above it. |
| `Brightness.Narrow8` | amazonia.py:80 | `np.uint8(...)`: the result is a byte, and a byte is unchanged, so narrowing after the clip loses nothing. |
| `Brightness.ScalePixel` | amazonia.py:80 | One pixel rescaled: same channel count, every channel mapped through `ScaleSample`. |
| `Brightness.ScaleRow` | amazonia.py:80 | One row rescaled: same width, every pixel mapped through `ScalePixel`. |
| `Brightness.ScaleRaster` | amazonia.py:80 | The element-wise rescaling keeps the shape, yields a byte raster, and maps every sample `img[i][j][c]` to `ScaleSample(img[i][j][c], k)`. |
| `Brightness.IntegerFactorBrightens` | amazonia.py:80-82 | For a byte raster and an integer factor 1 <= k <= 16843009 (the script's 6 included), the shape is kept and every output sample is `min(255, k · sample)`, never below the input sample. |
| `Brightness.NoWrap` | amazonia.py:80 | A byte sample times a factor in [1, 16843009] stays in [sample, 2^32). |
| `Brightness.ScaleByOneIsIdentity` | amazonia.py:79-82 | On a byte raster, rescaling by 1 is the identity, so the factor-1 shortcut and the rescaling branch agree. |
| `Brightness.MaxSafeFactorIsTight` | amazonia.py:80 | At 16843009 the brightest sample stays 255. One more and its uint32 product wraps, giving 254. |
| `ChangeEstimator.MaskRow` | amazonia.py:167-168 | One mask row has one entry per pixel, true exactly when that pixel's channel-1 sample is strictly below 177. |
| `ChangeEstimator.Mask` | amazonia.py:164-168 | The mask has the raster's height and width. Entry (i, j) is true exactly when channel 1 of pixel (i, j) is strictly below 177, so a sample of 177 is not vegetation. |
| `ChangeEstimator.RowSum` | amazonia.py:171 | The count of true entries in a mask row is at most the row's length. |
| `ChangeEstimator.IsVegetation` | amazonia.py:164-167 | The per-pixel test `sample[1] < 177` is strict: a channel-1 sample of 177 is not vegetation, one of 176 is. |
| `ChangeEstimator.VegetationCount` | amazonia.py:167-171 | `mask.sum()` of a raster's mask equals the number of pixel positions whose channel-1 sample is below 177. |
| `ChangeEstimator.MaskSumCountsCells` | amazonia.py:171 | `mask.sum()` (modelled by `MaskSum`, which carries no contract of its own): the sum of a 2-D boolean mask is the number of positions where it is true. |
| `ChangeEstimator.RowSumCountsCells` | amazonia.py:171 | The sum of one mask row is the number of positions in it where it is true. |
| `ChangeEstimator.MaskSumBounded` | amazonia.py:171 | The sum of a mask with rows of width w is at most height · w. |
| `ChangeEstimator.VegetationCountBounded` | amazonia.py:164-168 | The vegetation count of an h × w raster lies in [0, h · w]. |
| `ChangeEstimator.Abs` | amazonia.py:171 | `np.abs` of an integer: the result is non-negative, at least `x` and `-x`, and equal to one of them. |
| `ChangeEstimator.PercentNumerator` | amazonia.py:182 | The integer numerator of the percentage, `signedDelta * 100`: negative exactly when vegetation was lost, zero exactly when the counts agree, and 100 times the pixel delta in size. |
| `ChangeEstimator.Metrics` | amazonia.py:171-182 | From two counts: the pixel delta is the absolute value of the signed numerator `count_after - count_before`. The two agree exactly when the count did not fall, and are opposites exactly when it did not rise. The area is the delta times 625 and is 0 exactly when the delta is. |
| `ChangeEstimator.EstimateLoss` | amazonia.py:164-182 | For two rasters of equal height and width, the signed numerator is `VegetationCount(after) - VegetationCount(before)`, the pixel delta is its absolute value, and the area is 625 times the delta. |
| `ChangeEstimator.PixelsChangedBounded` | amazonia.py:171-175 | For two h × w rasters the pixel delta is at most h · w, and the area is at most h · w · 625. |
| `ChangeEstimator.SwapSymmetry` | amazonia.py:171-182 | Swapping before and after keeps the pixel delta and the area, and negates both the signed difference and the percentage numerator. |
| `ChangeEstimator.IdenticalRastersNoChange` | amazonia.py:167-175 | Identical rasters give pixel delta 0, area 0 and signed numerator 0. |
| `ChangeEstimator.ReportedFiguresExample` | amazonia.py:171-182 | With 100000 vegetation pixels before and 90000 after, the figures are 10000 pixels, 6250000 m², a signed difference of -10000 and a percentage numerator of -1000000 over 2183 · 1557 = 3398931. |
| `ChangeEstimator.NetDifferenceBound` | amazonia.py:171 | Two sets differ in size by at most the size of any set that contains both of their differences. |
| `ChangeEstimator.PixelsChangedAtMostChangedPixels` | amazonia.py:170-171 | The pixel delta never exceeds the number of pixels whose vegetation status differs between the rasters. |
| `ChangeEstimator.NetDeltaCanHideChange` | amazonia.py:170-171 | Two 1 × 2 rasters in which one pixel loses vegetation and the other gains it: two pixels change status, yet the pixel delta is 0. |
| `ChangeEstimator.SignedDeltaDiffersOnLoss` | amazonia.py:171-182 | A pixel that loses vegetation gives pixel delta 1 but signed numerator -1, so the percentage line is not the pixel delta scaled. |

## Left out

- SentinelHub configuration, saving and loading the credential profile
  (amazonia.py:7-14, 55): calls into a foreign library and process-wide
  state.
- The interactive prompts and the `float(...)` parsing of the bounding box
  (amazonia.py:17-23): standard input.
- `BBox` and `bbox_to_dimensions` (amazonia.py:26-28, 56-57): library calls
  that work in float degrees. The rasters' dimensions are whatever the service
  returns.
- The remote requests and `get_data()` (amazonia.py:60-76, 128-145): the
  response is a parameter, a non-empty sequence of rasters. The request at
  128-145 produces `ndvi_color_imgs`, which is never used. An empty response,
  on which `imgs[0]` would raise, is excluded by a precondition.
- The evalscripts (amazonia.py:34-45, 100-125): they run on the server, and
  the NDVI formula and colour ramp are floating point.
- Encoding and writing the image files with PIL (amazonia.py:84-87): file
  I/O through a foreign library.
- Brightness.AdjustBrightness: covers integer factors in [0, 2^32) only. The
  NDVI requests' factor 0.8 (amazonia.py:148, 152) needs float multiplication
  and truncation to uint8. A negative factor or one beyond uint32 depends on
  numpy's type-promotion rules.
- The hectare figure `area_m2 * 0.0001` (amazonia.py:176): floating point.
- The percentage line's division by `2183 * 1557` and its two-decimal
  formatting (amazonia.py:182). Only its integer numerator is modelled
  (`PercentNumerator`, the signed count difference times 100); the line prints
  that numerator divided by `PercentDenominator`.
- ChangeEstimator.Mask and ChangeEstimator.EstimateLoss (and `MaskRow`,
  `VegetationCount`): their `HasChannel` precondition excludes rasters with
  fewer than two channels. On such a raster `np_image1[:, :, 1]`
  (amazonia.py:167-168) raises IndexError, even when it has zero rows; the
  model does not return that error. The script never reaches it, because the
  NDVI evalscript outputs 4 bands (amazonia.py:107). Also, `Raster` allows
  ragged rows while numpy arrays are always rectangular; the model's counts
  are defined on ragged rasters too, and the lemmas that need a rectangle
  (`VegetationCountBounded`, `PixelsChangedBounded`) require `HasExtent`.
- The four `print` lines (amazonia.py:179-182): standard output.
- 64-bit overflow of numpy's integer sums is not modelled, since a mask has
  far fewer than 2^63 entries.

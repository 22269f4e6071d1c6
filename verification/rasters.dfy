/**
 * Rasters as the imagery service returns them: a height x width x channel
 * grid of 8-bit samples, row-major, one sequence per level of the grid.
 */
module Rasters {

  /** `r[i][j][c]` is channel `c` of the pixel in row `i`, column `j`. */
  type Raster = seq<seq<seq<int>>>

  const ByteMax := 255

  predicate IsByte(x: int) {
    0 <= x <= ByteMax
  }

  function Min(a: int, b: int): int {
    if a <= b then a else b
  }

  /** Every sample of `r` fits in an unsigned 8-bit integer. */
  predicate IsByteRaster(r: Raster) {
    forall i, j, c :: 0 <= i < |r| && 0 <= j < |r[i]| && 0 <= c < |r[i][j]| ==> IsByte(r[i][j][c])
  }

  /** `r` has `h` rows of `w` pixels each. */
  predicate HasExtent(r: Raster, h: nat, w: nat) {
    |r| == h && forall i :: 0 <= i < h ==> |r[i]| == w
  }

  /** `a` and `b` have the same height and the same width in every row. */
  predicate SameExtent(a: Raster, b: Raster) {
    |a| == |b| && forall i :: 0 <= i < |a| ==> |a[i]| == |b[i]|
  }

  /** `a` and `b` have the same height, width and channel count everywhere. */
  predicate SameShape(a: Raster, b: Raster) {
    && SameExtent(a, b)
    && forall i, j :: 0 <= i < |a| && 0 <= j < |a[i]| ==> |a[i][j]| == |b[i][j]|
  }

  /** Every pixel of `r` has a channel with index `c`. */
  predicate HasChannel(r: Raster, c: nat) {
    forall i, j :: 0 <= i < |r| && 0 <= j < |r[i]| ==> c < |r[i][j]|
  }
}

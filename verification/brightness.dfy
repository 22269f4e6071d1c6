/**
 * The brightness post-processing of `request_save`: the first raster of the
 * response is either passed through (factor 1) or widened to unsigned 32-bit
 * samples, multiplied by the factor, clipped to [0, 255] and narrowed back to
 * unsigned 8-bit samples.
 *
 * The factor is an integer here (the true-colour requests use 6). Multiplying
 * a uint32 array by an integer that fits in uint32 keeps the uint32 type, so
 * the product wraps modulo 2^32 before it is clipped; the model writes that
 * wrap-around out.
 */
module Brightness {
  import opened Rasters

  const Uint32Modulus := 0x1_0000_0000

  /** The largest factor for which no byte sample times the factor wraps. */
  const MaxSafeFactor := 16843009

  /** Unsigned 32-bit arithmetic: the value modulo 2^32. */
  function Wrap32(x: int): (r: int)
    ensures 0 <= r < Uint32Modulus
    ensures 0 <= x < Uint32Modulus ==> r == x
  {
    x % Uint32Modulus
  }

  /** `clip(0, 255)` */
  function Clip(x: int): (r: int)
    ensures IsByte(r)
    ensures IsByte(x) ==> r == x
    ensures x < 0 ==> r == 0
    ensures x > ByteMax ==> r == ByteMax
  {
    if x < 0 then 0 else if x > ByteMax then ByteMax else x
  }

  /** Conversion to unsigned 8-bit: the value modulo 2^8. */
  function Narrow8(x: int): (r: int)
    ensures IsByte(r)
    ensures IsByte(x) ==> r == x
  {
    x % 256
  }

  /** One output sample: widen, multiply, clip, narrow. */
  function ScaleSample(s: int, k: nat): (r: int)
    ensures IsByte(r)
    ensures 0 <= s * k < Uint32Modulus ==> r == Min(ByteMax, s * k)
  {
    Narrow8(Clip(Wrap32(s * k)))
  }

  function ScalePixel(p: seq<int>, k: nat): (q: seq<int>)
    ensures |q| == |p|
    ensures forall c :: 0 <= c < |p| ==> q[c] == ScaleSample(p[c], k)
  {
    if p == [] then [] else [ScaleSample(p[0], k)] + ScalePixel(p[1..], k)
  }

  function ScaleRow(row: seq<seq<int>>, k: nat): (out: seq<seq<int>>)
    ensures |out| == |row|
    ensures forall j :: 0 <= j < |row| ==> out[j] == ScalePixel(row[j], k)
  {
    if row == [] then [] else [ScalePixel(row[0], k)] + ScaleRow(row[1..], k)
  }

  /** The element-wise rescaling of a whole raster by the factor `k`. */
  function ScaleRaster(img: Raster, k: nat): (r: Raster)
    ensures SameShape(r, img)
    ensures IsByteRaster(r)
    ensures forall i, j, c :: 0 <= i < |img| && 0 <= j < |img[i]| && 0 <= c < |img[i][j]| ==>
      r[i][j][c] == ScaleSample(img[i][j][c], k)
  {
    if img == [] then [] else [ScaleRow(img[0], k)] + ScaleRaster(img[1..], k)
  }

  /**
   * The raster `request_save` returns, given the rasters of the response
   * (of which only the first is used) and the brightness factor.
   */
  function AdjustBrightness(imgs: seq<Raster>, factor: nat): (r: Raster)
    requires |imgs| > 0
    requires factor < Uint32Modulus
    ensures SameShape(r, imgs[0])
    ensures factor == 1 ==> r == imgs[0]
    ensures factor != 1 ==> IsByteRaster(r)
    ensures factor != 1 ==> forall i, j, c ::
      0 <= i < |r| && 0 <= j < |r[i]| && 0 <= c < |r[i][j]| && 0 <= imgs[0][i][j][c] * factor < Uint32Modulus ==>
      r[i][j][c] == Min(ByteMax, imgs[0][i][j][c] * factor)
  {
    if factor != 1 then ScaleRaster(imgs[0], factor) else imgs[0]
  }

  /** A byte sample times a factor in [1, MaxSafeFactor] never wraps. */
  lemma NoWrap(s: int, k: nat)
    requires IsByte(s) && 1 <= k <= MaxSafeFactor
    ensures s <= s * k < Uint32Modulus
  {
    assert s * k <= ByteMax * k by {
      assert (ByteMax - s) * k >= 0;
    }
  }

  /**
   * For an integer factor k >= 1 that cannot wrap (6 among them), every
   * output sample is min(255, k * sample), hence never darker than the input.
   */
  lemma IntegerFactorBrightens(imgs: seq<Raster>, k: nat)
    requires |imgs| > 0 && IsByteRaster(imgs[0])
    requires 1 <= k <= MaxSafeFactor
    ensures SameShape(AdjustBrightness(imgs, k), imgs[0])
    ensures IsByteRaster(AdjustBrightness(imgs, k))
    ensures forall i, j, c :: 0 <= i < |imgs[0]| && 0 <= j < |imgs[0][i]| && 0 <= c < |imgs[0][i][j]| ==>
      && AdjustBrightness(imgs, k)[i][j][c] == Min(ByteMax, k * imgs[0][i][j][c])
      && AdjustBrightness(imgs, k)[i][j][c] >= imgs[0][i][j][c]
  {
    var img := imgs[0];
    var r := AdjustBrightness(imgs, k);
    forall i, j, c | 0 <= i < |img| && 0 <= j < |img[i]| && 0 <= c < |img[i][j]|
      ensures r[i][j][c] == Min(ByteMax, k * img[i][j][c]) && r[i][j][c] >= img[i][j][c]
    {
      NoWrap(img[i][j][c], k);
      if k != 1 {
        assert r[i][j][c] == ScaleSample(img[i][j][c], k);
      }
    }
  }

  /**
   * On byte rasters the factor-1 shortcut changes nothing: rescaling by 1
   * would return the same raster.
   */
  lemma ScaleByOneIsIdentity(img: Raster)
    requires IsByteRaster(img)
    ensures ScaleRaster(img, 1) == img
  {
    var r := ScaleRaster(img, 1);
    forall i | 0 <= i < |img| ensures r[i] == img[i] {
      forall j | 0 <= j < |img[i]| ensures r[i][j] == img[i][j] {
        assert |r[i][j]| == |img[i][j]|;
      }
    }
  }

  /** MaxSafeFactor is tight: one more and the brightest sample wraps to 254. */
  lemma MaxSafeFactorIsTight()
    ensures ScaleSample(ByteMax, MaxSafeFactor + 1) == 254
    ensures ScaleSample(ByteMax, MaxSafeFactor) == ByteMax
  {
  }
}

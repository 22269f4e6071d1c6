/**
 * The change estimate at the end of the script: each NDVI visualisation is
 * thresholded on its green channel, the vegetation pixels of each are
 * counted, and the two counts are turned into a pixel delta, an area in
 * square metres and the signed numerator of a percentage.
 */
module ChangeEstimator {
  import opened Rasters

  /** Channel index 1 (green) carries the NDVI colour ramp. */
  const GreenChannel := 1

  /** A pixel is vegetation when its green sample is strictly below this. */
  const Threshold := 177

  /** Each pixel is 25 m x 25 m. */
  const Resolution := 25
  const PixelAreaM2 := Resolution * Resolution

  /** The fixed pixel total the percentage line divides by. */
  const PercentDenominator := 2183 * 1557

  /** The test is strict: a green sample of exactly 177 is not vegetation. */
  predicate IsVegetation(p: seq<int>)
    requires GreenChannel < |p|
    ensures p[GreenChannel] == Threshold ==> !IsVegetation(p)
    ensures p[GreenChannel] == Threshold - 1 ==> IsVegetation(p)
  {
    p[GreenChannel] < Threshold
  }

  function MaskRow(row: seq<seq<int>>): (m: seq<bool>)
    requires forall j :: 0 <= j < |row| ==> GreenChannel < |row[j]|
    ensures |m| == |row|
    ensures forall j :: 0 <= j < |row| ==> (m[j] <==> IsVegetation(row[j]))
  {
    if row == [] then [] else [IsVegetation(row[0])] + MaskRow(row[1..])
  }

  /** The boolean mask `img[:, :, 1] < threshold`. */
  function Mask(img: Raster): (m: seq<seq<bool>>)
    requires HasChannel(img, GreenChannel)
    ensures |m| == |img|
    ensures forall i :: 0 <= i < |img| ==> |m[i]| == |img[i]|
    ensures forall i, j :: 0 <= i < |img| && 0 <= j < |img[i]| ==>
      (m[i][j] <==> IsVegetation(img[i][j]))
  {
    if img == [] then [] else [MaskRow(img[0])] + Mask(img[1..])
  }

  /** Number of true entries of one mask row. */
  function RowSum(row: seq<bool>): (n: nat)
    ensures n <= |row|
  {
    if row == [] then 0 else RowSum(row[..|row| - 1]) + (if row[|row| - 1] then 1 else 0)
  }

  /** `mask.sum()`: the number of true entries of the whole mask. */
  function MaskSum(m: seq<seq<bool>>): nat
  {
    if m == [] then 0 else MaskSum(m[..|m| - 1]) + RowSum(m[|m| - 1])
  }

  /** `mask.sum()` of the raster's mask: exactly its number of vegetation pixels. */
  function VegetationCount(img: Raster): (n: nat)
    requires HasChannel(img, GreenChannel)
    ensures n == |VegetationPixels(img)|
  {
    MaskSumCountsCells(Mask(img));
    assert TrueCells(Mask(img)) == VegetationPixels(img);
    MaskSum(Mask(img))
  }

  /** `np.abs` on an integer. */
  function Abs(x: int): (n: nat)
    ensures n >= x && n >= -x
    ensures n == x || n == -x
  {
    if x < 0 then -x else x
  }

  /** The integer numerator of the percentage line: the signed delta times 100. */
  function PercentNumerator(m: ChangeMetrics): (n: int)
    ensures n < 0 <==> m.signedDelta < 0
    ensures n == 0 <==> m.signedDelta == 0
    ensures Abs(n) == 100 * Abs(m.signedDelta)
  {
    m.signedDelta * 100
  }

  /**
   * The figures the script reports. `signedDelta` is the signed count
   * difference; the percentage line reports
   * PercentNumerator(m) / PercentDenominator.
   */
  datatype ChangeMetrics = ChangeMetrics(pixelsChanged: nat, areaM2: nat, signedDelta: int)

  /** The metrics for two vegetation counts. */
  function Metrics(countBefore: nat, countAfter: nat): (m: ChangeMetrics)
    ensures m.pixelsChanged == Abs(m.signedDelta)
    ensures m.signedDelta == countAfter - countBefore
    ensures m.signedDelta == m.pixelsChanged <==> countBefore <= countAfter
    ensures m.signedDelta + m.pixelsChanged == 0 <==> countAfter <= countBefore
    ensures m.areaM2 == m.pixelsChanged * PixelAreaM2
    ensures m.areaM2 == 0 <==> m.pixelsChanged == 0
  {
    var delta := countAfter - countBefore;
    ChangeMetrics(Abs(delta), Abs(delta) * PixelAreaM2, delta)
  }

  /**
   * The change estimate for a `before` and an `after` raster of the same
   * height and width.
   */
  function EstimateLoss(before: Raster, after: Raster): (m: ChangeMetrics)
    requires SameExtent(before, after)
    requires HasChannel(before, GreenChannel) && HasChannel(after, GreenChannel)
    ensures m.signedDelta == VegetationCount(after) - VegetationCount(before)
    ensures m.pixelsChanged == Abs(VegetationCount(after) - VegetationCount(before))
    ensures m.areaM2 == m.pixelsChanged * PixelAreaM2
  {
    Metrics(VegetationCount(before), VegetationCount(after))
  }

  // ---------------------------------------------------------------------
  // Counting

  /** Positions (i, j) where the mask is true. */
  function TrueCells(m: seq<seq<bool>>): set<(int, int)>
  {
    set i, j | 0 <= i < |m| && 0 <= j < |m[i]| && m[i][j] :: (i, j)
  }

  function RowCells(i: int, row: seq<bool>): set<(int, int)>
  {
    set j | 0 <= j < |row| && row[j] :: (i, j)
  }

  /** Pixel positions whose green sample is below the threshold. */
  function VegetationPixels(img: Raster): set<(int, int)>
    requires HasChannel(img, GreenChannel)
  {
    set i, j | 0 <= i < |img| && 0 <= j < |img[i]| && IsVegetation(img[i][j]) :: (i, j)
  }

  lemma {:induction false} RowSumCountsCells(i: int, row: seq<bool>)
    ensures |RowCells(i, row)| == RowSum(row)
  {
    if row != [] {
      var n := |row| - 1;
      var init := row[..n];
      RowSumCountsCells(i, init);
      if row[n] {
        assert RowCells(i, row) == RowCells(i, init) + {(i, n)};
        assert (i, n) !in RowCells(i, init);
      } else {
        assert RowCells(i, row) == RowCells(i, init);
      }
    }
  }

  lemma {:induction false} MaskSumCountsCells(m: seq<seq<bool>>)
    ensures |TrueCells(m)| == MaskSum(m)
  {
    if m == [] {
      assert TrueCells(m) == {};
    } else {
      var h := |m| - 1;
      var init := m[..h];
      MaskSumCountsCells(init);
      RowSumCountsCells(h, m[h]);
      assert TrueCells(m) == TrueCells(init) + RowCells(h, m[h]);
      assert TrueCells(init) * RowCells(h, m[h]) == {};
    }
  }

  lemma {:induction false} MaskSumBounded(m: seq<seq<bool>>, w: nat)
    requires forall i :: 0 <= i < |m| ==> |m[i]| == w
    ensures MaskSum(m) <= |m| * w
  {
    if m != [] {
      var h := |m| - 1;
      MaskSumBounded(m[..h], w);
      assert |m| * w == h * w + w;
    }
  }

  /** The vegetation count of an h x w raster lies in [0, h * w]. */
  lemma VegetationCountBounded(img: Raster, h: nat, w: nat)
    requires HasExtent(img, h, w) && HasChannel(img, GreenChannel)
    ensures 0 <= VegetationCount(img) <= h * w
  {
    MaskSumBounded(Mask(img), w);
  }

  // ---------------------------------------------------------------------
  // Properties of the estimate

  /** The pixel delta of two h x w rasters is at most h * w. */
  lemma PixelsChangedBounded(before: Raster, after: Raster, h: nat, w: nat)
    requires HasExtent(before, h, w) && HasExtent(after, h, w)
    requires HasChannel(before, GreenChannel) && HasChannel(after, GreenChannel)
    ensures EstimateLoss(before, after).pixelsChanged <= h * w
    ensures EstimateLoss(before, after).areaM2 <= h * w * PixelAreaM2
  {
    var cells := h * w;
    VegetationCountBounded(before, h, w);
    VegetationCountBounded(after, h, w);
    var m := EstimateLoss(before, after);
    assert m.pixelsChanged <= cells;
    assert m.areaM2 == m.pixelsChanged * PixelAreaM2;
  }

  /**
   * Swapping before and after keeps the pixel delta and the area and
   * negates the signed numerator of the percentage.
   */
  lemma SwapSymmetry(before: Raster, after: Raster)
    requires SameExtent(before, after)
    requires HasChannel(before, GreenChannel) && HasChannel(after, GreenChannel)
    ensures SameExtent(after, before)
    ensures EstimateLoss(after, before).pixelsChanged == EstimateLoss(before, after).pixelsChanged
    ensures EstimateLoss(after, before).areaM2 == EstimateLoss(before, after).areaM2
    ensures EstimateLoss(after, before).signedDelta == -EstimateLoss(before, after).signedDelta
    ensures PercentNumerator(EstimateLoss(after, before)) == -PercentNumerator(EstimateLoss(before, after))
  {
  }

  /** The figures for 100000 vegetation pixels before and 90000 after. */
  lemma ReportedFiguresExample()
    ensures Metrics(100000, 90000) == ChangeMetrics(10000, 6250000, -10000)
    ensures PercentNumerator(Metrics(100000, 90000)) == -1000000
    ensures PercentDenominator == 3398931
  {
  }

  /** Identical rasters report no change at all. */
  lemma IdenticalRastersNoChange(img: Raster)
    requires HasChannel(img, GreenChannel)
    ensures EstimateLoss(img, img) == ChangeMetrics(0, 0, 0)
  {
  }

  /** Positions whose vegetation status differs between the two rasters. */
  function ChangedPixels(before: Raster, after: Raster): set<(int, int)>
    requires SameExtent(before, after)
    requires HasChannel(before, GreenChannel) && HasChannel(after, GreenChannel)
  {
    set i, j | 0 <= i < |before| && 0 <= j < |before[i]| &&
      IsVegetation(before[i][j]) != IsVegetation(after[i][j]) :: (i, j)
  }

  lemma SubsetCard<T>(a: set<T>, b: set<T>)
    requires a <= b
    ensures |a| <= |b|
  {
    assert b == a + (b - a);
  }

  /** Two sets differ in size by no more than a set holding both differences. */
  lemma NetDifferenceBound<T>(a: set<T>, b: set<T>, diff: set<T>)
    requires a - b <= diff && b - a <= diff
    ensures Abs(|a| - |b|) <= |diff|
  {
    var common := a * b;
    assert a == (a - b) + common;
    assert b == (b - a) + common;
    SubsetCard(a - b, diff);
    SubsetCard(b - a, diff);
  }

  /**
   * The pixel delta is a net difference of counts: it never exceeds the
   * number of pixels whose vegetation status actually changed.
   */
  lemma PixelsChangedAtMostChangedPixels(before: Raster, after: Raster)
    requires SameExtent(before, after)
    requires HasChannel(before, GreenChannel) && HasChannel(after, GreenChannel)
    ensures EstimateLoss(before, after).pixelsChanged <= |ChangedPixels(before, after)|
  {
    var vb, va := VegetationPixels(before), VegetationPixels(after);
    var changed := ChangedPixels(before, after);
    assert va - vb <= changed;
    assert vb - va <= changed;
    NetDifferenceBound(va, vb, changed);
  }

  /**
   * The net delta can hide change: one pixel loses vegetation, another gains
   * it, and the reported delta is 0. The same pair shows the signed numerator
   * differs from the pixel delta once vegetation is lost.
   */
  lemma NetDeltaCanHideChange()
    ensures var before: Raster := [[[0, 0, 0], [0, 255, 0]]];
            var after: Raster := [[[0, 255, 0], [0, 0, 0]]];
            && SameExtent(before, after)
            && HasChannel(before, GreenChannel) && HasChannel(after, GreenChannel)
            && EstimateLoss(before, after).pixelsChanged == 0
            && |ChangedPixels(before, after)| == 2
  {
    var before: Raster := [[[0, 0, 0], [0, 255, 0]]];
    var after: Raster := [[[0, 255, 0], [0, 0, 0]]];
    assert ChangedPixels(before, after) == {(0, 0), (0, 1)};
    assert VegetationPixels(before) == {(0, 0)};
    assert VegetationPixels(after) == {(0, 1)};
  }

  /** When vegetation is lost, the signed numerator is the negated pixel delta. */
  lemma SignedDeltaDiffersOnLoss()
    ensures var before: Raster := [[[0, 0, 0]]];
            var after: Raster := [[[0, 255, 0]]];
            && SameExtent(before, after)
            && HasChannel(before, GreenChannel) && HasChannel(after, GreenChannel)
            && EstimateLoss(before, after).pixelsChanged == 1
            && EstimateLoss(before, after).signedDelta == -1
  {
    var before: Raster := [[[0, 0, 0]]];
    var after: Raster := [[[0, 255, 0]]];
    assert VegetationPixels(before) == {(0, 0)};
    assert VegetationPixels(after) == {};
  }
}

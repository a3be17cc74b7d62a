/** The cell-wise rules of GEE_Code.js around the threshold: the two masks of
    the preprocessing (lines 12-14 and 20-21) and the flood classification
    (line 67). Only the VV band is modelled; the other bands of the Sentinel-1
    scene receive the same masks and play no part in the result.

    The speckle filter of line 17 (`focal_median`) is a spatial filter of the
    platform; it enters as the function parameter `smooth`, about which
    nothing is assumed except where a lemma says so. */
module FloodMapping {
  import opened Rasters

  /** The `datamask` value of mapped land in the Hansen dataset (line 13). */
  const LandCode: real := 1.0

  /** The VV backscatter floor below which a cell counts as seasonal water
      (line 20), in dB. */
  const SeasonalWaterFloorDb: real := -16.0

  /** Lines 13-14: `image.updateMask(datamask.eq(1))`. A cell is kept exactly
      when it is present and the data mask there is present and equal to 1. */
  function MaskWaterBodies(image: Raster, datamask: Raster): (out: Raster)
    ensures |out| == |image|
    ensures forall k :: 0 <= k < |out| ==>
      (out[k].Some? <==> image[k].Some? && At(datamask, k) == Some(LandCode))
    ensures forall k :: 0 <= k < |out| && out[k].Some? ==> out[k] == image[k]
  {
    UpdateMask(image, CompareConst(datamask, Eq, LandCode))
  }

  /** Lines 20-21: `image.updateMask(image.gt(-16))`. A cell is kept exactly
      when it is present and its value is above the floor. */
  function MaskSeasonalWater(image: Raster): (out: Raster)
    ensures |out| == |image|
    ensures forall k :: 0 <= k < |out| ==>
      (out[k].Some? <==> image[k].Some? && image[k].value > SeasonalWaterFloorDb)
    ensures forall k :: 0 <= k < |out| && out[k].Some? ==> out[k] == image[k]
  {
    UpdateMask(image, CompareConst(image, Gt, SeasonalWaterFloorDb))
  }

  /** Lines 12-21: mask water bodies, smooth, mask seasonal water. Whatever
      the filter does, no surviving cell is at or below the floor. */
  function Preprocess(raw: Raster, datamask: Raster, smooth: Raster -> Raster): (out: Raster)
    ensures forall k :: 0 <= k < |out| && out[k].Some? ==> out[k].value > SeasonalWaterFloorDb
  {
    MaskSeasonalWater(smooth(MaskWaterBodies(raw, datamask)))
  }

  /** The filter never brings back a cell that is masked in its input. */
  predicate KeepsMasked(smooth: Raster -> Raster, r: Raster)
  {
    forall k :: 0 <= k < |smooth(r)| && smooth(r)[k].Some? ==> At(r, k).Some?
  }

  /** Every cell that survives preprocessing had a raw value and a data mask
      of 1, and has a smoothed VV above the floor, provided the speckle filter
      does not unmask cells (lines 13-14, 17, 20-21). */
  lemma PreprocessSurvivors(raw: Raster, datamask: Raster, smooth: Raster -> Raster)
    requires KeepsMasked(smooth, MaskWaterBodies(raw, datamask))
    ensures forall k :: 0 <= k < |Preprocess(raw, datamask, smooth)| && Preprocess(raw, datamask, smooth)[k].Some? ==>
      && At(raw, k).Some?
      && At(datamask, k) == Some(LandCode)
      && Preprocess(raw, datamask, smooth)[k].value > SeasonalWaterFloorDb
  {
  }

  /** A flood map cell: present, and flagged 1 by the classifier. */
  predicate IsFlood(cell: Option<real>)
  {
    cell == Some(1.0)
  }

  /** Line 67: `image.select('VV').lt(threshold)`. The flood map has the
      image's mask; an unmasked cell is flood iff its VV is below the
      threshold, and is 0 iff its VV is at or above the threshold. */
  function Classify(image: Raster, threshold: real): (floodMap: Raster)
    ensures |floodMap| == |image|
    ensures forall k :: 0 <= k < |image| ==> (floodMap[k].Some? <==> image[k].Some?)
    ensures forall k :: 0 <= k < |image| ==>
      (IsFlood(floodMap[k]) <==> image[k].Some? && image[k].value < threshold)
    ensures forall k :: 0 <= k < |image| ==>
      (floodMap[k] == Some(0.0) <==> image[k].Some? && image[k].value >= threshold)
    ensures forall k :: 0 <= k < |image| && floodMap[k].Some? ==>
      floodMap[k].value == 0.0 || floodMap[k].value == 1.0
  {
    CompareConst(image, Lt, threshold)
  }
}

/** The script of GEE_Code.js as one function from its inputs to its results:
    preprocess the VV band (lines 12-21), choose the threshold (line 63),
    classify (line 67) and reduce the population per region (lines 83-97).

    The histogram of line 24 is computed by the platform from the preprocessed
    band; here it is an input, assumed to be that histogram. All rasters lie on
    the population raster's grid. */
module FloodImpact {
  import opened RealSeqs
  import opened Rasters
  import opened Otsu
  import opened FloodMapping
  import opened Zonal

  datatype Report = Report(threshold: real, floodMap: Raster, baseline: seq<ZonalRow>, affected: seq<ZonalRow>)

  function Run(raw: Raster, datamask: Raster, smooth: Raster -> Raster, histogram: Histogram,
               hrsl: Raster, regions: seq<Region>): (r: Result<Report, OtsuError>)
    ensures r.Success? <==> Threshold(histogram).Success?
    ensures r.Failure? ==> r.error == Threshold(histogram).error
    ensures r.Success? ==> r.value.threshold == Threshold(histogram).value
    ensures r.Success? ==>
      var image := Preprocess(raw, datamask, smooth);
      && |r.value.floodMap| == |image|
      && (forall k :: 0 <= k < |image| ==> (r.value.floodMap[k].Some? <==> image[k].Some?))
      && (forall k :: 0 <= k < |image| ==>
            (IsFlood(r.value.floodMap[k]) <==> image[k].Some? && image[k].value < r.value.threshold))
      && (forall k :: 0 <= k < |image| ==>
            (r.value.floodMap[k] == Some(0.0) <==> image[k].Some? && image[k].value >= r.value.threshold))
    ensures r.Success? ==>
      && |r.value.baseline| == |regions| == |r.value.affected|
      && forall j :: 0 <= j < |regions| ==>
           r.value.baseline[j].name == regions[j].name == r.value.affected[j].name
    ensures r.Success? ==>
      forall j :: 0 <= j < |regions| ==>
        && r.value.baseline[j].sum == RegionSum(hrsl, regions[j].coverage)
        && r.value.affected[j].sum == FloodWeight(hrsl, r.value.floodMap, regions[j].coverage)
    ensures r.Success? && NonNegativeCells(hrsl) ==>
      forall j :: 0 <= j < |regions| && NonNegative(regions[j].coverage) ==>
        0.0 <= r.value.affected[j].sum <= r.value.baseline[j].sum
  {
    var image := Preprocess(raw, datamask, smooth);
    match Threshold(histogram)
    case Failure(e) => Failure(e)
    case Success(t) =>
      var floodMap := Classify(image, t);
      var baseline := DistrictSums(hrsl, regions);
      var affected := AffectedSums(hrsl, floodMap, regions);
      OneRowPerRegion(hrsl, floodMap, regions);
      forall j | 0 <= j < |regions|
        ensures affected[j].sum == FloodWeight(hrsl, floodMap, regions[j].coverage)
      {
        AffectedIsFloodWeight(hrsl, floodMap, regions, j);
      }
      assert NonNegativeCells(hrsl) ==>
        forall j :: 0 <= j < |regions| && NonNegative(regions[j].coverage) ==>
          0.0 <= affected[j].sum <= baseline[j].sum
      by {
        if NonNegativeCells(hrsl) {
          forall j | 0 <= j < |regions| && NonNegative(regions[j].coverage)
            ensures 0.0 <= affected[j].sum <= baseline[j].sum
          {
            AffectedWithinBaseline(hrsl, floodMap, regions, j);
          }
        }
      }
      Success(Report(t, floodMap, baseline, affected))
  }

  /** Masked cells stay masked: a cell that preprocessing drops is absent
      from the flood map and from the affected-population layer. */
  lemma MaskedCellsStayMasked(raw: Raster, datamask: Raster, smooth: Raster -> Raster,
                              threshold: real, hrsl: Raster, k: nat)
    requires k < |Preprocess(raw, datamask, smooth)| && Preprocess(raw, datamask, smooth)[k].None?
    ensures Classify(Preprocess(raw, datamask, smooth), threshold)[k].None?
    ensures At(Multiply(hrsl, Classify(Preprocess(raw, datamask, smooth), threshold)), k).None?
  {
  }

  /** Preprocessing masks every cell at or below the seasonal-water floor
      (lines 20-21) before the classification (line 67), so a cell the flood
      map flags as flood has a preprocessed VV strictly between the floor and
      the threshold, and a threshold at or below the floor flags nothing. */
  lemma FloodCellsAboveSeasonalFloor(raw: Raster, datamask: Raster, smooth: Raster -> Raster,
                                     histogram: Histogram, hrsl: Raster, regions: seq<Region>)
    requires Threshold(histogram).Success?
    ensures var image, report := Preprocess(raw, datamask, smooth), Run(raw, datamask, smooth, histogram, hrsl, regions).value;
      forall k :: 0 <= k < |image| && IsFlood(report.floodMap[k]) ==>
        image[k].Some? && SeasonalWaterFloorDb < image[k].value < report.threshold
    ensures var image, report := Preprocess(raw, datamask, smooth), Run(raw, datamask, smooth, histogram, hrsl, regions).value;
      report.threshold <= SeasonalWaterFloorDb ==>
        forall k :: 0 <= k < |image| ==> !IsFlood(report.floodMap[k])
  {
  }
}

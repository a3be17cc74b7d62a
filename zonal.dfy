/** The per-region population figures of GEE_Code.js (lines 83-97): the
    baseline is `hrsl.reduceRegions` with a sum reducer, the affected figure
    the same reduction of `hrsl.multiply(classA)`.

    A region is a polygon of the feature collection, given by its name and,
    for each cell of the common grid, the fraction of that cell the polygon
    covers (Earth Engine's sum reducer weights each unmasked cell by that
    fraction; a cell beyond the coverage sequence is not covered). */
module Zonal {
  import opened RealSeqs
  import opened Rasters

  datatype Region = Region(name: string, coverage: seq<real>)

  /** One output feature: the region's name and its `sum` property. */
  datatype ZonalRow = ZonalRow(name: string, sum: real)

  function CoverageAt(coverage: seq<real>, k: nat): real
  {
    if k < |coverage| then coverage[k] else 0.0
  }

  /** What each cell adds to a region's sum: its value weighted by the
      region's coverage of it, and nothing for a masked cell. */
  function Contributions(image: Raster, coverage: seq<real>): (w: seq<real>)
    ensures |w| == |image|
  {
    seq(|image|, k requires 0 <= k < |image| =>
      if image[k].Some? then CoverageAt(coverage, k) * image[k].value else 0.0)
  }

  /** The sum reducer over one region. */
  function RegionSum(image: Raster, coverage: seq<real>): real
  {
    Sum(Contributions(image, coverage))
  }

  /** `image.reduceRegions({collection, reducer: sum})`: one row per region,
      in the collection's order, carrying the region's name and sum. */
  function ReduceRegions(image: Raster, regions: seq<Region>): (rows: seq<ZonalRow>)
    ensures |rows| == |regions|
    ensures forall j :: 0 <= j < |regions| ==> rows[j].name == regions[j].name
  {
    seq(|regions|, j requires 0 <= j < |regions| =>
      ZonalRow(regions[j].name, RegionSum(image, regions[j].coverage)))
  }

  /** `districtSums` (lines 83-88): the population of each region. */
  function DistrictSums(hrsl: Raster, regions: seq<Region>): seq<ZonalRow>
  {
    ReduceRegions(hrsl, regions)
  }

  /** `districtSums02` (lines 91-97): the population of each region counted
      only where the flood map is present, each cell weighted by its flag. */
  function AffectedSums(hrsl: Raster, floodMap: Raster, regions: seq<Region>): seq<ZonalRow>
  {
    ReduceRegions(Multiply(hrsl, floodMap), regions)
  }

  /** Every present cell of a flood map is a 0/1 flag. */
  predicate IsFlagRaster(floodMap: Raster)
  {
    forall k :: 0 <= k < |floodMap| && floodMap[k].Some? ==> floodMap[k].value == 0.0 || floodMap[k].value == 1.0
  }

  predicate NonNegativeCells(image: Raster)
  {
    forall k :: 0 <= k < |image| && image[k].Some? ==> image[k].value >= 0.0
  }

  /** The reference figure: the coverage-weighted population of the cells the
      flood map flags as flood. */
  function FloodWeight(hrsl: Raster, floodMap: Raster, coverage: seq<real>): real
  {
    Sum(seq(|hrsl|, k requires 0 <= k < |hrsl| =>
      if hrsl[k].Some? && At(floodMap, k) == Some(1.0) then CoverageAt(coverage, k) * hrsl[k].value else 0.0))
  }

  /** Both tables have exactly one row per region, in order (lines 84-97). */
  lemma OneRowPerRegion(hrsl: Raster, floodMap: Raster, regions: seq<Region>)
    ensures |DistrictSums(hrsl, regions)| == |regions| == |AffectedSums(hrsl, floodMap, regions)|
    ensures forall j :: 0 <= j < |regions| ==>
      DistrictSums(hrsl, regions)[j].name == regions[j].name == AffectedSums(hrsl, floodMap, regions)[j].name
  {
  }

  /** What one cell adds to the affected figure: its weighted population
      when the flood map flags it as flood, and nothing otherwise. */
  lemma FloodCell(hrsl: Raster, floodMap: Raster, cov: seq<real>, k: nat)
    requires IsFlagRaster(floodMap) && k < |hrsl|
    ensures Contributions(Multiply(hrsl, floodMap), cov)[k] ==
      (if hrsl[k].Some? && At(floodMap, k) == Some(1.0) then CoverageAt(cov, k) * hrsl[k].value else 0.0)
  {
    var product := Multiply(hrsl, floodMap);
    if hrsl[k].None? || At(floodMap, k).None? {
      assert product[k] == None;
    } else {
      var v, flag := hrsl[k].value, floodMap[k].value;
      assert product[k] == Some(v * flag);
      assert flag == 0.0 || flag == 1.0;
      assert Contributions(product, cov)[k] == CoverageAt(cov, k) * (v * flag);
      if flag == 0.0 {
        assert At(floodMap, k) != Some(1.0);
        assert v * flag == 0.0;
        assert CoverageAt(cov, k) * 0.0 == 0.0;
      }
    }
  }

  /** A region's affected figure is the population of its flood cells: the sum
      of weight times flood flag (lines 91-97). */
  lemma AffectedIsFloodWeight(hrsl: Raster, floodMap: Raster, regions: seq<Region>, j: nat)
    requires IsFlagRaster(floodMap) && j < |regions|
    ensures AffectedSums(hrsl, floodMap, regions)[j].sum == FloodWeight(hrsl, floodMap, regions[j].coverage)
  {
    var cov := regions[j].coverage;
    var product := Multiply(hrsl, floodMap);
    var flood := seq(|hrsl|, k requires 0 <= k < |hrsl| =>
      if hrsl[k].Some? && At(floodMap, k) == Some(1.0) then CoverageAt(cov, k) * hrsl[k].value else 0.0);
    forall k | 0 <= k < |hrsl| ensures Contributions(product, cov)[k] == flood[k] {
      FloodCell(hrsl, floodMap, cov, k);
    }
    assert Contributions(product, cov) == flood;
  }

  /** With no negative population and no negative coverage, a region's
      affected figure lies between 0 and its baseline (lines 84-97). */
  lemma {:induction false} AffectedWithinBaseline(hrsl: Raster, floodMap: Raster, regions: seq<Region>, j: nat)
    requires IsFlagRaster(floodMap) && NonNegativeCells(hrsl)
    requires j < |regions| && NonNegative(regions[j].coverage)
    ensures 0.0 <= AffectedSums(hrsl, floodMap, regions)[j].sum <= DistrictSums(hrsl, regions)[j].sum
  {
    var cov := regions[j].coverage;
    var product := Multiply(hrsl, floodMap);
    var affected, baseline := Contributions(product, cov), Contributions(hrsl, cov);
    forall k | 0 <= k < |hrsl| ensures 0.0 <= affected[k] <= baseline[k] {
      if hrsl[k].Some? {
        assert CoverageAt(cov, k) >= 0.0;
        assert 0.0 <= baseline[k];
        if At(floodMap, k).Some? {
          var flag := At(floodMap, k).value;
          assert flag == 0.0 || flag == 1.0;
          assert affected[k] == CoverageAt(cov, k) * (hrsl[k].value * flag);
        }
      }
    }
    SumNonNegative(affected);
    SumMonotone(affected, baseline);
  }

  /** A region whose baseline population is 0 reports 0 affected, not an
      error. */
  lemma ZeroBaselineZeroAffected(hrsl: Raster, floodMap: Raster, regions: seq<Region>, j: nat)
    requires IsFlagRaster(floodMap) && NonNegativeCells(hrsl)
    requires j < |regions| && NonNegative(regions[j].coverage)
    requires DistrictSums(hrsl, regions)[j].sum == 0.0
    ensures AffectedSums(hrsl, floodMap, regions)[j].sum == 0.0
  {
    AffectedWithinBaseline(hrsl, floodMap, regions, j);
  }

  // ---------------------------------------------------------------------------
  // Summing over regions

  /** The sum of a table's `sum` column. */
  function ColumnTotal(rows: seq<ZonalRow>): real
  {
    if |rows| == 0 then 0.0 else rows[0].sum + ColumnTotal(rows[1..])
  }

  /** How much of cell `k` the regions cover together. */
  function CombinedCoverageAt(regions: seq<Region>, k: nat): real
  {
    if |regions| == 0 then 0.0 else CoverageAt(regions[0].coverage, k) + CombinedCoverageAt(regions[1..], k)
  }

  function CombinedCoverage(regions: seq<Region>, n: nat): (c: seq<real>)
    ensures |c| == n
  {
    seq(n, k requires 0 <= k < n => CombinedCoverageAt(regions, k))
  }

  /** Summing the per-region sums gives the sum over one region whose
      coverage is the regions' combined coverage. */
  lemma {:induction false} ColumnTotalIsCombinedSum(image: Raster, regions: seq<Region>)
    ensures ColumnTotal(ReduceRegions(image, regions)) == RegionSum(image, CombinedCoverage(regions, |image|))
  {
    var n := |image|;
    var combined := Contributions(image, CombinedCoverage(regions, n));
    if |regions| == 0 {
      assert forall k :: 0 <= k < n ==> combined[k] == 0.0;
      SumOfZeros(combined);
    } else {
      var rest := regions[1..];
      assert ReduceRegions(image, regions)[1..] == ReduceRegions(image, rest);
      ColumnTotalIsCombinedSum(image, rest);
      var first := Contributions(image, regions[0].coverage);
      var others := Contributions(image, CombinedCoverage(rest, n));
      forall k | 0 <= k < n ensures combined[k] == first[k] + others[k] {
        if image[k].Some? {
          var v := image[k].value;
          var c0, cr := CoverageAt(regions[0].coverage, k), CombinedCoverageAt(rest, k);
          assert CoverageAt(CombinedCoverage(regions, n), k) == c0 + cr;
          assert CoverageAt(CombinedCoverage(rest, n), k) == cr;
          assert (c0 + cr) * v == c0 * v + cr * v;
        }
      }
      SumAdditive(first, others, combined);
    }
  }

  /** The whole extent as a single region. */
  function WholeExtent(n: nat): (c: seq<real>)
    ensures |c| == n
  {
    seq(n, k requires 0 <= k < n => 1.0)
  }

  /** Partition invariant: when the regions together cover every cell exactly
      once, their baselines add up to the baseline of the whole extent. */
  lemma PartitionBaselinesAddUp(hrsl: Raster, regions: seq<Region>)
    requires forall k :: 0 <= k < |hrsl| ==> CombinedCoverageAt(regions, k) == 1.0
    ensures ColumnTotal(DistrictSums(hrsl, regions)) == RegionSum(hrsl, WholeExtent(|hrsl|))
  {
    ColumnTotalIsCombinedSum(hrsl, regions);
    assert CombinedCoverage(regions, |hrsl|) == WholeExtent(|hrsl|);
  }
}

# Flood detection by Otsu thresholding — a Dafny model

This project models the algorithmic core of a Google Earth Engine script
(`GEE_Code.js`) that maps floods from one Sentinel-1 radar scene and counts the
people affected per administrative region. The script masks permanent water and
no-data cells, smooths the VV backscatter, masks seasonal water (VV at or below
−16 dB), and builds a histogram of what is left. From that histogram it picks a
threshold with Otsu's method. It labels every cell whose VV lies below the
threshold as flood, and sums a population raster per region twice: once over
all cells (the baseline) and once weighted by the flood flag (the affected
figure).

The whole model is pure: datatypes, functions and lemmas, as in the script,
which only composes platform expressions.

- `RealSeqs` (`real_seqs.dfy`): the sum reduction and the facts the proofs use
  (split at an index, monotone, additive, non-negative).
- `Otsu` (`otsu.dfy`): the `otsu` function. It computes prefix counts and
  means for every split index `1..size`, gets class B by subtraction, scores
  each split by its between-class variance, and returns the bucket mean of the
  best split. `OtsuExamples` (`otsu_examples.dfy`) covers the degenerate and
  tie cases.
- `Rasters` (`rasters.dfy`): a raster is a `seq<Option<real>>` on one common
  grid. Cells past a raster's end read as masked. This file also holds the
  cell-wise platform operations (`eq`/`lt`/`gt`, `updateMask`, `multiply`).
- `FloodMapping` (`flood_mapping.dfy`): the two preprocessing masks, the
  preprocessing chain and the classification.
- `Zonal` (`zonal.dfy`): the per-region sums, the flood-weight reference
  figure, and sums over a partition of regions.
- `FloodImpact` (`flood_impact.dfy`): the script end to end, from the input
  rasters, histogram and regions to the threshold, flood map and both tables.

Conventions the script relies on but does not show:

- Earth Engine's `divide` returns 0 when the divisor is 0 (`Otsu.Div`). This
  decides the splits where a class is empty, above all the last split
  `i = size`, where `bCount` is 0.
- `means.sort(bss).get([-1])` takes the bucket mean with the largest score.
  How `sort` orders equal scores is not visible in the script. The model takes
  the **last index among the maxima** (`Otsu.ArgMaxLast`). This is a modelling
  choice, not something proved from the code.
- All arithmetic is over `real`.

Where the usual statement of the method, or of a flood-mapping pipeline around
it, differs from what this script does, the model follows the script:

- The usual statement of Otsu's method considers only splits where both
  classes hold samples, and has no answer for a histogram without such a
  split. The script scores every split `1..size`. Its empty-class splits
  score 0 under `divide`, and a degenerate histogram gives the last bucket
  mean (`OtsuExamples.DegenerateHistogramReturnsLastMean`). Only an empty
  histogram or arrays of different lengths give an error.
- On a histogram with exactly two non-empty buckets `p < q` of distinct means, every split
  between them ties, and the last-index convention returns the bucket mean
  just below cluster `q` (`OtsuExamples.TwoClusterThreshold`). With ascending
  means this value lies in `[mean p, mean q)`. It is strictly above cluster
  `p`'s mean only when some bucket separates the two clusters. For adjacent
  buckets the threshold is cluster `p`'s own mean.
- A textbook flood scene has a dark flood cluster near −20 dB and a bright
  land cluster near −8 dB. The script cannot label the dark cluster as flood.
  Lines 20-21 mask every cell whose smoothed VV is at or below −16 dB, and they
  do so before both the histogram (line 24) and the classification (line 67).
  Every cell the flood map flags therefore has a preprocessed VV strictly
  between −16 dB and the threshold. A threshold at or below −16 dB flags no
  cell at all (`FloodImpact.FloodCellsAboveSeasonalFloor`).
- A plain zonal sum adds up the cells of a region. Earth Engine's sum reducer
  weights each cell by the fraction of it that the polygon covers, so each
  region here carries a coverage fraction per cell.
- The script has no flood-polarity option: it always labels low backscatter
  as flood. It raises no error for inputs on different footprints either. It
  combines rasters cell by cell, and cells outside a footprint are masked.

## Model

| member | source | states |
|---|---|---|
| `RealSeqs.Sum` | GEE_Code.js:41-42 | `ee.Reducer.sum()`, also used at lines 49, 52, 86 and 95; `RealSeqs.SumSplit`, `SumNonNegative`, `SumMonotone` and `SumAdditive` state how it splits, its sign and its monotonicity and additivity |
| `Otsu.Div` | GEE_Code.js:43 | Earth Engine's `divide`, also used at lines 53 and 55; `Otsu.DivInverse` states that it inverts multiplication by a non-zero divisor and gives 0 for a zero divisor |
| `Otsu.Products` | GEE_Code.js:42 | `means.multiply(counts)`, also used at line 51: one product per bucket; `Otsu.ProductsSlices` states that it commutes with taking a prefix or a suffix |
| `Otsu.Size` | GEE_Code.js:40 | `size`, the number of buckets, the length of `bucketMeans`; `Otsu.Scores` gives `bss` that length |
| `Otsu.Total` | GEE_Code.js:41 | `total`, the sum of the counts; `Otsu.TotalsSplit` splits it into class A's and class B's counts at every index |
| `Otsu.WeightedSum` | GEE_Code.js:42 | `sum`, the count-weighted sum of the bucket means; `Otsu.TotalsSplit` splits it into the two classes' weighted sums |
| `Otsu.DivInverse` | GEE_Code.js:43 | `divide` is the inverse of multiplying by a non-zero divisor and gives 0 for a zero divisor; the same operation is used at lines 53 and 55 |
| `Otsu.TotalsSplit` | GEE_Code.js:41-42 | at every index, `total` is the count of the buckets before it plus the count of those after it, and `sum` splits into the two weighted sums in the same way |
| `Otsu.GlobalMean` | GEE_Code.js:43 | `mean` is `sum` divided by `total` under `divide`; `Otsu.DivInverse` gives `mean * total = sum` for a non-empty histogram, which `Otsu.ScoreIsClassicOtsu` uses |
| `Otsu.ClassACount` | GEE_Code.js:48-49 | `aCount`, the count of the first `i` buckets; `Otsu.ClassBCountIsSuffixCount` states that it and `bCount` add up to `total` |
| `Otsu.ClassAMean` | GEE_Code.js:50-53 | `aMean` is the weighted mean of the first `i` buckets under `divide`; `OtsuExamples.TwoClusterClassA` computes it for a single cluster |
| `Otsu.ClassBCount` | GEE_Code.js:54 | `bCount = total - aCount`; `Otsu.ClassBCountIsSuffixCount` proves it is the count of buckets `[i, size)` |
| `Otsu.ClassBMean` | GEE_Code.js:55 | `bMean = (sum - aCount*aMean) / bCount`; `Otsu.ClassBMeanIsWeighted` proves it is the weighted mean of buckets `[i, size)` when class A has a non-zero count or no count is negative |
| `Otsu.BetweenClassVariance` | GEE_Code.js:56-57 | the expression the callback returns; `Otsu.BetweenClassIdentity` states that it equals `nA*nB*(mA-mB)^2/(nA+nB)` when the means combine to the overall mean |
| `Otsu.Score` | GEE_Code.js:47-58 | the `indices.map` callback for split `i`; `Otsu.ScoreNonNegative`, `Otsu.EmptyClassScoresZero` and `Otsu.ScoreIsClassicOtsu` state its properties |
| `Otsu.Scores` | GEE_Code.js:45-58 | `bss` has exactly `size` entries, one per split index `1..size` |
| `Otsu.ClassBCountIsSuffixCount` | GEE_Code.js:48-54 | `bCount`, obtained by subtracting from `total`, is the count of buckets `[i, size)`, so `aCount + bCount = total` |
| `Otsu.ClassBMeanIsWeighted` | GEE_Code.js:50-55 | when class A has a non-zero count, or no count is negative, `sum - aCount*aMean` is class B's weighted sum and `bMean` is class B's weighted mean |
| `Otsu.ScoreNonNegative` | GEE_Code.js:48-57 | with no negative count, the between-class variance of any split is at least 0, since both class counts are then non-negative |
| `Otsu.ScoresNonNegative` | GEE_Code.js:56-57 | with no negative count, every between-class variance is at least 0 |
| `Otsu.FinalSplitScoresZero` | GEE_Code.js:45-57 | the split `i = size` has `aCount = total` and `bCount = 0`, and its score is 0 under the `divide` convention |
| `Otsu.EmptyClassScoresZero` | GEE_Code.js:48-57 | with no negative count, any split that leaves class A or class B empty scores 0 |
| `Otsu.BetweenClassIdentity` | GEE_Code.js:56-57 | for two groups whose weighted means combine to the overall mean, `nA(mA-m)^2 + nB(mB-m)^2 = nA*nB*(mA-mB)^2/(nA+nB)` |
| `Otsu.ScoreIsClassicOtsu` | GEE_Code.js:47-58 | when both classes have a positive count, a split's score is Otsu's classic `nA*nB*(meanA-meanB)^2/total` and `total > 0` |
| `Otsu.ArgMaxLast` | GEE_Code.js:60 | the chosen position holds a largest score, and every later position scores strictly less |
| `Otsu.BestSplit` | GEE_Code.js:47-60 | the chosen split index is in `1..size`, no split scores higher, and every later split scores strictly less |
| `Otsu.BestSplitUnique` | GEE_Code.js:60 | at most one split index has that property, so the threshold is determined by the histogram |
| `Otsu.ThresholdOfBestSplit` | GEE_Code.js:37-61 | whichever split is best, the selector returns the mean of its last class-A bucket |
| `Otsu.Threshold` | GEE_Code.js:37-61 | fails exactly when the arrays differ in length or are empty; otherwise it returns an element of `bucketMeans`, namely the mean of the last bucket of class A in the best split |
| `OtsuExamples.DegenerateHistogramReturnsLastMean` | GEE_Code.js:37-61 | a histogram with at most one non-empty bucket scores 0 at every split, and the selector returns the last bucket mean instead of failing |
| `OtsuExamples.SymmetricBestSplit` | GEE_Code.js:45-60 | for counts 3,1,3 at means −20,−14,−8, splits 1 and 2 tie at 189 and split 3 scores 0, so split 2, the later of the tied pair, is the best split |
| `OtsuExamples.SymmetricTieTakesHigherMean` | GEE_Code.js:37-61 | for that histogram the selector returns −14, the higher of the two tied candidates |
| `OtsuExamples.TwoClusterClassA` | GEE_Code.js:48-53 | for a split between two single-bucket clusters, class A has cluster `p`'s count and mean |
| `OtsuExamples.TwoClusterClassB` | GEE_Code.js:54-55 | for such a split, class B, obtained by subtraction, has cluster `q`'s count and mean |
| `OtsuExamples.TwoClusterInnerScore` | GEE_Code.js:47-58 | every split between the two clusters scores the same as the split at `q` |
| `OtsuExamples.TwoClusterOuterScore` | GEE_Code.js:47-58 | every split before cluster `p` or after cluster `q` scores 0 |
| `OtsuExamples.TwoClusterScorePositive` | GEE_Code.js:56-57 | with distinct cluster means the split at `q` scores strictly more than 0 |
| `OtsuExamples.TwoClusterThreshold` | GEE_Code.js:37-61 | with two clusters of distinct means the selector returns the bucket mean just below cluster `q`; with ascending means that is in `[mean p, mean q)`, and strictly above `mean p` when a bucket lies between the clusters |
| `OtsuExamples.TwoClusterExample` | GEE_Code.js:37-61 | one sample each at −20 and −8 dB with an empty bucket at −14 dB between them gives the threshold −14 dB, strictly between the cluster means |
| `FloodMapping.MaskWaterBodies` | GEE_Code.js:12-14 | a cell survives exactly when it is present and the data mask there is present and equal to 1; surviving cells keep their value |
| `FloodMapping.MaskSeasonalWater` | GEE_Code.js:20-21 | a cell survives exactly when it is present and above −16 dB; surviving cells keep their value |
| `FloodMapping.Preprocess` | GEE_Code.js:12-21 | whatever the speckle filter does, no cell that survives preprocessing is at or below −16 dB |
| `FloodMapping.PreprocessSurvivors` | GEE_Code.js:12-21 | if the speckle filter does not unmask cells, every surviving cell had a raw value and a data mask of 1, and is above −16 dB |
| `FloodMapping.Classify` | GEE_Code.js:67 | the flood map has the image's mask; an unmasked cell is flood (1) iff its VV is below the threshold, and 0 iff it is at or above the threshold |
| `Rasters.CompareConst` | GEE_Code.js:13 | `eq`/`lt`/`gt` against a constant, also used at lines 20 and 67: a cell is masked iff the input is masked, 1 iff the comparison holds and 0 iff it fails |
| `Rasters.UpdateMask` | GEE_Code.js:14 | `updateMask`, also used at line 21: a cell is present iff the image cell is present and the mask cell is present and non-zero, and a present cell keeps its value |
| `Rasters.Multiply` | GEE_Code.js:91 | `hrsl.multiply(classA)`: a cell is present iff both inputs are present, and then holds their product; cells beyond the first raster are masked |
| `Zonal.Contributions` | GEE_Code.js:86 | what each cell adds to a region's sum, also at line 95: the cell's value weighted by the region's coverage of it, nothing for a masked cell, one entry per cell; `Zonal.FloodCell` computes it on the affected-population layer |
| `Zonal.RegionSum` | GEE_Code.js:86 | the coverage-weighted sum reducer over one region, also at line 95; `Zonal.AffectedIsFloodWeight`, `Zonal.AffectedWithinBaseline` and `Zonal.ColumnTotalIsCombinedSum` state its properties |
| `Zonal.ReduceRegions` | GEE_Code.js:84-88 | one result row per region, in the collection's order, with the region's name |
| `Zonal.DistrictSums` | GEE_Code.js:83-88 | `districtSums`: the sum reducer over each region of `hrsl`; `Zonal.OneRowPerRegion`, `Zonal.PartitionBaselinesAddUp` and `Zonal.AffectedWithinBaseline` state its properties |
| `Zonal.AffectedSums` | GEE_Code.js:91-97 | `districtSums02`: the same reduction of `hrsl.multiply(classA)`; `Zonal.AffectedIsFloodWeight` proves each row is the population of the region's flood cells |
| `Zonal.FloodCell` | GEE_Code.js:91 | one cell of `hrsl.multiply(classA)` adds its weighted population when flagged 1, and nothing when flagged 0 or masked |
| `Zonal.OneRowPerRegion` | GEE_Code.js:84-97 | the baseline table and the affected table each have exactly one row per region, in the same order and with the same names |
| `Zonal.AffectedIsFloodWeight` | GEE_Code.js:91-97 | a region's affected figure equals the coverage-weighted population of the cells the flood map flags as flood |
| `Zonal.AffectedWithinBaseline` | GEE_Code.js:84-97 | with no negative population and no negative coverage, each region's affected figure is between 0 and its baseline |
| `Zonal.ZeroBaselineZeroAffected` | GEE_Code.js:84-97 | with no negative population and no negative coverage, a region whose baseline is 0 reports 0 affected |
| `Zonal.ColumnTotalIsCombinedSum` | GEE_Code.js:84-88 | the per-region sums add up to the sum over one region whose coverage is the regions' combined coverage |
| `Zonal.PartitionBaselinesAddUp` | GEE_Code.js:84-88 | when the regions together cover every cell exactly once, their baselines add up to the baseline of the whole extent |
| `FloodImpact.Run` | GEE_Code.js:12-97 | the script succeeds exactly when the threshold does and returns that threshold; the flood map has the preprocessed image's mask and labels a cell as flood (1) iff its VV is below the threshold and 0 iff it is at or above; both tables have one row per region in order; each baseline is the region's population and each affected figure the population of its flood cells; with non-negative population and coverage, 0 ≤ affected ≤ baseline |
| `FloodImpact.MaskedCellsStayMasked` | GEE_Code.js:67-91 | a cell that preprocessing masks stays masked in the flood map and in the affected-population layer |
| `FloodImpact.FloodCellsAboveSeasonalFloor` | GEE_Code.js:20-67 | every cell the flood map flags has a preprocessed VV strictly between −16 dB and the threshold, and a threshold at or below −16 dB flags no cell |

## Left out

- Loading assets, clipping to the regions, and centring the map (GEE_Code.js:1-8, 11): remote catalogue calls and user-interface actions.
- The histogram reducer with `bestEffort` resolution coarsening, and its mean and variance reducers (GEE_Code.js:24-31): a platform reduction with an undocumented approximation. The model starts from a given `counts`/`bucketMeans` pair, which `FloodImpact.Run` takes as an input.
- The `focal_median` speckle filter (GEE_Code.js:17): a platform spatial filter. It is modelled as an arbitrary function parameter `smooth`.
- FloodMapping.PreprocessSurvivors: the data-mask half of the property is proved only for a filter that does not unmask cells, because the platform's focal filters may fill masked cells from valid neighbours.
- Charts, `print` and map layers (GEE_Code.js:34, 59, 64, 68): user-interface side effects.
- Sentinel-2 RGB compositing for visual inspection (GEE_Code.js:70-80).
- Palettes, gradient bar, scale bar and choropleth painting (GEE_Code.js:99-141): rendering through external packages.
- Drive exports (GEE_Code.js:143-156): I/O.
- Resampling between grids. The script reduces at the population raster's nominal scale (GEE_Code.js:83, 92). The model puts every raster on that one grid.
- The other bands of the radar scene. They get the same masks, but only VV feeds the histogram and the classification.
- Floating-point rounding: the arithmetic is over `real`, not IEEE doubles.
- Otsu.Threshold: the platform `sort`'s order for equal scores is replaced by the stated convention "last index among the maxima".
- Otsu.Threshold: arrays of different lengths are reported as an error. The platform could broadcast a length-1 array instead, a case its histogram reducer never produces.
- Otsu.ClassBMeanIsWeighted: stated only when class A has a non-zero count or no count is negative. With negative counts and an empty class A, the subtraction form is not class B's weighted sum.
- Otsu.ScoreIsClassicOtsu: stated only when both class counts are positive. The classic form divides by `total`, which can be 0 otherwise.

# EMCCD luminescence analysis — a verified model

`08_04_JM_emccd_script.py` measures the luminescence of bright objects in an
EMCCD camera image. It works in six stages:

1. It picks an intensity cutoff from a five-band ladder on the image mean and
   keeps the pixels strictly above it.
2. It cleans the mask morphologically: it erodes with the 4-connected cross
   and reconstructs inside the mask by propagation, which removes specks. It
   then does the same on the complement, which fills holes.
3. It labels the 4-connected regions and measures their sizes.
4. It drops every region smaller than a size-tiered fraction of the largest
   region, zeroing those labels in place.
5. It compacts the surviving labels to their ranks and labels the survivors
   again.
6. It reports the mean of the per-object mean intensities, minus the mean of
   the whole image.

This project models those stages in Dafny and proves their contracts.

- **Grids:** the image is a `seq<seq<int>>`, masks are `seq<seq<bool>>` and
  label maps are `seq<seq<nat>>`.
- **In-place stages:**
  - Propagation is a worklist fill over an `array2<bool>`.
  - Labelling is a raster scan over an `array2<nat>`: each new component is
    found by propagation and then painted in place.
  - The removal of flagged labels updates the label array in place.
  - Each of these methods is proved against a declarative specification:
    `IsPropagation` for propagation, `IsLabeling` for labelling, and
    `Removed` for removal.
- **Elementwise stages:** the ladders, size table, rank compaction and
  aggregation are pure functions, with lemmas about them.
- **Arithmetic:** reals are exact rationals.

Modules, in pipeline order:

- `Arith`: small facts about counts, real division and sums of lists of reals.
- `Grids`: pixels, 4-adjacency, complement, and connectivity through a mask.
- `Threshold`: mean, min and max, the cutoff ladder, and the binary mask.
- `Morphology`: erosion, propagation, the cleaning pass, and the re-derived
  mask of line 57.
- `Labeling`: connected-component labelling.
- `Regions`: the size table, the size tiers, and removal.
- `Ranks`: `unique` plus `searchsorted` compaction.
- `Outcomes`: the result type.
- `Statistics`: the luminescence value.
- `Pipeline`: the whole script and the theorems that span its stages.

Behaviour at the edges:

- An image without pixels gives `Failure(EmptyImage)`. In numpy the mean of
  an empty array is `nan`, so none of the `<` tests at lines 31-37 holds and
  the script reaches line 40, where `image.max()` raises `ValueError`.
- When no object survives, line 93 divides 0 by 0 and numpy yields `nan`.
  The model returns `Failure(NoObjects)` instead.

## Model

| member | source | states |
|---|---|---|
| Threshold.Max | 08_04_JM_emccd_script.py:34-40 | `image.max()` is attained by some pixel and bounds every pixel |
| Threshold.Min | 08_04_JM_emccd_script.py:32 | `image.min()` is attained by some pixel and is below every pixel |
| Threshold.Mean | 08_04_JM_emccd_script.py:31-37 | `image.mean()`: the mean times the pixel count is the sum of the pixels |
| Threshold.MeanBetweenMinAndMax | 08_04_JM_emccd_script.py:31-32 | the image mean lies between the smallest and largest pixel value |
| Threshold.BandOf | 08_04_JM_emccd_script.py:31-39 | exactly one of the five mean bands applies: <10000, [10000,12500), [12500,15000), [15000,17000), >=17000 |
| Threshold.Cutoff | 08_04_JM_emccd_script.py:31-40 | the cutoff is min + 0.17·mean in the lowest band and 0.4/0.5/0.6/0.7·max in the others |
| Threshold.ThresholdMask | 08_04_JM_emccd_script.py:32-45 | mask has the image's shape; a pixel is foreground iff its value is strictly greater than the cutoff |
| Threshold.BrightestSelected | 08_04_JM_emccd_script.py:33-40 | in the four max-relative bands the brightest pixel is always foreground |
| Threshold.DimmestRejected | 08_04_JM_emccd_script.py:31-32 | in the lowest band (non-negative mean) the dimmest pixel is never foreground |
| Threshold.UniformMean | 08_04_JM_emccd_script.py:31-32 | a uniform image has its value as mean and minimum |
| Threshold.UniformDimImageEmpty | 08_04_JM_emccd_script.py:31-32 | a uniform image with a value in 0..9999 (e.g. all zero) gives an empty mask |
| Grids.Not | 08_04_JM_emccd_script.py:51-53 | `np.logical_not` keeps the shape and flips every pixel |
| Grids.NotInvolution | 08_04_JM_emccd_script.py:51-53 | complementing twice gives the mask back |
| Grids.ConnectedSym | 08_04_JM_emccd_script.py:59 | 4-connectivity through a mask is symmetric |
| Grids.ConnectedTrans | 08_04_JM_emccd_script.py:59 | 4-connectivity through a mask is transitive |
| Arith.SumPermutation | 08_04_JM_emccd_script.py:93 | reordering a list of reals leaves its sum unchanged (the order of the region means is irrelevant) |
| Arith.SumBetween | 08_04_JM_emccd_script.py:93 | a sum of n terms in [lo, hi] lies in [n·lo, n·hi] |
| Arith.SumAddEach | 08_04_JM_emccd_script.py:93 | adding c to each of n terms adds n·c to their sum |
| Morphology.Erode | 08_04_JM_emccd_script.py:49 | `binary_erosion` with the cross and border 0: a pixel stays iff it and its four neighbours are foreground |
| Morphology.Propagate | 08_04_JM_emccd_script.py:50 | the result contains the seed, lies within seed ∪ mask, is closed under masked 4-adjacency, and every pixel is reached from the seed through the mask |
| Morphology.PropagationUnique | 08_04_JM_emccd_script.py:50 | those four properties determine the propagation uniquely |
| Morphology.SpeckRemoved | 08_04_JM_emccd_script.py:49-50 | a pixel kept by the reconstruction has a 4-neighbour in binaryImg: isolated specks are removed |
| Morphology.Clean | 08_04_JM_emccd_script.py:49-53 | erodedImg is the erosion; reconstructImg is the propagation of it inside binaryImg; the complement of reconstructFinal is the propagation of the eroded complement inside the complement |
| Morphology.CleanBounds | 08_04_JM_emccd_script.py:49-53 | erodedImg ⊆ reconstructImg ⊆ binaryImg and reconstructImg ⊆ reconstructFinal, all of the image's shape |
| Morphology.HolePassAdds | 08_04_JM_emccd_script.py:51-53 | complement, propagate, complement: reconstructFinal keeps the shape and every pixel of reconstructImg |
| Morphology.HoleFilled | 08_04_JM_emccd_script.py:51-53 | a pixel whose in-grid 4-neighbours are all foreground in reconstructImg is foreground in reconstructFinal: one-pixel holes are filled |
| Morphology.OpenBelow | 08_04_JM_emccd_script.py:49-50 | erosion then reconstruction is monotone in its mask: if the result for m lies within m2, it lies within the result for m2 |
| Morphology.CleanDeterminate | 08_04_JM_emccd_script.py:49-53 | reconstructImg and reconstructFinal are determined by binaryImg |
| Morphology.CleanIdempotent | 08_04_JM_emccd_script.py:49-53 | cleaning reconstructFinal once more gives reconstructFinal back |
| Morphology.DimCleaned | 08_04_JM_emccd_script.py:49-57 | a mask without foreground gives an empty mask at line 57; the cleaned mask is empty, or all foreground when the grid has no interior pixel |
| Morphology.Remask | 08_04_JM_emccd_script.py:57 | `reconstructFinal > reconstructFinal.mean()`: same shape, and a pixel is set iff its 0/1 value exceeds the fraction of set pixels |
| Morphology.RemaskKeepsMask | 08_04_JM_emccd_script.py:57 | the re-derived mask equals the cleaned mask unless the cleaned mask is all foreground, in which case it is empty |
| Morphology.RemaskHasBackground | 08_04_JM_emccd_script.py:57 | the re-derived mask always has a background pixel |
| Labeling.Label | 08_04_JM_emccd_script.py:59 | `ndimage.label`: 0 iff background, labels ≤ n, 4-adjacent foreground pixels share a label, each of 1..n is used, same label implies 4-connected |
| Labeling.Paint | 08_04_JM_emccd_script.py:59 | the label array is overwritten with v exactly on the component and unchanged elsewhere |
| Labeling.Visit | 08_04_JM_emccd_script.py:59 | one scan step keeps the labelling invariant over the pixels scanned so far |
| Labeling.SameLabelIffConnected | 08_04_JM_emccd_script.py:59 | two foreground pixels share a label iff they are 4-connected |
| Labeling.PathKeepsLabel | 08_04_JM_emccd_script.py:59 | every pixel of a foreground path carries the label of its start |
| Labeling.LabelingsAgree | 08_04_JM_emccd_script.py:59 | any two labellings of the same mask induce the same partition (scan order is irrelevant) |
| Labeling.CorrLabel | 08_04_JM_emccd_script.py:59 | for two labellings of one mask, the pixels with label k in the first are exactly those with label Corr(k) in the second, and Corr(k) is in 1..n |
| Labeling.CorrBijective | 08_04_JM_emccd_script.py:59 | Corr is injective on 1..n1, and the reverse correspondence is its inverse on 1..n2 |
| Labeling.CorrOrder | 08_04_JM_emccd_script.py:59 | Corr, shifted to 0-based indices, is a permutation of 0..n-1 with an explicit inverse |
| Labeling.CountAtMost | 08_04_JM_emccd_script.py:59 | one labelling of a mask has at most as many regions as another |
| Labeling.LabelCountsAgree | 08_04_JM_emccd_script.py:59 | two labellings of one mask have the same numLabels |
| Labeling.NoLabelsIffEmpty | 08_04_JM_emccd_script.py:59 | numLabels is 0 iff the mask has no foreground |
| Labeling.NonZero | 08_04_JM_emccd_script.py:92 | the label map read as a mask: foreground iff label ≠ 0 |
| Regions.CountPositive | 08_04_JM_emccd_script.py:64 | label k has a positive pixel count iff it is used |
| Regions.MaskSumCount | 08_04_JM_emccd_script.py:64 | when the nonzero labels are exactly the mask pixels, the mask sum over label 0 is 0 and over label k > 0 is the number of pixels labelled k |
| Regions.MaskSum | 08_04_JM_emccd_script.py:64 | `ndimage.sum(mask, labelIm, k)` counts at most the pixels labelled k |
| Regions.Sizes | 08_04_JM_emccd_script.py:64 | the size table has numLabels + 1 entries, and entry k is at most the number of pixels labelled k |
| Regions.SizesAreCounts | 08_04_JM_emccd_script.py:64 | sizes[0] is 0 and sizes[k] is the number of pixels labelled k, at least 1, for 1..numLabels |
| Regions.Largest | 08_04_JM_emccd_script.py:68 | `sizes.max()` is attained and bounds every size |
| Regions.SizeFraction | 08_04_JM_emccd_script.py:68-75 | the fraction is 0.3, 0.25, 0.09 or 0.1 for a largest size <500, <1000, <2000 or otherwise |
| Regions.SizeCutoff | 08_04_JM_emccd_script.py:68-75 | the size cutoff is the fraction times the largest size, strictly between 0 and it when it is positive |
| Regions.Flags | 08_04_JM_emccd_script.py:68-75 | `maskSize` has one flag per size; a flagged size is below the largest, and a size equal to the largest is never flagged |
| Regions.FlagMeaning | 08_04_JM_emccd_script.py:69-75 | a label is flagged iff its size is strictly below the cutoff, and a flagged size is below the largest |
| Regions.LargestKept | 08_04_JM_emccd_script.py:68-75 | the largest region is never flagged |
| Regions.SmallerFlagged | 08_04_JM_emccd_script.py:68-75 | a region no larger than a flagged region is flagged |
| Regions.BackgroundFlag | 08_04_JM_emccd_script.py:64-75 | the background entry is flagged iff some region exists |
| Regions.RemovedPixels | 08_04_JM_emccd_script.py:78-80 | a pixel with a flagged label becomes 0 and every other pixel keeps its label |
| Regions.RemovedWhole | 08_04_JM_emccd_script.py:78-80 | after removal a flagged nonzero label is used nowhere and an unflagged label keeps all its pixels |
| Regions.Removed | 08_04_JM_emccd_script.py:78-80 | removal keeps the shape; each pixel becomes 0 or keeps its label, and a nonzero label left behind is unflagged |
| Regions.RemoveFlagged | 08_04_JM_emccd_script.py:78-80 | `labelIm[removePixels] = 0` in place: the new array is the removal of the old one |
| Regions.SurvivorsAreComponents | 08_04_JM_emccd_script.py:78-80 | two surviving pixels share a label iff they are 4-connected through the surviving pixels |
| Regions.BackgroundSurvives | 08_04_JM_emccd_script.py:80 | a background pixel stays 0 after removal, so label 0 is still used |
| Regions.LabelsInTable | 08_04_JM_emccd_script.py:64-78 | every label indexes the flag table (`maskSize[labelIm]` is in range) |
| Regions.FilterKeepsLargest | 08_04_JM_emccd_script.py:64-80 | some nonzero label survives the filter iff numLabels > 0 |
| Regions.CountAgree | 08_04_JM_emccd_script.py:64 | two labels carried by the same pixels have the same pixel count |
| Regions.SizeAgree | 08_04_JM_emccd_script.py:59-64 | region k of one labelling and region Corr(k) of another labelling of the same mask have the same size |
| Regions.KeptAgree | 08_04_JM_emccd_script.py:59-80 | the pixels that survive the size filter do not depend on which labelling of the mask was used |
| Ranks.Flatten | 08_04_JM_emccd_script.py:84 | a value occurs in the flattened map iff some pixel carries it |
| Ranks.Unique | 08_04_JM_emccd_script.py:84 | `np.unique`: strictly increasing, and it contains exactly the used labels |
| Ranks.SearchSorted | 08_04_JM_emccd_script.py:85 | `np.searchsorted` gives the leftmost insertion index: every earlier entry is smaller, the entry there is not |
| Ranks.RelabelRank | 08_04_JM_emccd_script.py:84-85 | each pixel's new label is the index of its old label in the sorted distinct labels |
| Ranks.Relabel | 08_04_JM_emccd_script.py:84-85 | compaction keeps the shape and never raises a label |
| Ranks.RankRow | 08_04_JM_emccd_script.py:85 | `searchsorted` of one row keeps its length and never raises a value that occurs in the table |
| Ranks.RelabelContiguous | 08_04_JM_emccd_script.py:84-85 | the new labels lie in 0..|labels|-1 and every such value is used |
| Ranks.RelabelPreservesOrder | 08_04_JM_emccd_script.py:84-85 | new labels compare (< and ==) exactly as the old ones: the partition is kept |
| Ranks.ZeroStays | 08_04_JM_emccd_script.py:84-85 | whenever a background pixel exists, a pixel's new label is 0 iff its old label is 0 |
| Ranks.CompactionKeepsForeground | 08_04_JM_emccd_script.py:84-85 | with a background pixel, compaction keeps the set of nonzero pixels; their label values change (labels {0, 2, 5} become {0, 1, 2}) |
| Statistics.MeanLuminescence | 08_04_JM_emccd_script.py:93 | `meanLumVal` fails (NoObjects) iff numLabels is 0; otherwise it is the sum of the per-region means over numLabels, minus the image mean |
| Statistics.LabelingPopulated | 08_04_JM_emccd_script.py:92-93 | every region of a labelling has a pixel, so every region mean is defined |
| Statistics.LabelSum | 08_04_JM_emccd_script.py:93 | the intensity total of a label without pixels is 0 |
| Statistics.RegionMean | 08_04_JM_emccd_script.py:93 | `ndimage.mean(cleanImage, labelIm, k)` for one populated region: the mean times the region's pixel count is the region's intensity total (`Arith.IsAverage`); its bounds, shift and labelling independence are `Statistics.RegionMeanBetween`, `Statistics.RegionMeanShift` and `Statistics.RegionMeanAgree` |
| Arith.Average | 08_04_JM_emccd_script.py:93 | the exact quotient of a total by a positive count satisfies `Arith.IsAverage`: count copies of it make the total |
| Statistics.Means | 08_04_JM_emccd_script.py:93 | `ndimage.mean(cleanImage, labelIm, range(1, numLabels + 1))` has one entry per region |
| Statistics.RegionMeanAgree | 08_04_JM_emccd_script.py:59-93 | region k of one labelling and region Corr(k) of another labelling of the same mask have the same mean intensity |
| Statistics.MeanSum | 08_04_JM_emccd_script.py:93 | the `.sum()` of the region means, `SeqSum(Means(g, L, n))`; with no region it is 0; its bounds, shift and labelling independence are `Statistics.MeanSumBetween`, `Statistics.MeanSumShift` and `Statistics.MeanSumAgree` |
| Statistics.MeanSumAgree | 08_04_JM_emccd_script.py:92-93 | two labellings of one mask give the same numLabels and the same `.sum()` of region means |
| Statistics.MeanLuminescenceAgree | 08_04_JM_emccd_script.py:92-93 | `meanLumVal` does not depend on which labelling of the mask was used |
| Statistics.RegionMeanBetween | 08_04_JM_emccd_script.py:93 | a region mean lies within the bounds of the pixel values |
| Statistics.MeanSumBetween | 08_04_JM_emccd_script.py:93 | the `.sum()` of n region means lies between n·lo and n·hi for any bounds lo, hi of the pixel values |
| Statistics.MeanLuminescenceBetween | 08_04_JM_emccd_script.py:93 | the value lies between min − mean and max − mean of the image |
| Statistics.UniformImageZero | 08_04_JM_emccd_script.py:93 | a uniform image gives the value 0 |
| Statistics.MeansAtImageMeanZero | 08_04_JM_emccd_script.py:93 | when every region mean equals the image mean, the value is 0 |
| Statistics.MeansAllEqual | 08_04_JM_emccd_script.py:93 | when every one of the n region means is m, their `.sum()` is n·m |
| Statistics.ShiftInvariant | 08_04_JM_emccd_script.py:93 | adding a constant to every pixel does not change the value (mean-relative baseline) |
| Statistics.RegionMeanShift | 08_04_JM_emccd_script.py:93 | adding c to every pixel adds c to each region mean |
| Statistics.MeanSumShift | 08_04_JM_emccd_script.py:93 | adding c to every pixel adds n·c to the sum of the n region means |
| Pipeline.Analyze | 08_04_JM_emccd_script.py:28-93 | an empty image fails; otherwise each stage is the previous one's threshold / clean / remask / label / size / flag / remove / compact / relabel, and the result is the luminescence of the final objects |
| Pipeline.CleaningBounds | 08_04_JM_emccd_script.py:49-53 | within the analysis erodedImg ⊆ reconstructImg ⊆ binaryImg and reconstructImg ⊆ reconstructFinal |
| Pipeline.BackgroundRemains | 08_04_JM_emccd_script.py:57-85 | label 0 is used after removal, and compaction keeps the surviving pixels nonzero and the background zero |
| Pipeline.MaskBackground | 08_04_JM_emccd_script.py:57-85 | the background pixel left by line 57 keeps label 0 through removal, and compaction keeps the nonzero pixels nonzero |
| Pipeline.Relabelled | 08_04_JM_emccd_script.py:78-92 | labelling the survivors gives one object per surviving region |
| Pipeline.ObjectsAreSurvivors | 08_04_JM_emccd_script.py:78-92 | a pixel belongs to a final object iff it survived filtering, and two survivors share an object iff they shared a label |
| Pipeline.NoObjectsIffEmptyMask | 08_04_JM_emccd_script.py:57-93 | the analysis has no objects, and fails with NoObjects, iff the re-derived mask is empty |
| Pipeline.TracesAgree | 08_04_JM_emccd_script.py:28-93 | two admissible runs on one image agree on the cleaned and re-derived masks, numLabels, the pixels left after compaction, the object count and the result |
| Pipeline.DimUniformImageFails | 08_04_JM_emccd_script.py:31-93 | a uniform image with a value in 0..9999 has no regions and no objects, and the result is `Failure(NoObjects)` |

## Left out

- Reading the file name from the command line and loading the TIFF (lines 22, 25) are I/O: the image is a parameter of `Pipeline.Analyze`.
- Threshold.ThresholdMask: the Gaussian noise of line 43 and the re-binarisation at 0.5 (line 45) are not modelled; the binary mask is the noise-free threshold mask.
- The noisy image of line 58 is never read afterwards and is dropped.
- Floating point: the mean, the multipliers 0.17, 0.4–0.7 and the size fractions are exact reals, so rounding at a cutoff is not modelled; `np.float` conversions are plain booleans and naturals.
- Pixel values are unbounded integers. This covers the integer TIFF pixel types, whose width does not matter because numpy sums them in floating point.
- TIFF images with floating-point pixels are not modelled: the image is a grid of integers.
- Statistics.MeanLuminescence: requires that every region 1..numLabels has a pixel; every labelling satisfies this (`Statistics.LabelingPopulated`), and for an empty region numpy would give `nan`.
- Statistics.MeanLuminescence: `nan` from 0/0 when no object remains is modelled as `Failure(NoObjects)`.
- Pipeline.Analyze: requires a rectangular grid; a numpy 2-D array always is one.
- The standard deviation of line 97 needs a square root over floats; it is not modelled.
- Rounding and printing the results (lines 99–100) are output formatting.
- The commented-out baselines (lines 94–95) and the plotting and saving lines are not code.
- The internals of scipy: propagation is a worklist fill and labelling numbers components in raster order of their first pixel. Only the contracts are claimed; `Morphology.PropagationUnique` and `Labeling.LabelingsAgree` show that these contracts fix the result of propagation outright, and fix the partition of labelling.

/** The mean luminescence of the objects (08_04_JM_emccd_script.py,
    line 93): the average over regions 1..n of each region's mean intensity,
    minus the mean intensity of the whole image. */
module Statistics {
  import opened Grids
  import opened Arith
  import opened Threshold
  import opened Labeling
  import opened Regions
  import opened Outcomes

  function RowLabelSum(g: seq<int>, l: seq<nat>, k: nat): (s: int)
    requires |g| == |l|
    ensures RowCount(l, k) == 0 ==> s == 0
  {
    if l == [] then 0 else (if l[0] == k then g[0] else 0) + RowLabelSum(g[1..], l[1..], k)
  }

  /** ndimage.sum(image, labelIm, k): total intensity of the pixels labelled k. */
  function LabelSum(g: seq<seq<int>>, L: seq<seq<nat>>, k: nat): (s: int)
    requires SameShape(g, L)
    ensures CountLabel(L, k) == 0 ==> s == 0
  {
    if |L| == 0 then 0 else RowLabelSum(g[0], L[0], k) + LabelSum(g[1..], L[1..], k)
  }

  /** ndimage.mean(image, labelIm, k): mean intensity of region k. */
  function RegionMean(g: seq<seq<int>>, L: seq<seq<nat>>, k: nat): (m: real)
    requires SameShape(g, L) && CountLabel(L, k) > 0
    ensures IsAverage(m, LabelSum(g, L, k), CountLabel(L, k))
  {
    Average(LabelSum(g, L, k), CountLabel(L, k))
  }

  /** Every region 1..n has a pixel. */
  predicate Populated(L: seq<seq<nat>>, n: nat)
  {
    forall k | 1 <= k <= n :: CountLabel(L, k) > 0
  }


  /** ndimage.mean(image, labelIm, range(1, n + 1)): the array of region
      means of regions 1..n in label order. */
  function Means(g: seq<seq<int>>, L: seq<seq<nat>>, n: nat): (ms: seq<real>)
    requires SameShape(g, L) && Populated(L, n)
    ensures |ms| == n
  {
    seq(n, i requires 0 <= i < n => RegionMean(g, L, i + 1))
  }

  /** The .sum() of that array. */
  function MeanSum(g: seq<seq<int>>, L: seq<seq<nat>>, n: nat): (s: real)
    requires SameShape(g, L) && Populated(L, n)
    ensures n == 0 ==> s == 0.0
  {
    SeqSum(Means(g, L, n))
  }

  /** meanLumVal: the mean of the region means minus the image mean; with no
      region the average is 0 / 0 and there is no value. */
  function MeanLuminescence(g: seq<seq<int>>, L: seq<seq<nat>>, n: nat): (r: Result<real>)
    requires NonEmpty(g) && SameShape(g, L) && Populated(L, n)
    ensures r.Failure? <==> n == 0
    ensures r.Failure? ==> r.error == NoObjects
  {
    PixelCountRect(g);
    if n == 0 then Failure(NoObjects) else Success(MeanSum(g, L, n) / n as real - Mean(g))
  }

  /** A labelling of n regions populates each of them. */
  lemma LabelingPopulated(fg: seq<seq<bool>>, L: seq<seq<nat>>, n: nat)
    requires IsLabeling(fg, L, n)
    ensures Populated(L, n)
  {
    forall k | 1 <= k <= n ensures CountLabel(L, k) > 0 {
      CountPositive(L, k);
    }
  }

  // ---------------------------------------------------------------------
  // Independence of the labelling

  lemma {:induction false} RowLabelSumAgree(g: seq<int>, l1: seq<nat>, l2: seq<nat>, a: nat, b: nat)
    requires |g| == |l1| == |l2| && forall j | 0 <= j < |l1| :: l1[j] == a <==> l2[j] == b
    ensures RowLabelSum(g, l1, a) == RowLabelSum(g, l2, b)
  {
    if l1 != [] {
      RowLabelSumAgree(g[1..], l1[1..], l2[1..], a, b);
    }
  }

  /** Two labels carried by the same pixels have the same total intensity. */
  lemma {:induction false} LabelSumAgree(g: seq<seq<int>>, L1: seq<seq<nat>>, L2: seq<seq<nat>>, a: nat, b: nat)
    requires SameShape(g, L1) && SameShape(L1, L2)
    requires forall p | InBounds(L1, p) :: L1[p.0][p.1] == a <==> L2[p.0][p.1] == b
    ensures LabelSum(g, L1, a) == LabelSum(g, L2, b)
  {
    if |L1| > 0 {
      forall j | 0 <= j < |L1[0]| ensures L1[0][j] == a <==> L2[0][j] == b {
        assert InBounds(L1, (0, j));
      }
      RowLabelSumAgree(g[0], L1[0], L2[0], a, b);
      forall p | InBounds(L1[1..], p) ensures L1[1..][p.0][p.1] == a <==> L2[1..][p.0][p.1] == b {
        assert InBounds(L1, (p.0 + 1, p.1));
      }
      LabelSumAgree(g[1..], L1[1..], L2[1..], a, b);
    }
  }

  /** Region k of one labelling and region Corr(k) of another labelling of
      the same mask have the same mean intensity. */
  lemma RegionMeanAgree(g: seq<seq<int>>, fg: seq<seq<bool>>, L1: seq<seq<nat>>, n1: nat,
                        L2: seq<seq<nat>>, n2: nat, k: nat)
    requires IsLabeling(fg, L1, n1) && IsLabeling(fg, L2, n2) && SameShape(g, fg) && 1 <= k <= n1
    ensures SameShape(g, L1) && SameShape(g, L2) && Used(L1, k) && 1 <= Corr(L1, L2, k) <= n2
    ensures CountLabel(L1, k) > 0 && CountLabel(L2, Corr(L1, L2, k)) > 0
    ensures RegionMean(g, L1, k) == RegionMean(g, L2, Corr(L1, L2, k))
  {
    CorrPixels(fg, L1, n1, L2, n2, k);
    CountAgree(L1, L2, k, Corr(L1, L2, k));
    LabelSumAgree(g, L1, L2, k, Corr(L1, L2, k));
    CountPositive(L1, k);
  }


  /** Two labellings of one mask have the same number of regions and the
      same sum of region means: the aggregate does not depend on the order
      in which the labeller numbers the regions. */
  lemma MeanSumAgree(g: seq<seq<int>>, fg: seq<seq<bool>>, L1: seq<seq<nat>>, n1: nat,
                     L2: seq<seq<nat>>, n2: nat)
    requires IsLabeling(fg, L1, n1) && IsLabeling(fg, L2, n2) && SameShape(g, fg)
    ensures n1 == n2 && SameShape(g, L1) && SameShape(g, L2) && Populated(L1, n1) && Populated(L2, n2)
    ensures MeanSum(g, L1, n1) == MeanSum(g, L2, n2)
  {
    LabelCountsAgree(fg, L1, n1, L2, n2);
    LabelingPopulated(fg, L1, n1);
    LabelingPopulated(fg, L2, n2);
    var pi, inv := CorrOrder(fg, L1, n1, L2, n2);
    MeansReordered(g, fg, L1, n1, L2, n2, pi);
    SumPermutation(Means(g, L2, n2), Means(g, L1, n1), pi, inv);
  }

  /** The list of region means of one labelling is the list of the other
      read in the order of Corr. */
  lemma MeansReordered(g: seq<seq<int>>, fg: seq<seq<bool>>, L1: seq<seq<nat>>, n1: nat,
                       L2: seq<seq<nat>>, n2: nat, pi: seq<nat>)
    requires IsLabeling(fg, L1, n1) && IsLabeling(fg, L2, n2) && SameShape(g, fg) && n1 == n2
    requires Populated(L1, n1) && Populated(L2, n2) && |pi| == n1
    requires forall i | 0 <= i < n1 :: Used(L1, i + 1) && pi[i] == Corr(L1, L2, i + 1) - 1 && pi[i] < n2
    ensures SameShape(g, L1) && SameShape(g, L2)
    ensures forall i | 0 <= i < n1 :: pi[i] < n2 && Means(g, L1, n1)[i] == Means(g, L2, n2)[pi[i]]
  {
    forall i | 0 <= i < n1 ensures pi[i] < n2 && Means(g, L1, n1)[i] == Means(g, L2, n2)[pi[i]] {
      MeanAt(g, fg, L1, n1, L2, n2, i, pi[i]);
    }
  }

  /** Entry i of the first list of means is entry j of the second, where
      region j + 1 corresponds to region i + 1. */
  lemma MeanAt(g: seq<seq<int>>, fg: seq<seq<bool>>, L1: seq<seq<nat>>, n1: nat,
               L2: seq<seq<nat>>, n2: nat, i: nat, j: nat)
    requires IsLabeling(fg, L1, n1) && IsLabeling(fg, L2, n2) && SameShape(g, fg)
    requires Populated(L1, n1) && Populated(L2, n2) && i < n1
    requires Used(L1, i + 1) && j + 1 == Corr(L1, L2, i + 1)
    ensures SameShape(g, L1) && SameShape(g, L2) && j < n2
    ensures Means(g, L1, n1)[i] == Means(g, L2, n2)[j]
  {
    RegionMeanAgree(g, fg, L1, n1, L2, n2, i + 1);
    MeansEntry(g, L1, n1, L2, n2, i, j);
  }

  lemma MeansEntry(g: seq<seq<int>>, L1: seq<seq<nat>>, n1: nat, L2: seq<seq<nat>>, n2: nat, i: nat, j: nat)
    requires SameShape(g, L1) && SameShape(g, L2) && Populated(L1, n1) && Populated(L2, n2)
    requires i < n1 && j < n2 && RegionMean(g, L1, i + 1) == RegionMean(g, L2, j + 1)
    ensures Means(g, L1, n1)[i] == Means(g, L2, n2)[j]
  {
  }

  /** Hence the mean luminescence does not depend on the labelling either. */
  lemma MeanLuminescenceAgree(g: seq<seq<int>>, fg: seq<seq<bool>>, L1: seq<seq<nat>>, n1: nat,
                              L2: seq<seq<nat>>, n2: nat)
    requires NonEmpty(g) && IsLabeling(fg, L1, n1) && IsLabeling(fg, L2, n2) && SameShape(g, fg)
    ensures SameShape(g, L1) && SameShape(g, L2) && Populated(L1, n1) && Populated(L2, n2)
    ensures MeanLuminescence(g, L1, n1) == MeanLuminescence(g, L2, n2)
  {
    MeanSumAgree(g, fg, L1, n1, L2, n2);
  }

  // ---------------------------------------------------------------------
  // Bounds: region means lie within the image's intensity range

  lemma {:induction false} RowLabelSumBounds(g: seq<int>, l: seq<nat>, k: nat, lo: int, hi: int)
    requires |g| == |l| && forall j | 0 <= j < |g| :: lo <= g[j] <= hi
    ensures RowCount(l, k) * lo <= RowLabelSum(g, l, k) <= RowCount(l, k) * hi
  {
    if l != [] {
      RowLabelSumBounds(g[1..], l[1..], k, lo, hi);
      var c := RowCount(l[1..], k);
      if l[0] == k {
        Distribute(1, c, lo);
        Distribute(1, c, hi);
      }
    }
  }

  /** The intensity of region k lies between count * lo and count * hi. */
  lemma {:induction false} LabelSumBounds(g: seq<seq<int>>, L: seq<seq<nat>>, k: nat, lo: int, hi: int)
    requires SameShape(g, L) && forall p | InBounds(g, p) :: lo <= g[p.0][p.1] <= hi
    ensures CountLabel(L, k) * lo <= LabelSum(g, L, k) <= CountLabel(L, k) * hi
  {
    if |L| > 0 {
      forall j | 0 <= j < |g[0]| ensures lo <= g[0][j] <= hi {
        assert InBounds(g, (0, j));
      }
      RowLabelSumBounds(g[0], L[0], k, lo, hi);
      forall p | InBounds(g[1..], p) ensures lo <= g[1..][p.0][p.1] <= hi {
        assert InBounds(g, (p.0 + 1, p.1));
      }
      LabelSumBounds(g[1..], L[1..], k, lo, hi);
      var a, b := RowCount(L[0], k), CountLabel(L[1..], k);
      Distribute(a, b, lo);
      Distribute(a, b, hi);
    }
  }

  /** Each region mean lies between any bounds of the intensities. */
  lemma RegionMeanBetween(g: seq<seq<int>>, L: seq<seq<nat>>, k: nat, lo: int, hi: int)
    requires SameShape(g, L) && CountLabel(L, k) > 0
    requires forall p | InBounds(g, p) :: lo <= g[p.0][p.1] <= hi
    ensures lo as real <= RegionMean(g, L, k) <= hi as real
  {
    LabelSumBounds(g, L, k, lo, hi);
    DivideBetween(LabelSum(g, L, k), CountLabel(L, k), lo, hi);
  }

  lemma {:induction false} MeanSumBetween(g: seq<seq<int>>, L: seq<seq<nat>>, n: nat, lo: int, hi: int)
    requires SameShape(g, L) && Populated(L, n)
    requires forall p | InBounds(g, p) :: lo <= g[p.0][p.1] <= hi
    ensures n as real * lo as real <= MeanSum(g, L, n) <= n as real * hi as real
  {
    MeansInRange(g, L, n, lo, hi);
    SumBetween(Means(g, L, n), lo as real, hi as real);
  }

  lemma MeansInRange(g: seq<seq<int>>, L: seq<seq<nat>>, n: nat, lo: int, hi: int)
    requires SameShape(g, L) && Populated(L, n)
    requires forall p | InBounds(g, p) :: lo <= g[p.0][p.1] <= hi
    ensures forall i | 0 <= i < n :: lo as real <= Means(g, L, n)[i] <= hi as real
  {
    forall i | 0 <= i < n ensures lo as real <= Means(g, L, n)[i] <= hi as real {
      RegionMeanBetween(g, L, i + 1, lo, hi);
    }
  }

  /** The result lies between lo - mean and hi - mean for any bounds lo, hi
      of the intensities. */
  lemma ResultBetween(g: seq<seq<int>>, L: seq<seq<nat>>, n: nat, lo: int, hi: int)
    requires NonEmpty(g) && SameShape(g, L) && Populated(L, n) && n > 0
    requires forall p | InBounds(g, p) :: lo <= g[p.0][p.1] <= hi
    ensures PixelCount(g) > 0
    ensures lo as real - Mean(g) <= MeanLuminescence(g, L, n).value <= hi as real - Mean(g)
  {
    PixelCountRect(g);
    MeanSumBetween(g, L, n, lo, hi);
    RealDivideBetween(MeanSum(g, L, n), n as real, lo as real, hi as real);
  }

  /** The result lies between min - mean and max - mean of the image. */
  lemma MeanLuminescenceBetween(g: seq<seq<int>>, L: seq<seq<nat>>, n: nat)
    requires NonEmpty(g) && SameShape(g, L) && Populated(L, n) && n > 0
    ensures PixelCount(g) > 0
    ensures Min(g) as real - Mean(g) <= MeanLuminescence(g, L, n).value <= Max(g) as real - Mean(g)
  {
    ResultBetween(g, L, n, Min(g), Max(g));
  }

  /** An image of one intensity has mean luminescence 0. */
  lemma UniformImageZero(g: seq<seq<int>>, L: seq<seq<nat>>, n: nat, v: int)
    requires NonEmpty(g) && SameShape(g, L) && Populated(L, n) && n > 0
    requires forall p | InBounds(g, p) :: g[p.0][p.1] == v
    ensures MeanLuminescence(g, L, n) == Success(0.0)
  {
    UniformMean(g, v);
    ResultBetween(g, L, n, v, v);
  }

  /** When every region has the image's mean intensity, the mean luminescence is 0. */
  lemma MeansAtImageMeanZero(g: seq<seq<int>>, L: seq<seq<nat>>, n: nat)
    requires NonEmpty(g) && SameShape(g, L) && Populated(L, n) && n > 0
    requires PixelCount(g) > 0
    requires forall i | 0 <= i < n :: Means(g, L, n)[i] == Mean(g)
    ensures MeanLuminescence(g, L, n) == Success(0.0)
  {
    MeansAllEqual(g, L, n, Mean(g));
    AverageOfEqual(MeanSum(g, L, n), n as real, Mean(g));
  }

  lemma MeansAllEqual(g: seq<seq<int>>, L: seq<seq<nat>>, n: nat, m: real)
    requires SameShape(g, L) && Populated(L, n)
    requires forall i | 0 <= i < n :: Means(g, L, n)[i] == m
    ensures MeanSum(g, L, n) == n as real * m
  {
    SumBetween(Means(g, L, n), m, m);
  }

  // ---------------------------------------------------------------------
  // Baseline subtraction: a constant offset of the image cancels

  /** The image with c added to every intensity. */
  function Shift(g: seq<seq<int>>, c: int): (r: seq<seq<int>>)
    ensures SameShape(r, g)
    ensures Rect(g) ==> Rect(r) && Width(r) == Width(g)
    ensures forall p | InBounds(g, p) :: r[p.0][p.1] == g[p.0][p.1] + c
  {
    seq(|g|, i requires 0 <= i < |g| => seq(|g[i]|, j requires 0 <= j < |g[i]| => g[i][j] + c))
  }

  lemma {:induction false} RowSumShift(r: seq<int>, c: int)
    ensures RowSum(seq(|r|, j requires 0 <= j < |r| => r[j] + c)) == RowSum(r) + |r| * c
  {
    if r != [] {
      var s := seq(|r|, j requires 0 <= j < |r| => r[j] + c);
      assert s[1..] == seq(|r| - 1, j requires 0 <= j < |r| - 1 => r[1..][j] + c);
      RowSumShift(r[1..], c);
      Distribute(1, |r| - 1, c);
    }
  }

  lemma {:induction false} SumShift(g: seq<seq<int>>, c: int)
    ensures Sum(Shift(g, c)) == Sum(g) + PixelCount(g) * c
  {
    if |g| > 0 {
      var s := Shift(g, c);
      assert s[0] == seq(|g[0]|, j requires 0 <= j < |g[0]| => g[0][j] + c);
      RowSumShift(g[0], c);
      assert s[1..] == Shift(g[1..], c);
      SumShift(g[1..], c);
      Distribute(|g[0]|, PixelCount(g[1..]), c);
    }
  }

  lemma {:induction false} RowLabelSumShift(g: seq<int>, l: seq<nat>, k: nat, c: int)
    requires |g| == |l|
    ensures RowLabelSum(seq(|g|, j requires 0 <= j < |g| => g[j] + c), l, k) == RowLabelSum(g, l, k) + RowCount(l, k) * c
  {
    if l != [] {
      var s := seq(|g|, j requires 0 <= j < |g| => g[j] + c);
      assert s[1..] == seq(|g| - 1, j requires 0 <= j < |g| - 1 => g[1..][j] + c);
      RowLabelSumShift(g[1..], l[1..], k, c);
      Distribute(if l[0] == k then 1 else 0, RowCount(l[1..], k), c);
    }
  }

  lemma {:induction false} LabelSumShift(g: seq<seq<int>>, L: seq<seq<nat>>, k: nat, c: int)
    requires SameShape(g, L)
    ensures LabelSum(Shift(g, c), L, k) == LabelSum(g, L, k) + CountLabel(L, k) * c
  {
    if |L| > 0 {
      var s := Shift(g, c);
      assert s[0] == seq(|g[0]|, j requires 0 <= j < |g[0]| => g[0][j] + c);
      RowLabelSumShift(g[0], L[0], k, c);
      assert s[1..] == Shift(g[1..], c);
      LabelSumShift(g[1..], L[1..], k, c);
      Distribute(RowCount(L[0], k), CountLabel(L[1..], k), c);
    }
  }

  lemma RegionMeanShift(g: seq<seq<int>>, L: seq<seq<nat>>, k: nat, c: int)
    requires SameShape(g, L) && CountLabel(L, k) > 0
    ensures RegionMean(Shift(g, c), L, k) == RegionMean(g, L, k) + c as real
  {
    LabelSumShift(g, L, k, c);
    DivShift(LabelSum(g, L, k), CountLabel(L, k), c);
  }

  lemma MeanSumShift(g: seq<seq<int>>, L: seq<seq<nat>>, n: nat, c: int)
    requires SameShape(g, L) && Populated(L, n)
    ensures MeanSum(Shift(g, c), L, n) == MeanSum(g, L, n) + n as real * c as real
  {
    MeansSumShift(g, L, n, c);
  }

  lemma MeansSumShift(g: seq<seq<int>>, L: seq<seq<nat>>, n: nat, c: int)
    requires SameShape(g, L) && Populated(L, n)
    ensures SameShape(Shift(g, c), L)
    ensures SeqSum(Means(Shift(g, c), L, n)) == SeqSum(Means(g, L, n)) + n as real * c as real
  {
    MeansShift(g, L, n, c);
    SumAddEach(Means(g, L, n), Means(Shift(g, c), L, n), n, c as real);
  }

  lemma MeansShift(g: seq<seq<int>>, L: seq<seq<nat>>, n: nat, c: int)
    requires SameShape(g, L) && Populated(L, n)
    ensures forall i | 0 <= i < n :: Means(Shift(g, c), L, n)[i] == Means(g, L, n)[i] + c as real
  {
    forall i | 0 <= i < n ensures Means(Shift(g, c), L, n)[i] == Means(g, L, n)[i] + c as real {
      RegionMeanShift(g, L, i + 1, c);
    }
  }

  /** Subtracting the image mean makes the result blind to a constant
      offset of the whole image, such as the camera's dark level. */
  lemma ShiftInvariant(g: seq<seq<int>>, L: seq<seq<nat>>, n: nat, c: int)
    requires NonEmpty(g) && SameShape(g, L) && Populated(L, n)
    ensures NonEmpty(Shift(g, c)) && SameShape(Shift(g, c), L)
    ensures MeanLuminescence(Shift(g, c), L, n) == MeanLuminescence(g, L, n)
  {
    var s := Shift(g, c);
    PixelCountRect(g);
    PixelCountRect(s);
    assert PixelCount(s) == PixelCount(g);
    if n > 0 {
      MeanSumShift(g, L, n, c);
      SumShift(g, c);
      DivShift(Sum(g), PixelCount(g), c);
      ShiftCancels(MeanSum(g, L, n), MeanSum(s, L, n), Mean(g), Mean(s), n as real, c as real);
    }
  }

}

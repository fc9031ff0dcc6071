/** Region sizes, the tiered size filter and the in-place removal of small
    regions (08_04_JM_emccd_script.py, lines 64-80). */
module Regions {
  import opened Grids
  import opened Labeling

  function RowCount(r: seq<nat>, k: nat): nat
  {
    if r == [] then 0 else (if r[0] == k then 1 else 0) + RowCount(r[1..], k)
  }

  /** Number of pixels carrying label k. */
  function CountLabel(L: seq<seq<nat>>, k: nat): nat
  {
    if |L| == 0 then 0 else RowCount(L[0], k) + CountLabel(L[1..], k)
  }

  function RowMaskSum(m: seq<bool>, l: seq<nat>, k: nat): (s: nat)
    requires |m| == |l|
    ensures s <= RowCount(l, k)
  {
    if l == [] then 0 else (if l[0] == k && m[0] then 1 else 0) + RowMaskSum(m[1..], l[1..], k)
  }

  /** ndimage.sum(mask, labelIm, k) with the mask read as 0/1: the number of
      mask pixels carrying label k. */
  function MaskSum(mask: seq<seq<bool>>, L: seq<seq<nat>>, k: nat): (s: nat)
    requires SameShape(mask, L)
    ensures s <= CountLabel(L, k)
  {
    if |L| == 0 then 0 else RowMaskSum(mask[0], L[0], k) + MaskSum(mask[1..], L[1..], k)
  }

  lemma {:induction false} RowCountPositive(r: seq<nat>, k: nat)
    ensures RowCount(r, k) > 0 <==> exists j | 0 <= j < |r| :: r[j] == k
  {
    if r != [] {
      RowCountPositive(r[1..], k);
      if exists j | 0 <= j < |r| :: r[j] == k {
        var j :| 0 <= j < |r| && r[j] == k;
        if j > 0 {
          assert r[1..][j - 1] == k;
        }
      }
      if exists j | 0 <= j < |r| - 1 :: r[1..][j] == k {
        var j :| 0 <= j < |r| - 1 && r[1..][j] == k;
        assert r[j + 1] == k;
      }
    }
  }

  /** A label has a positive count iff some pixel carries it. */
  lemma {:induction false} CountPositive(L: seq<seq<nat>>, k: nat)
    ensures CountLabel(L, k) > 0 <==> Used(L, k)
  {
    if |L| > 0 {
      RowCountPositive(L[0], k);
      CountPositive(L[1..], k);
      if Used(L, k) {
        var p :| InBounds(L, p) && L[p.0][p.1] == k;
        if p.0 > 0 {
          assert InBounds(L[1..], (p.0 - 1, p.1)) && L[1..][p.0 - 1][p.1] == k;
        }
      }
      if exists j | 0 <= j < |L[0]| :: L[0][j] == k {
        var j :| 0 <= j < |L[0]| && L[0][j] == k;
        assert InBounds(L, (0, j));
      }
      if Used(L[1..], k) {
        var p :| InBounds(L[1..], p) && L[1..][p.0][p.1] == k;
        assert InBounds(L, (p.0 + 1, p.1));
      }
    }
  }

  lemma {:induction false} RowMaskSumCount(m: seq<bool>, l: seq<nat>, k: nat)
    requires |m| == |l|
    requires forall j | 0 <= j < |l| :: l[j] != 0 <==> m[j]
    ensures RowMaskSum(m, l, k) == if k == 0 then 0 else RowCount(l, k)
  {
    if l != [] {
      RowMaskSumCount(m[1..], l[1..], k);
    }
  }

  /** On a labelling of the mask, the masked sum of label k is the count of
      k for k >= 1 and 0 for the background. */
  lemma {:induction false} MaskSumCount(mask: seq<seq<bool>>, L: seq<seq<nat>>, k: nat)
    requires SameShape(mask, L)
    requires forall p | InBounds(L, p) :: L[p.0][p.1] != 0 <==> mask[p.0][p.1]
    ensures MaskSum(mask, L, k) == if k == 0 then 0 else CountLabel(L, k)
  {
    if |L| > 0 {
      forall j | 0 <= j < |L[0]| ensures L[0][j] != 0 <==> mask[0][j] {
        assert InBounds(L, (0, j));
      }
      RowMaskSumCount(mask[0], L[0], k);
      forall p | InBounds(L[1..], p) ensures L[1..][p.0][p.1] != 0 <==> mask[1..][p.0][p.1] {
        assert InBounds(L, (p.0 + 1, p.1));
      }
      MaskSumCount(mask[1..], L[1..], k);
    }
  }

  /** sizes = ndimage.sum(mask, labelIm, range(numLabels + 1)). */
  function Sizes(mask: seq<seq<bool>>, L: seq<seq<nat>>, n: nat): (sizes: seq<nat>)
    requires SameShape(mask, L)
    ensures |sizes| == n + 1
    ensures forall k | 0 <= k <= n :: sizes[k] <= CountLabel(L, k)
  {
    seq(n + 1, k requires 0 <= k <= n => MaskSum(mask, L, k))
  }

  /** On the labelling of the mask, sizes[0] is 0 and sizes[k] is the
      number of pixels labelled k, at least one, for k in 1..n. */
  lemma SizesAreCounts(mask: seq<seq<bool>>, L: seq<seq<nat>>, n: nat)
    requires IsLabeling(mask, L, n)
    ensures SameShape(mask, L)
    ensures Sizes(mask, L, n)[0] == 0
    ensures forall k | 1 <= k <= n :: Sizes(mask, L, n)[k] == CountLabel(L, k) >= 1
  {
    forall p | InBounds(L, p) ensures L[p.0][p.1] != 0 <==> mask[p.0][p.1] {
      assert InBounds(mask, p) && LabelAt(L, p) == L[p.0][p.1];
    }
    MaskSumCount(mask, L, 0);
    forall k | 1 <= k <= n ensures Sizes(mask, L, n)[k] == CountLabel(L, k) >= 1 {
      MaskSumCount(mask, L, k);
      CountPositive(L, k);
    }
  }

  // ---------------------------------------------------------------------
  // The size tiers (lines 68-75)

  /** sizes.max(). */
  function Largest(s: seq<nat>): (m: nat)
    requires |s| > 0
    ensures exists k | 0 <= k < |s| :: s[k] == m
    ensures forall k | 0 <= k < |s| :: s[k] <= m
  {
    if |s| == 1 then s[0]
    else
      var t := Largest(s[1..]);
      assert forall k | 1 <= k < |s| :: s[k] == s[1..][k - 1];
      if s[0] >= t then s[0] else t
  }

  /** The fraction of the largest size below which a region is dropped. */
  function SizeFraction(m: nat): (f: real)
    ensures m < 500 ==> f == 0.3
    ensures 500 <= m < 1000 ==> f == 0.25
    ensures 1000 <= m < 2000 ==> f == 0.09
    ensures 2000 <= m ==> f == 0.1
  {
    if m < 500 then 0.3
    else if m < 1000 then 0.25
    else if m < 2000 then 0.09
    else 0.1
  }

  /** sizes.max() * fraction: a positive largest size gives a cutoff strictly
      between 0 and itself. */
  function SizeCutoff(m: nat): (c: real)
    ensures c == m as real * SizeFraction(m)
    ensures 0.0 <= c <= m as real
    ensures m > 0 ==> 0.0 < c < m as real
  {
    m as real * SizeFraction(m)
  }

  /** maskSize: label k is flagged iff its size is strictly below the
      fraction of the largest size. */
  function Flags(sizes: seq<nat>): (flags: seq<bool>)
    requires |sizes| > 0
    ensures |flags| == |sizes|
    ensures forall k | 0 <= k < |sizes| :: flags[k] ==> sizes[k] < Largest(sizes)
    ensures forall k | 0 <= k < |sizes| :: sizes[k] == Largest(sizes) ==> !flags[k]
  {
    var c := SizeCutoff(Largest(sizes));
    seq(|sizes|, k requires 0 <= k < |sizes| => sizes[k] as real < c)
  }

  /** The cutoff is a fraction of the largest size: flagging is by size only,
      and a flagged size is strictly below the largest. */
  lemma FlagMeaning(sizes: seq<nat>, k: int)
    requires |sizes| > 0 && 0 <= k < |sizes|
    ensures Flags(sizes)[k] <==> sizes[k] as real < SizeCutoff(Largest(sizes))
    ensures Flags(sizes)[k] ==> sizes[k] < Largest(sizes)
  {
    var c := SizeCutoff(Largest(sizes));
    assert Flags(sizes)[k] == (sizes[k] as real < c);
  }

  /** The largest region is never flagged, so the filter keeps at least one
      region whenever there is one. */
  lemma LargestKept(sizes: seq<nat>, k: int)
    requires |sizes| > 0 && 0 <= k < |sizes| && sizes[k] == Largest(sizes)
    ensures !Flags(sizes)[k]
  {
  }

  /** A region no larger than a flagged one is flagged too. */
  lemma SmallerFlagged(sizes: seq<nat>, a: int, b: int)
    requires |sizes| > 0 && 0 <= a < |sizes| && 0 <= b < |sizes|
    requires sizes[a] <= sizes[b] && Flags(sizes)[b]
    ensures Flags(sizes)[a]
  {
  }

  /** Without any region nothing is flagged; with a region, the background
      entry sizes[0] == 0 is flagged (removing it is harmless). */
  lemma BackgroundFlag(sizes: seq<nat>)
    requires |sizes| > 0 && sizes[0] == 0
    ensures Flags(sizes)[0] <==> Largest(sizes) > 0
  {
  }

  // ---------------------------------------------------------------------
  // Removal (lines 78-80)

  /** Every label indexes the flag table. */
  ghost predicate InTable(L: seq<seq<nat>>, flags: seq<bool>)
  {
    forall p | InBounds(L, p) :: L[p.0][p.1] < |flags|
  }

  /** labelIm[maskSize[labelIm]] = 0 as a value: flagged labels become 0. */
  function Removed(L: seq<seq<nat>>, flags: seq<bool>): (r: seq<seq<nat>>)
    requires InTable(L, flags)
    ensures SameShape(r, L)
    ensures forall p | InBounds(L, p) :: r[p.0][p.1] == 0 || r[p.0][p.1] == L[p.0][p.1]
    ensures forall p | InBounds(L, p) :: r[p.0][p.1] != 0 ==> !flags[r[p.0][p.1]]
  {
    seq(|L|, i requires 0 <= i < |L| => seq(|L[i]|, j requires 0 <= j < |L[i]| =>
      assert InBounds(L, (i, j));
      if flags[L[i][j]] then 0 else L[i][j]))
  }

  /** Removal zeroes exactly the pixels whose label is flagged and leaves
      every other label alone. */
  lemma RemovedPixels(L: seq<seq<nat>>, flags: seq<bool>, p: Pixel)
    requires InTable(L, flags) && InBounds(L, p)
    ensures InBounds(Removed(L, flags), p)
    ensures flags[L[p.0][p.1]] ==> LabelAt(Removed(L, flags), p) == 0
    ensures !flags[L[p.0][p.1]] ==> LabelAt(Removed(L, flags), p) == LabelAt(L, p)
  {
  }

  /** A region is kept or dropped as a whole: label k survives removal on a
      pixel iff k is unflagged, and then it survives on every pixel of k. */
  lemma RemovedWhole(L: seq<seq<nat>>, flags: seq<bool>, k: nat)
    requires InTable(L, flags) && 1 <= k < |flags|
    ensures Used(Removed(L, flags), k) <==> Used(L, k) && !flags[k]
    ensures !flags[k] ==> forall p | InBounds(L, p) && L[p.0][p.1] == k :: LabelAt(Removed(L, flags), p) == k
  {
    var r := Removed(L, flags);
    if Used(r, k) {
      var p :| InBounds(r, p) && r[p.0][p.1] == k;
      assert InBounds(L, p);
    }
    if Used(L, k) && !flags[k] {
      var p :| InBounds(L, p) && L[p.0][p.1] == k;
      assert InBounds(r, p) && r[p.0][p.1] == k;
    }
  }

  /** Removal read through LabelAt: a surviving label is the old label. */
  lemma SurvivorLabel(L: seq<seq<nat>>, flags: seq<bool>, x: Pixel)
    requires InTable(L, flags)
    ensures LabelAt(Removed(L, flags), x) != 0 ==> LabelAt(Removed(L, flags), x) == LabelAt(L, x)
    ensures LabelAt(L, x) != 0 && LabelAt(L, x) < |flags| && !flags[LabelAt(L, x)] ==>
      LabelAt(Removed(L, flags), x) == LabelAt(L, x)
  {
    if InBounds(L, x) {
      RemovedPixels(L, flags, x);
    }
  }

  /** Every pixel of a walk through the foreground carries the label of its start. */
  lemma PathOnOneLabel(fg: seq<seq<bool>>, L: seq<seq<nat>>, n: nat, path: seq<Pixel>)
    requires IsLabeling(fg, L, n) && IsPath(fg, path)
    ensures forall i | 0 <= i < |path| :: LabelAt(L, path[i]) == LabelAt(L, path[0])
  {
    forall i | 0 <= i < |path| ensures LabelAt(L, path[i]) == LabelAt(L, path[0]) {
      var prefix := path[..i + 1];
      assert IsPath(fg, prefix);
      PathKeepsLabel(fg, L, n, prefix);
    }
  }

  /** A walk through the survivors is a walk through the mask. */
  lemma SurvivorPathInMask(mask: seq<seq<bool>>, L: seq<seq<nat>>, n: nat, flags: seq<bool>, path: seq<Pixel>)
    requires IsLabeling(mask, L, n) && InTable(L, flags)
    requires IsPath(NonZero(Removed(L, flags)), path)
    ensures IsPath(mask, path)
    ensures forall i | 0 <= i < |path| :: LabelAt(Removed(L, flags), path[i]) == LabelAt(L, path[i])
  {
    var fg := NonZero(Removed(L, flags));
    forall i | 0 <= i < |path| ensures Fg(mask, path[i]) && LabelAt(Removed(L, flags), path[i]) == LabelAt(L, path[i]) {
      assert Fg(fg, path[i]);
      SurvivorLabel(L, flags, path[i]);
      assert InBounds(mask, path[i]);
    }
  }

  /** A walk through the mask from a surviving pixel stays on survivors. */
  lemma MaskPathSurvives(mask: seq<seq<bool>>, L: seq<seq<nat>>, n: nat, flags: seq<bool>, path: seq<Pixel>)
    requires IsLabeling(mask, L, n) && InTable(L, flags)
    requires IsPath(mask, path) && LabelAt(Removed(L, flags), path[0]) != 0
    ensures IsPath(NonZero(Removed(L, flags)), path)
  {
    var r := Removed(L, flags);
    SurvivorLabel(L, flags, path[0]);
    PathOnOneLabel(mask, L, n, path);
    var k := LabelAt(L, path[0]);
    assert InBounds(L, path[0]);
    RemovedPixels(L, flags, path[0]);
    forall i | 0 <= i < |path| ensures LabelAt(r, path[i]) != 0 {
      SurvivorLabel(L, flags, path[i]);
    }
  }

  /** After removal the surviving regions are still whole components: two
      surviving pixels are connected through the surviving pixels iff they
      carry the same label. */
  lemma SurvivorsAreComponents(mask: seq<seq<bool>>, L: seq<seq<nat>>, n: nat, flags: seq<bool>,
                               p: Pixel, q: Pixel)
    requires IsLabeling(mask, L, n) && InTable(L, flags)
    requires LabelAt(Removed(L, flags), p) != 0 && LabelAt(Removed(L, flags), q) != 0
    ensures Connected(NonZero(Removed(L, flags)), p, q) <==>
            LabelAt(Removed(L, flags), p) == LabelAt(Removed(L, flags), q)
  {
    var r := Removed(L, flags);
    var fg := NonZero(r);
    SurvivorLabel(L, flags, p);
    SurvivorLabel(L, flags, q);
    if Connected(fg, p, q) {
      var path :| IsPath(fg, path) && path[0] == p && path[|path| - 1] == q;
      SurvivorPathInMask(mask, L, n, flags, path);
      PathKeepsLabel(mask, L, n, path);
    }
    if LabelAt(r, p) == LabelAt(r, q) {
      assert Fg(mask, p) && Fg(mask, q) by {
        assert Fg(fg, p) && Fg(fg, q);
        SurvivorPathInMask(mask, L, n, flags, [p]);
        SurvivorPathInMask(mask, L, n, flags, [q]);
      }
      assert LabelAt(L, p) == LabelAt(L, q);
      assert Connected(mask, p, q);
      var path :| IsPath(mask, path) && path[0] == p && path[|path| - 1] == q;
      MaskPathSurvives(mask, L, n, flags, path);
    }
  }

  /** A label map with a background pixel keeps it through removal. */
  lemma BackgroundSurvives(L: seq<seq<nat>>, flags: seq<bool>, b: Pixel)
    requires InTable(L, flags) && InBounds(L, b) && L[b.0][b.1] == 0
    ensures InBounds(Removed(L, flags), b) && Removed(L, flags)[b.0][b.1] == 0
    ensures Used(Removed(L, flags), 0)
  {
    RemovedPixels(L, flags, b);
    assert InBounds(Removed(L, flags), b) && Removed(L, flags)[b.0][b.1] == 0;
  }

  /** The labels of a labelling index its flag table. */
  lemma LabelsInTable(mask: seq<seq<bool>>, L: seq<seq<nat>>, n: nat)
    requires IsLabeling(mask, L, n)
    ensures SameShape(mask, L) && InTable(L, Flags(Sizes(mask, L, n)))
  {
    forall p | InBounds(L, p) ensures L[p.0][p.1] < n + 1 {
      assert LabelAt(L, p) == L[p.0][p.1];
    }
  }

  /** Some region survives the size filter iff there was a region at all:
      the largest region is always kept. */
  lemma FilterKeepsLargest(mask: seq<seq<bool>>, L: seq<seq<nat>>, n: nat, flags: seq<bool>)
    requires IsLabeling(mask, L, n) && SameShape(mask, L)
    requires flags == Flags(Sizes(mask, L, n)) && InTable(L, flags)
    ensures (exists p :: LabelAt(Removed(L, flags), p) != 0) <==> n > 0
  {
    if p :| LabelAt(Removed(L, flags), p) != 0 {
      SurvivorLabel(L, flags, p);
      assert n > 0;
    }
    if n > 0 {
      var sizes := Sizes(mask, L, n);
      SizesAreCounts(mask, L, n);
      var k :| 0 <= k < |sizes| && sizes[k] == Largest(sizes);
      assert sizes[1] >= 1;
      LargestKept(sizes, k);
      assert Used(L, k);
      var p :| InBounds(L, p) && L[p.0][p.1] == k;
      SurvivorLabel(L, flags, p);
      assert LabelAt(Removed(L, flags), p) != 0;
    }
  }

  // ---------------------------------------------------------------------
  // Independence of the labelling

  lemma {:induction false} RowCountAgree(l1: seq<nat>, l2: seq<nat>, a: nat, b: nat)
    requires |l1| == |l2| && forall j | 0 <= j < |l1| :: l1[j] == a <==> l2[j] == b
    ensures RowCount(l1, a) == RowCount(l2, b)
  {
    if l1 != [] {
      RowCountAgree(l1[1..], l2[1..], a, b);
    }
  }

  /** Two labels carried by the same pixels have the same count. */
  lemma {:induction false} CountAgree(L1: seq<seq<nat>>, L2: seq<seq<nat>>, a: nat, b: nat)
    requires SameShape(L1, L2)
    requires forall p | InBounds(L1, p) :: L1[p.0][p.1] == a <==> L2[p.0][p.1] == b
    ensures CountLabel(L1, a) == CountLabel(L2, b)
  {
    if |L1| > 0 {
      forall j | 0 <= j < |L1[0]| ensures L1[0][j] == a <==> L2[0][j] == b {
        assert InBounds(L1, (0, j));
      }
      RowCountAgree(L1[0], L2[0], a, b);
      forall p | InBounds(L1[1..], p) ensures L1[1..][p.0][p.1] == a <==> L2[1..][p.0][p.1] == b {
        assert InBounds(L1, (p.0 + 1, p.1));
      }
      CountAgree(L1[1..], L2[1..], a, b);
    }
  }

  /** Label k of a labelling and label Corr(k) of another labelling of the
      same mask are carried by the same pixels. */
  lemma CorrPixels(mask: seq<seq<bool>>, L1: seq<seq<nat>>, n1: nat, L2: seq<seq<nat>>, n2: nat, k: nat)
    requires IsLabeling(mask, L1, n1) && IsLabeling(mask, L2, n2) && 1 <= k <= n1
    ensures SameShape(L1, L2) && Used(L1, k) && 1 <= Corr(L1, L2, k) <= n2
    ensures forall p | InBounds(L1, p) :: L1[p.0][p.1] == k <==> L2[p.0][p.1] == Corr(L1, L2, k)
  {
    CorrLabel(mask, L1, n1, L2, n2, k, (0, 0));
    forall p | InBounds(L1, p) ensures L1[p.0][p.1] == k <==> L2[p.0][p.1] == Corr(L1, L2, k) {
      CorrLabel(mask, L1, n1, L2, n2, k, p);
      assert InBounds(L2, p);
    }
  }

  /** Region k of one labelling and region Corr(k) of another have the same
      size. */
  lemma SizeAgree(mask: seq<seq<bool>>, L1: seq<seq<nat>>, n1: nat, L2: seq<seq<nat>>, n2: nat, k: nat)
    requires IsLabeling(mask, L1, n1) && IsLabeling(mask, L2, n2) && 1 <= k <= n1
    ensures SameShape(mask, L1) && SameShape(mask, L2)
    ensures Used(L1, k) && 1 <= Corr(L1, L2, k) <= n2
    ensures Sizes(mask, L1, n1)[k] == Sizes(mask, L2, n2)[Corr(L1, L2, k)]
  {
    CorrPixels(mask, L1, n1, L2, n2, k);
    CountAgree(L1, L2, k, Corr(L1, L2, k));
    SizesAreCounts(mask, L1, n1);
    SizesAreCounts(mask, L2, n2);
  }

  lemma LargestAtMost(mask: seq<seq<bool>>, L1: seq<seq<nat>>, n1: nat, L2: seq<seq<nat>>, n2: nat)
    requires IsLabeling(mask, L1, n1) && IsLabeling(mask, L2, n2)
    ensures SameShape(mask, L1) && SameShape(mask, L2)
    ensures Largest(Sizes(mask, L1, n1)) <= Largest(Sizes(mask, L2, n2))
  {
    var s1, s2 := Sizes(mask, L1, n1), Sizes(mask, L2, n2);
    var k :| 0 <= k < |s1| && s1[k] == Largest(s1);
    SizesAreCounts(mask, L1, n1);
    if k > 0 {
      SizeAgree(mask, L1, n1, L2, n2, k);
      assert s2[Corr(L1, L2, k)] <= Largest(s2);
    }
  }

  /** A pixel survives the size filter under one labelling of the mask iff it
      survives under another. */
  lemma PixelKept(mask: seq<seq<bool>>, L1: seq<seq<nat>>, n1: nat, flags1: seq<bool>,
                  L2: seq<seq<nat>>, n2: nat, flags2: seq<bool>, p: Pixel)
    requires IsLabeling(mask, L1, n1) && IsLabeling(mask, L2, n2)
    requires SameShape(mask, L1) && SameShape(mask, L2)
    requires flags1 == Flags(Sizes(mask, L1, n1)) && InTable(L1, flags1)
    requires flags2 == Flags(Sizes(mask, L2, n2)) && InTable(L2, flags2)
    requires Largest(Sizes(mask, L1, n1)) == Largest(Sizes(mask, L2, n2))
    requires InBounds(mask, p)
    ensures LabelAt(Removed(L1, flags1), p) != 0 <==> LabelAt(Removed(L2, flags2), p) != 0
  {
    RemovedPixels(L1, flags1, p);
    RemovedPixels(L2, flags2, p);
    var k := LabelAt(L1, p);
    if k != 0 {
      SizeAgree(mask, L1, n1, L2, n2, k);
      CorrLabel(mask, L1, n1, L2, n2, k, p);
      FlagMeaning(Sizes(mask, L1, n1), k);
      FlagMeaning(Sizes(mask, L2, n2), Corr(L1, L2, k));
    } else {
      assert LabelAt(L2, p) == 0;
    }
  }

  /** The size filter keeps the same pixels whichever labelling of the mask
      it is given. */
  lemma KeptAgree(mask: seq<seq<bool>>, L1: seq<seq<nat>>, n1: nat, flags1: seq<bool>,
                  L2: seq<seq<nat>>, n2: nat, flags2: seq<bool>)
    requires IsLabeling(mask, L1, n1) && IsLabeling(mask, L2, n2)
    requires SameShape(mask, L1) && SameShape(mask, L2)
    requires flags1 == Flags(Sizes(mask, L1, n1)) && InTable(L1, flags1)
    requires flags2 == Flags(Sizes(mask, L2, n2)) && InTable(L2, flags2)
    ensures NonZero(Removed(L1, flags1)) == NonZero(Removed(L2, flags2))
  {
    LargestAtMost(mask, L1, n1, L2, n2);
    LargestAtMost(mask, L2, n2, L1, n1);
    var m1, m2 := NonZero(Removed(L1, flags1)), NonZero(Removed(L2, flags2));
    forall p | InBounds(m1, p) ensures m1[p.0][p.1] == m2[p.0][p.1] {
      PixelKept(mask, L1, n1, flags1, L2, n2, flags2, p);
      assert Fg(m1, p) == m1[p.0][p.1] && InBounds(m2, p) && Fg(m2, p) == m2[p.0][p.1];
    }
    GridExt(m1, m2);
  }

  /** labelIm[removePixels] = 0 on the label array itself. */
  method RemoveFlagged(lab: array2<nat>, flags: seq<bool>)
    requires InTable(Rows(lab), flags)
    modifies lab
    ensures Rows(lab) == Removed(old(Rows(lab)), flags)
  {
    ghost var L := Rows(lab);
    for i := 0 to lab.Length0
      invariant forall x, y | 0 <= x < lab.Length0 && 0 <= y < lab.Length1 ::
        InBounds(L, (x, y)) && lab[x, y] == if x < i && flags[L[x][y]] then 0 else L[x][y]
    {
      for j := 0 to lab.Length1
        invariant forall x, y | 0 <= x < lab.Length0 && 0 <= y < lab.Length1 ::
          InBounds(L, (x, y)) && lab[x, y] == if Before((x, y), i, j) && flags[L[x][y]] then 0 else L[x][y]
      {
        assert InBounds(L, (i, j));
        if flags[lab[i, j]] {
          lab[i, j] := 0;
        }
      }
    }
    ghost var r, o := Rows(lab), Removed(L, flags);
    forall p | InBounds(r, p) ensures r[p.0][p.1] == o[p.0][p.1] {
      assert InBounds(L, p);
    }
    GridExt(r, o);
  }
}

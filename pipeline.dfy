/** The whole analysis of 08_04_JM_emccd_script.py (lines 28-93) as one
    method: threshold, clean, re-derive the mask, label, measure, filter,
    compact, label again and aggregate.  Its stages are returned so that the
    theorems below can speak about them. */
module Pipeline {
  import opened Grids
  import opened Threshold
  import opened Morphology
  import opened Labeling
  import opened Regions
  import opened Ranks
  import opened Statistics
  import opened Outcomes

  /** The intermediate values of the script, named after its variables. */
  datatype Stages = Stages(
    binary: seq<seq<bool>>,        // binaryImg (line 45)
    eroded: seq<seq<bool>>,        // erodedImg (line 49)
    reconstruct: seq<seq<bool>>,   // reconstructImg (line 50)
    cleaned: seq<seq<bool>>,       // reconstructFinal (line 53)
    mask: seq<seq<bool>>,          // mask (line 57)
    first: seq<seq<nat>>,          // labelIm (line 59)
    count: nat,                    // numLabels (line 59)
    sizes: seq<nat>,               // sizes (line 64)
    flags: seq<bool>,              // maskSize (lines 68-75)
    kept: seq<seq<nat>>,           // labelIm after line 80
    ranked: seq<seq<nat>>,         // labelIm after line 85
    objects: seq<seq<nat>>,        // labelIm (line 92)
    objectCount: nat)              // numLabels (line 92)

  /** Each stage is what the script computes from the stage before it. */
  ghost predicate Traces(image: seq<seq<int>>, st: Stages)
  {
    && NonEmpty(image)
    && st.binary == ThresholdMask(image)
    && st.eroded == Erode(st.binary)
    && IsPropagation(st.eroded, st.binary, st.reconstruct)
    && IsPropagation(Erode(Not(st.reconstruct)), Not(st.reconstruct), Not(st.cleaned))
    && PixelCount(st.cleaned) > 0 && st.mask == Remask(st.cleaned)
    && IsLabeling(st.mask, st.first, st.count) && SameShape(st.mask, st.first)
    && st.sizes == Sizes(st.mask, st.first, st.count)
    && st.flags == Flags(st.sizes)
    && InTable(st.first, st.flags) && st.kept == Removed(st.first, st.flags)
    && st.ranked == Relabel(st.kept)
    && IsLabeling(NonZero(st.ranked), st.objects, st.objectCount)
    && SameShape(image, st.objects) && Populated(st.objects, st.objectCount)
  }

  /** The script on one image: an image without pixels has no result;
      otherwise every stage is traced and the result is the aggregated mean
      luminescence of the final objects. */
  method Analyze(image: seq<seq<int>>) returns (st: Stages, r: Result<real>)
    requires Rect(image)
    ensures !NonEmpty(image) ==> r == Failure(EmptyImage)
    ensures NonEmpty(image) ==> Traces(image, st) && r == MeanLuminescence(image, st.objects, st.objectCount)
  {
    if |image| == 0 || Width(image) == 0 {
      st := Stages([], [], [], [], [], [], 0, [], [], [], [], [], 0);
      r := Failure(EmptyImage);
      return;
    }
    var binary := ThresholdMask(image);
    var eroded, reconstruct, cleaned := Clean(binary);
    CleanBounds(binary, reconstruct, cleaned);
    PixelCountRect(cleaned);
    var mask := Remask(cleaned);
    var lab, count := Label(mask);
    var first := Rows(lab);
    var sizes := Sizes(mask, first, count);
    var flags := Flags(sizes);
    assert InTable(first, flags) by {
      forall p | InBounds(first, p) ensures first[p.0][p.1] < |flags| {
        assert LabelAt(first, p) == first[p.0][p.1];
      }
    }
    RemoveFlagged(lab, flags);
    var kept := Rows(lab);
    var ranked := Relabel(kept);
    var lab2, objectCount := Label(NonZero(ranked));
    var objects := Rows(lab2);
    LabelingPopulated(NonZero(ranked), objects, objectCount);
    st := Stages(binary, eroded, reconstruct, cleaned, mask, first, count, sizes, flags,
                 kept, ranked, objects, objectCount);
    r := MeanLuminescence(image, objects, objectCount);
  }

  // ---------------------------------------------------------------------
  // Properties of the whole analysis

  /** erodedImg <= reconstructImg <= binaryImg, and the hole pass only adds:
      reconstructImg <= reconstructFinal. */
  lemma CleaningBounds(image: seq<seq<int>>, st: Stages)
    requires Traces(image, st)
    ensures Within(st.eroded, st.reconstruct) && Within(st.reconstruct, st.binary)
    ensures Within(st.reconstruct, st.cleaned)
  {
    CleanBounds(st.binary, st.reconstruct, st.cleaned);
  }

  /** The re-derived mask always leaves a background pixel, so label 0 is in
      use when the labels are compacted and compaction keeps the
      foreground unchanged. */
  lemma BackgroundRemains(image: seq<seq<int>>, st: Stages)
    requires Traces(image, st)
    ensures Used(st.kept, 0)
    ensures NonZero(st.ranked) == NonZero(st.kept)
  {
    MaskBackground(st.cleaned, st.first, st.count, st.flags);
  }

  /** The same, stage by stage: the background pixel left by line 57 keeps
      label 0 through removal, so compaction keeps 0 for the background. */
  lemma MaskBackground(cleaned: seq<seq<bool>>, L: seq<seq<nat>>, n: nat, flags: seq<bool>)
    requires PixelCount(cleaned) > 0
    requires IsLabeling(Remask(cleaned), L, n) && InTable(L, flags)
    ensures Used(Removed(L, flags), 0)
    ensures NonZero(Relabel(Removed(L, flags))) == NonZero(Removed(L, flags))
  {
    var b := RemaskHasBackground(cleaned);
    assert InBounds(Remask(cleaned), b) && LabelAt(L, b) == 0;
    BackgroundSurvives(L, flags, b);
    CompactionKeepsForeground(Removed(L, flags));
  }

  /** The second labelling (line 92) recovers exactly the regions that
      survived the size filter: a pixel is in an object iff it survived, and
      two survivors share an object iff they shared a label. */
  lemma ObjectsAreSurvivors(image: seq<seq<int>>, st: Stages, p: Pixel, q: Pixel)
    requires Traces(image, st)
    ensures LabelAt(st.objects, p) != 0 <==> LabelAt(st.kept, p) != 0
    ensures LabelAt(st.kept, p) != 0 && LabelAt(st.kept, q) != 0 ==>
      (LabelAt(st.objects, p) == LabelAt(st.objects, q) <==> LabelAt(st.kept, p) == LabelAt(st.kept, q))
  {
    BackgroundRemains(image, st);
    Relabelled(st.mask, st.first, st.count, st.flags, st.objects, st.objectCount, p, q);
  }

  /** Labelling the survivors again gives one label per surviving region. */
  lemma Relabelled(mask: seq<seq<bool>>, L: seq<seq<nat>>, n: nat, flags: seq<bool>,
                   objects: seq<seq<nat>>, m: nat, p: Pixel, q: Pixel)
    requires IsLabeling(mask, L, n) && InTable(L, flags)
    requires IsLabeling(NonZero(Removed(L, flags)), objects, m)
    ensures LabelAt(objects, p) != 0 <==> LabelAt(Removed(L, flags), p) != 0
    ensures LabelAt(Removed(L, flags), p) != 0 && LabelAt(Removed(L, flags), q) != 0 ==>
      (LabelAt(objects, p) == LabelAt(objects, q) <==> LabelAt(Removed(L, flags), p) == LabelAt(Removed(L, flags), q))
  {
    var kept := Removed(L, flags);
    var fg := NonZero(kept);
    assert InBounds(fg, p) <==> InBounds(objects, p);
    if LabelAt(kept, p) != 0 && LabelAt(kept, q) != 0 {
      SameLabelIffConnected(fg, objects, m, p, q);
      SurvivorsAreComponents(mask, L, n, flags, p, q);
    }
  }

  /** The analysis has no objects, and so no value, iff the re-derived mask
      has no foreground; otherwise the largest region survives and there is
      at least one object. */
  lemma NoObjectsIffEmptyMask(image: seq<seq<int>>, st: Stages)
    requires Traces(image, st)
    ensures st.count == 0 <==> forall p :: !Fg(st.mask, p)
    ensures st.objectCount == 0 <==> st.count == 0
    ensures MeanLuminescence(image, st.objects, st.objectCount) == Failure(NoObjects) <==> st.count == 0
  {
    BackgroundRemains(image, st);
    NoLabelsIffEmpty(st.mask, st.first, st.count);
    NoLabelsIffEmpty(NonZero(st.kept), st.objects, st.objectCount);
    FilterKeepsLargest(st.mask, st.first, st.count, st.flags);
  }

  /** The analysis is a function of the image: whichever admissible
      labellings the labeller returns at lines 59 and 92, two traces of one
      image agree on the mask, on the number of regions, on the foreground
      that survives the size filter, on the number of objects and on the
      result. */
  lemma TracesAgree(image: seq<seq<int>>, st1: Stages, st2: Stages)
    requires Traces(image, st1) && Traces(image, st2)
    ensures st1.cleaned == st2.cleaned && st1.mask == st2.mask && st1.count == st2.count
    ensures NonZero(st1.ranked) == NonZero(st2.ranked)
    ensures st1.objectCount == st2.objectCount
    ensures MeanLuminescence(image, st1.objects, st1.objectCount) == MeanLuminescence(image, st2.objects, st2.objectCount)
  {
    CleanDeterminate(st1.binary, st1.reconstruct, st1.cleaned, st2.reconstruct, st2.cleaned);
    LabelCountsAgree(st1.mask, st1.first, st1.count, st2.first, st2.count);
    KeptAgree(st1.mask, st1.first, st1.count, st1.flags, st2.first, st2.count, st2.flags);
    BackgroundRemains(image, st1);
    BackgroundRemains(image, st2);
    var fg := NonZero(st1.ranked);
    LabelCountsAgree(fg, st1.objects, st1.objectCount, st2.objects, st2.objectCount);
    MeanLuminescenceAgree(image, fg, st1.objects, st1.objectCount, st2.objects, st2.objectCount);
  }

  /** A uniform image below the absolute floor of 10000 has no objects and
      no value, whatever its size: nothing passes the threshold, and the
      cleaned mask re-derived by line 57 is empty. */
  lemma DimUniformImageFails(image: seq<seq<int>>, st: Stages, v: int)
    requires Traces(image, st)
    requires 0 <= v < 10000 && forall p | InBounds(image, p) :: image[p.0][p.1] == v
    ensures st.count == 0 && st.objectCount == 0
    ensures MeanLuminescence(image, st.objects, st.objectCount) == Failure(NoObjects)
  {
    UniformDimImageEmpty(image, v);
    DimCleaned(st.binary, st.reconstruct, st.cleaned);
    NoObjectsIffEmptyMask(image, st);
  }
}

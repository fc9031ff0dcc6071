/** Connected-component labelling under 4-connectivity (ndimage.label,
    08_04_JM_emccd_script.py lines 59 and 92).  The label map is built on a
    2-D array by a raster scan: each foreground pixel that is still
    unlabelled starts a new label, whose component is found by propagation
    from that pixel through the foreground and painted into the array. */
module Labeling {
  import opened Grids
  import opened Arith
  import opened Morphology

  /** The label of a pixel; positions outside the map read as background. */
  function LabelAt(L: seq<seq<nat>>, p: Pixel): nat
  {
    if InBounds(L, p) then L[p.0][p.1] else 0
  }

  /** Some pixel of the map carries label k. */
  ghost predicate Used(L: seq<seq<nat>>, k: nat)
  {
    exists p | InBounds(L, p) :: L[p.0][p.1] == k
  }

  /** L labels the 4-connected components of the foreground of fg with
      1..n: background is 0, adjacent foreground pixels share a label, every
      label of 1..n is used, and pixels sharing a label are connected. */
  ghost predicate IsLabeling(fg: seq<seq<bool>>, L: seq<seq<nat>>, n: nat)
  {
    && SameShape(L, fg)
    && (forall p | InBounds(fg, p) :: LabelAt(L, p) == 0 <==> !fg[p.0][p.1])
    && (forall p :: LabelAt(L, p) <= n)
    && (forall p, q | Fg(fg, p) && Fg(fg, q) && Adjacent(p, q) :: LabelAt(L, p) == LabelAt(L, q))
    && (forall k | 1 <= k <= n :: Used(L, k))
    && (forall p, q | Fg(fg, p) && Fg(fg, q) && LabelAt(L, p) == LabelAt(L, q) :: Connected(fg, p, q))
  }

  /** The foreground of a label map, as ndimage.label reads a non-binary
      input: every non-zero label is foreground. */
  function NonZero(L: seq<seq<nat>>): (m: seq<seq<bool>>)
    ensures SameShape(m, L)
    ensures Rect(L) ==> Rect(m) && Width(m) == Width(L)
    ensures forall p :: Fg(m, p) <==> LabelAt(L, p) != 0
  {
    seq(|L|, i requires 0 <= i < |L| => seq(|L[i]|, j requires 0 <= j < |L[i]| => L[i][j] != 0))
  }

  /** A walk through the foreground never changes label. */
  lemma {:induction false} PathKeepsLabel(fg: seq<seq<bool>>, L: seq<seq<nat>>, n: nat, path: seq<Pixel>)
    requires IsLabeling(fg, L, n) && IsPath(fg, path)
    ensures LabelAt(L, path[0]) == LabelAt(L, path[|path| - 1])
    decreases |path|
  {
    if |path| > 1 {
      var prefix := path[..|path| - 1];
      assert IsPath(fg, prefix);
      PathKeepsLabel(fg, L, n, prefix);
      var x, y := path[|path| - 2], path[|path| - 1];
      assert Fg(fg, x) && Fg(fg, y) && Adjacent(x, y);
    }
  }

  /** Under a labelling, two foreground pixels share a label iff they are
      4-connected through the foreground. */
  lemma SameLabelIffConnected(fg: seq<seq<bool>>, L: seq<seq<nat>>, n: nat, p: Pixel, q: Pixel)
    requires IsLabeling(fg, L, n) && Fg(fg, p) && Fg(fg, q)
    ensures LabelAt(L, p) == LabelAt(L, q) <==> Connected(fg, p, q)
  {
    if Connected(fg, p, q) {
      var path :| IsPath(fg, path) && path[0] == p && path[|path| - 1] == q;
      PathKeepsLabel(fg, L, n, path);
    }
  }

  /** A labelling uses no label iff there is no foreground. */
  lemma NoLabelsIffEmpty(fg: seq<seq<bool>>, L: seq<seq<nat>>, n: nat)
    requires IsLabeling(fg, L, n)
    ensures n == 0 <==> forall p :: !Fg(fg, p)
  {
    if p :| Fg(fg, p) {
      assert LabelAt(L, p) != 0;
    }
    if n > 0 {
      assert Used(L, 1);
      var p :| InBounds(L, p) && L[p.0][p.1] == 1;
      assert InBounds(fg, p) && LabelAt(L, p) == 1;
    }
  }

  /** Two labellings of the same mask group the pixels alike: two pixels
      share a label under one iff they share a label under the other. */
  lemma LabelingsAgree(fg: seq<seq<bool>>, L1: seq<seq<nat>>, n1: nat, L2: seq<seq<nat>>, n2: nat,
                       p: Pixel, q: Pixel)
    requires IsLabeling(fg, L1, n1) && IsLabeling(fg, L2, n2)
    ensures LabelAt(L1, p) == LabelAt(L1, q) <==> LabelAt(L2, p) == LabelAt(L2, q)
  {
    if Fg(fg, p) && Fg(fg, q) {
      SameLabelIffConnected(fg, L1, n1, p, q);
      SameLabelIffConnected(fg, L2, n2, p, q);
    } else if Fg(fg, p) || Fg(fg, q) {
      assert InBounds(L1, p) <==> InBounds(fg, p);
      assert InBounds(L1, q) <==> InBounds(fg, q);
      assert LabelAt(L1, p) != LabelAt(L1, q) && LabelAt(L2, p) != LabelAt(L2, q);
    } else {
      assert LabelAt(L1, p) == 0 == LabelAt(L2, p);
      assert LabelAt(L1, q) == 0 == LabelAt(L2, q);
    }
  }

  /** A pixel carrying label k. */
  ghost function Witness(L: seq<seq<nat>>, k: nat): (p: Pixel)
    requires Used(L, k)
    ensures InBounds(L, p) && L[p.0][p.1] == k
  {
    var p :| InBounds(L, p) && L[p.0][p.1] == k; p
  }

  /** The label L2 gives to the region L1 labels k. */
  ghost function Corr(L1: seq<seq<nat>>, L2: seq<seq<nat>>, k: nat): nat
    requires Used(L1, k)
  {
    LabelAt(L2, Witness(L1, k))
  }

  /** Region k of one labelling is region Corr(k) of another labelling of
      the same mask, and Corr(k) is one of its labels 1..n2. */
  lemma CorrLabel(fg: seq<seq<bool>>, L1: seq<seq<nat>>, n1: nat, L2: seq<seq<nat>>, n2: nat, k: nat, q: Pixel)
    requires IsLabeling(fg, L1, n1) && IsLabeling(fg, L2, n2) && 1 <= k <= n1
    ensures Used(L1, k) && 1 <= Corr(L1, L2, k) <= n2
    ensures LabelAt(L1, q) == k <==> LabelAt(L2, q) == Corr(L1, L2, k)
  {
    assert Used(L1, k);
    var w := Witness(L1, k);
    assert InBounds(fg, w) && LabelAt(L1, w) == k;
    LabelingsAgree(fg, L1, n1, L2, n2, q, w);
  }

  /** Corr is one-to-one on 1..n1, and the correspondence back from L2 is its
      inverse, so it is onto 1..n2. */
  lemma CorrBijective(fg: seq<seq<bool>>, L1: seq<seq<nat>>, n1: nat, L2: seq<seq<nat>>, n2: nat)
    requires IsLabeling(fg, L1, n1) && IsLabeling(fg, L2, n2)
    ensures forall k | 1 <= k <= n1 :: Used(L1, k)
    ensures forall k, k' | 1 <= k <= n1 && 1 <= k' <= n1 && Corr(L1, L2, k) == Corr(L1, L2, k') :: k == k'
    ensures forall j | 1 <= j <= n2 :: Used(L2, j) && 1 <= Corr(L2, L1, j) <= n1 && Corr(L1, L2, Corr(L2, L1, j)) == j
  {
    forall k, k' | 1 <= k <= n1 && 1 <= k' <= n1 && Corr(L1, L2, k) == Corr(L1, L2, k') ensures k == k' {
      var w := Witness(L1, k');
      assert LabelAt(L1, w) == k';
      CorrLabel(fg, L1, n1, L2, n2, k', w);
      CorrLabel(fg, L1, n1, L2, n2, k, w);
    }
    forall j | 1 <= j <= n2 ensures Used(L2, j) && 1 <= Corr(L2, L1, j) <= n1 && Corr(L1, L2, Corr(L2, L1, j)) == j {
      CorrLabel(fg, L2, n2, L1, n1, j, (0, 0));
      var w := Witness(L2, j);
      assert LabelAt(L2, w) == j;
      CorrLabel(fg, L1, n1, L2, n2, Corr(L2, L1, j), w);
    }
  }

  /** Corr as a reordering of the indices 0..n-1 of the region lists, with
      its inverse. */
  lemma CorrOrder(fg: seq<seq<bool>>, L1: seq<seq<nat>>, n1: nat, L2: seq<seq<nat>>, n2: nat)
    returns (pi: seq<nat>, inv: seq<nat>)
    requires IsLabeling(fg, L1, n1) && IsLabeling(fg, L2, n2) && n1 == n2
    ensures |pi| == |inv| == n1
    ensures forall i | 0 <= i < n1 :: Used(L1, i + 1) && pi[i] == Corr(L1, L2, i + 1) - 1 && pi[i] < n2
    ensures forall i, j | 0 <= i < j < |pi| :: pi[i] != pi[j]
    ensures forall v | 0 <= v < |inv| :: inv[v] < |pi| && pi[inv[v]] == v
  {
    CorrBijective(fg, L1, n1, L2, n2);
    forall k | 1 <= k <= n1 ensures Used(L1, k) && 1 <= Corr(L1, L2, k) <= n2 {
      CorrLabel(fg, L1, n1, L2, n2, k, (0, 0));
    }
    pi := seq(n1, i requires 0 <= i < n1 => Corr(L1, L2, i + 1) - 1);
    inv := seq(n2, v requires 0 <= v < n2 => Corr(L2, L1, v + 1) - 1);
  }

  /** Two labellings of the same mask use the same number of labels. */
  lemma LabelCountsAgree(fg: seq<seq<bool>>, L1: seq<seq<nat>>, n1: nat, L2: seq<seq<nat>>, n2: nat)
    requires IsLabeling(fg, L1, n1) && IsLabeling(fg, L2, n2)
    ensures n1 == n2
  {
    CountAtMost(fg, L1, n1, L2, n2);
    CountAtMost(fg, L2, n2, L1, n1);
  }

  lemma CountAtMost(fg: seq<seq<bool>>, L1: seq<seq<nat>>, n1: nat, L2: seq<seq<nat>>, n2: nat)
    requires IsLabeling(fg, L1, n1) && IsLabeling(fg, L2, n2)
    ensures n1 <= n2
  {
    forall k | 1 <= k <= n1 ensures Used(L1, k) && 1 <= Corr(L1, L2, k) <= n2 {
      CorrLabel(fg, L1, n1, L2, n2, k, (0, 0));
    }
    CorrBijective(fg, L1, n1, L2, n2);
    var pi := seq(n1, i requires 0 <= i < n1 => Corr(L1, L2, i + 1) - 1);
    Pigeon(pi, n2);
  }

  // ---------------------------------------------------------------------
  // The raster scan

  /** p comes before column j of row i in raster order. */
  predicate Before(p: Pixel, i: int, j: int)
  {
    p.0 < i || (p.0 == i && p.1 < j)
  }

  /** A labelled pixel shares its label with exactly the foreground pixels
      connected to it. */
  ghost predicate Links(fg: seq<seq<bool>>, L: seq<seq<nat>>)
  {
    forall p, q | LabelAt(L, p) != 0 && Fg(fg, q) :: LabelAt(L, q) == LabelAt(L, p) <==> Connected(fg, p, q)
  }

  /** Invariant of the scan at position (i, j): labels are at most n and lie
      on the foreground, every foreground pixel before the position is
      labelled, 1..n are used, and labels are linked to connectivity. */
  ghost predicate LabInv(fg: seq<seq<bool>>, L: seq<seq<nat>>, n: nat, i: int, j: int)
  {
    && Rect(fg) && SameShape(L, fg)
    && (forall p :: LabelAt(L, p) <= n)
    && (forall p | LabelAt(L, p) != 0 :: Fg(fg, p))
    && (forall p | Fg(fg, p) && Before(p, i, j) :: LabelAt(L, p) != 0)
    && (forall k | 1 <= k <= n :: Used(L, k))
    && Links(fg, L)
  }

  /** The propagation of a single foreground pixel through the foreground is
      its 4-connected component. */
  lemma ComponentOf(fg: seq<seq<bool>>, s: Pixel, comp: seq<seq<bool>>)
    requires Fg(fg, s) && IsPropagation(Single(fg, s), fg, comp)
    ensures forall q :: Fg(comp, q) <==> Connected(fg, s, q)
  {
    var seed := Single(fg, s);
    forall q | Fg(comp, q) ensures Connected(fg, s, q) {
      var path :| IsTrail(seed, fg, path) && path[|path| - 1] == q;
      assert path[0] == s;
      assert IsPath(fg, path);
    }
    forall q | Connected(fg, s, q) ensures Fg(comp, q) {
      var path :| IsPath(fg, path) && path[0] == s && path[|path| - 1] == q;
      assert IsTrail(seed, fg, path);
      TrailInside(seed, fg, comp, path);
    }
  }

  /** The label map with every pixel of comp set to v. */
  function Overlay(L: seq<seq<nat>>, comp: seq<seq<bool>>, v: nat): (r: seq<seq<nat>>)
    ensures SameShape(r, L)
    ensures forall p :: LabelAt(r, p) == if InBounds(L, p) && Fg(comp, p) then v else LabelAt(L, p)
  {
    seq(|L|, i requires 0 <= i < |L| => seq(|L[i]|, j requires 0 <= j < |L[i]| =>
      if Fg(comp, (i, j)) then v else L[i][j]))
  }

  /** The component of an unlabelled pixel holds no labelled pixel. */
  lemma ComponentUnlabelled(fg: seq<seq<bool>>, L: seq<seq<nat>>, s: Pixel, comp: seq<seq<bool>>)
    requires Links(fg, L) && Fg(fg, s) && LabelAt(L, s) == 0
    requires forall q :: Fg(comp, q) <==> Connected(fg, s, q)
    ensures forall q | Fg(comp, q) :: LabelAt(L, q) == 0 && Fg(fg, q)
  {
    forall q | Fg(comp, q) ensures LabelAt(L, q) == 0 && Fg(fg, q) {
      ConnectedFg(fg, s, q);
      ConnectedSym(fg, s, q);
    }
  }

  /** Painting a whole component with a label above all others keeps labels
      linked to connectivity. */
  lemma OverlayLinks(fg: seq<seq<bool>>, L: seq<seq<nat>>, s: Pixel, comp: seq<seq<bool>>, v: nat)
    requires Links(fg, L) && SameShape(L, fg) && v > 0
    requires forall p :: LabelAt(L, p) < v
    requires forall q :: Fg(comp, q) <==> Connected(fg, s, q)
    requires forall q | Fg(comp, q) :: Fg(fg, q)
    ensures Links(fg, Overlay(L, comp, v))
  {
    var L' := Overlay(L, comp, v);
    forall q ensures LabelAt(L', q) == if Fg(comp, q) then v else LabelAt(L, q) {
      if Fg(comp, q) {
        assert InBounds(L, q);
      }
    }
    forall p, q | LabelAt(L', p) != 0 && Fg(fg, q)
      ensures LabelAt(L', q) == LabelAt(L', p) <==> Connected(fg, p, q)
    {
      if Fg(comp, p) {
        if Connected(fg, p, q) {
          ConnectedTrans(fg, s, p, q);
        }
        if Fg(comp, q) {
          ConnectedSym(fg, s, p);
          ConnectedTrans(fg, p, s, q);
        }
      } else {
        if Fg(comp, q) && Connected(fg, p, q) {
          ConnectedSym(fg, p, q);
          ConnectedTrans(fg, s, q, p);
        }
      }
    }
  }

  /** Painting the component of the unlabelled foreground pixel s = (i, j)
      with the fresh label n + 1 moves the scan one pixel on. */
  lemma NewComponent(fg: seq<seq<bool>>, L: seq<seq<nat>>, n: nat, i: int, j: int, comp: seq<seq<bool>>)
    requires LabInv(fg, L, n, i, j) && Fg(fg, (i, j)) && LabelAt(L, (i, j)) == 0
    requires IsPropagation(Single(fg, (i, j)), fg, comp)
    ensures LabInv(fg, Overlay(L, comp, n + 1), n + 1, i, j + 1)
  {
    var s, v := (i, j), n + 1;
    ComponentOf(fg, s, comp);
    ConnectedRefl(fg, s);
    ComponentUnlabelled(fg, L, s, comp);
    OverlayLinks(fg, L, s, comp, v);
    Overlaid(fg, L, n, i, j, comp, Overlay(L, comp, v));
    OverlayUsed(L, n, s, comp, Overlay(L, comp, v));
  }

  /** The remaining conjuncts of the scan invariant after painting. */
  lemma Overlaid(fg: seq<seq<bool>>, L: seq<seq<nat>>, n: nat, i: int, j: int, comp: seq<seq<bool>>,
                 L': seq<seq<nat>>)
    requires Rect(fg) && SameShape(L, fg)
    requires forall p :: LabelAt(L, p) <= n
    requires forall p | LabelAt(L, p) != 0 :: Fg(fg, p)
    requires forall p | Fg(fg, p) && Before(p, i, j) :: LabelAt(L, p) != 0
    requires forall k | 1 <= k <= n :: Used(L, k)
    requires Fg(comp, (i, j)) && forall q | Fg(comp, q) :: LabelAt(L, q) == 0 && Fg(fg, q)
    requires L' == Overlay(L, comp, n + 1)
    ensures SameShape(L', fg)
    ensures forall p :: LabelAt(L', p) <= n + 1
    ensures forall p | LabelAt(L', p) != 0 :: Fg(fg, p)
    ensures forall p | Fg(fg, p) && Before(p, i, j + 1) :: LabelAt(L', p) != 0
  {
    var s, v := (i, j), n + 1;
    forall q ensures LabelAt(L', q) == if Fg(comp, q) then v else LabelAt(L, q) {
      if Fg(comp, q) {
        assert InBounds(L, q);
      }
    }
    forall p ensures LabelAt(L', p) <= v && (LabelAt(L', p) != 0 ==> Fg(fg, p)) {
      assert LabelAt(L, p) <= n && (LabelAt(L, p) != 0 ==> Fg(fg, p));
    }
    forall p | Fg(fg, p) && Before(p, i, j + 1) ensures LabelAt(L', p) != 0 {
      if p != s {
        assert Before(p, i, j);
      }
    }
  }

  /** Painting a component of unlabelled pixels with n + 1 keeps 1..n in use
      and puts n + 1 in use. */
  lemma OverlayUsed(L: seq<seq<nat>>, n: nat, s: Pixel, comp: seq<seq<bool>>, L': seq<seq<nat>>)
    requires forall k | 1 <= k <= n :: Used(L, k)
    requires InBounds(L, s) && Fg(comp, s)
    requires forall q | Fg(comp, q) :: LabelAt(L, q) == 0
    requires L' == Overlay(L, comp, n + 1)
    ensures forall k | 1 <= k <= n + 1 :: Used(L', k)
  {
    var v := n + 1;
    forall k | 1 <= k <= v ensures Used(L', k) {
      if k == v {
        assert LabelAt(L', s) == v;
        assert InBounds(L', s) && L'[s.0][s.1] == LabelAt(L', s);
      } else {
        assert Used(L, k);
        var p :| InBounds(L, p) && L[p.0][p.1] == k;
        assert LabelAt(L, p) == k && LabelAt(L', p) == k;
      }
    }
  }

  /** A background or already labelled pixel moves the scan one pixel on. */
  lemma Skip(fg: seq<seq<bool>>, L: seq<seq<nat>>, n: nat, i: int, j: int)
    requires LabInv(fg, L, n, i, j) && (Fg(fg, (i, j)) ==> LabelAt(L, (i, j)) != 0)
    ensures LabInv(fg, L, n, i, j + 1)
  {
  }

  /** The end of a row is the start of the next. */
  lemma NextRow(fg: seq<seq<bool>>, L: seq<seq<nat>>, n: nat, i: int)
    requires LabInv(fg, L, n, i, Width(fg))
    ensures LabInv(fg, L, n, i + 1, 0)
  {
    forall p | Fg(fg, p) && Before(p, i + 1, 0) ensures LabelAt(L, p) != 0 {
      assert Before(p, i, Width(fg));
    }
  }

  /** An all-background map starts the scan. */
  lemma LabStart(fg: seq<seq<bool>>, L: seq<seq<nat>>)
    requires Rect(fg) && SameShape(L, fg)
    requires forall p | InBounds(L, p) :: L[p.0][p.1] == 0
    ensures LabInv(fg, L, 0, 0, 0)
  {
  }

  /** A finished scan is a labelling. */
  lemma LabInvComplete(fg: seq<seq<bool>>, L: seq<seq<nat>>, n: nat)
    requires LabInv(fg, L, n, |fg|, 0)
    ensures IsLabeling(fg, L, n)
  {
    forall p | InBounds(fg, p) ensures LabelAt(L, p) == 0 <==> !fg[p.0][p.1] {
      assert fg[p.0][p.1] ==> Fg(fg, p) && Before(p, |fg|, 0);
    }
    forall p, q | Fg(fg, p) && Fg(fg, q) && Adjacent(p, q) ensures LabelAt(L, p) == LabelAt(L, q) {
      assert Before(p, |fg|, 0);
      assert IsPath(fg, [p, q]);
      assert Connected(fg, p, q);
    }
    forall p, q | Fg(fg, p) && Fg(fg, q) && LabelAt(L, p) == LabelAt(L, q) ensures Connected(fg, p, q) {
      assert Before(p, |fg|, 0);
    }
  }

  /** Writes v into every pixel of comp (in place; other pixels keep their label). */
  method Paint(lab: array2<nat>, comp: seq<seq<bool>>, v: nat)
    modifies lab
    ensures Rows(lab) == Overlay(old(Rows(lab)), comp, v)
  {
    ghost var L := Rows(lab);
    for i := 0 to lab.Length0
      invariant forall x, y | 0 <= x < lab.Length0 && 0 <= y < lab.Length1 ::
        lab[x, y] == if x < i && Fg(comp, (x, y)) then v else L[x][y]
    {
      for j := 0 to lab.Length1
        invariant forall x, y | 0 <= x < lab.Length0 && 0 <= y < lab.Length1 ::
          lab[x, y] == if Before((x, y), i, j) && Fg(comp, (x, y)) then v else L[x][y]
      {
        if Fg(comp, (i, j)) {
          lab[i, j] := v;
        }
      }
    }
    ghost var r, o := Rows(lab), Overlay(L, comp, v);
    forall p | InBounds(r, p) ensures r[p.0][p.1] == o[p.0][p.1] {
      assert LabelAt(o, p) == o[p.0][p.1];
    }
    GridExt(r, o);
  }

  /** One step of the scan: a foreground pixel without a label starts the
      next label, painted over its whole component. */
  method Visit(fg: seq<seq<bool>>, lab: array2<nat>, n: nat, i: int, j: int) returns (n': nat)
    requires LabInv(fg, Rows(lab), n, i, j) && 0 <= i < |fg| && 0 <= j < Width(fg)
    modifies lab
    ensures LabInv(fg, Rows(lab), n', i, j + 1)
  {
    assert InBounds(fg, (i, j));
    if fg[i][j] && lab[i, j] == 0 {
      var comp := Propagate(Single(fg, (i, j)), fg);
      NewComponent(fg, Rows(lab), n, i, j, comp);
      Paint(lab, comp, n + 1);
      n' := n + 1;
    } else {
      Skip(fg, Rows(lab), n, i, j);
      n' := n;
    }
  }

  /** ndimage.label with the cross structure: a fresh array holding a
      labelling of the foreground of fg and the number of labels. */
  method Label(fg: seq<seq<bool>>) returns (lab: array2<nat>, n: nat)
    requires Rect(fg)
    ensures fresh(lab) && lab.Length0 == |fg| && lab.Length1 == Width(fg)
    ensures IsLabeling(fg, Rows(lab), n)
  {
    var h, w := |fg|, Width(fg);
    lab := new nat[h, w]((i, j) => 0);
    n := 0;
    LabStart(fg, Rows(lab));
    for i := 0 to h
      invariant LabInv(fg, Rows(lab), n, i, 0)
    {
      for j := 0 to w
        invariant LabInv(fg, Rows(lab), n, i, j)
      {
        n := Visit(fg, lab, n, i, j);
      }
      NextRow(fg, Rows(lab), n, i);
    }
    LabInvComplete(fg, Rows(lab), n);
  }
}

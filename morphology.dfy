/** Morphological cleaning of the binary mask (08_04_JM_emccd_script.py,
    lines 49-57): erosion by the 4-connected cross with border value 0,
    reconstruction by propagation inside the original mask, the same on the
    complement to fill holes, and the re-derived mask of line 57. */
module Morphology {
  import opened Grids
  import opened Arith

  /** binary_erosion with the default cross: a pixel survives iff it and its
      four neighbours are foreground, positions outside the grid counting as
      background. */
  function Erode(m: seq<seq<bool>>): (r: seq<seq<bool>>)
    ensures SameShape(r, m)
    ensures Rect(m) ==> Rect(r) && Width(r) == Width(m)
    ensures forall p :: Fg(r, p) <==>
      Fg(m, p) && Fg(m, North(p)) && Fg(m, South(p)) && Fg(m, West(p)) && Fg(m, East(p))
  {
    seq(|m|, i requires 0 <= i < |m| => seq(|m[i]|, j requires 0 <= j < |m[i]| =>
      Fg(m, (i, j)) && Fg(m, North((i, j))) && Fg(m, South((i, j))) &&
      Fg(m, West((i, j))) && Fg(m, East((i, j)))))
  }

  // ---------------------------------------------------------------------
  // Reconstruction by propagation (binary_propagation)

  /** A walk that starts on a seed pixel and whose later pixels all lie on the
      mask: the ways masked dilation can grow from the seed. */
  ghost predicate IsTrail(seed: seq<seq<bool>>, mask: seq<seq<bool>>, path: seq<Pixel>)
  {
    |path| > 0 && Fg(seed, path[0]) &&
    (forall k | 1 <= k < |path| :: Fg(mask, path[k])) &&
    (forall k | 0 <= k < |path| - 1 :: Adjacent(path[k], path[k + 1]))
  }

  ghost predicate Reached(seed: seq<seq<bool>>, mask: seq<seq<bool>>, p: Pixel)
  {
    exists path :: IsTrail(seed, mask, path) && path[|path| - 1] == p
  }

  /** r is the fixpoint of dilation by the cross restricted to the mask,
      started from the seed: it holds the seed, adds only mask pixels, is
      closed under growing into an adjacent mask pixel, and holds nothing that
      cannot be reached from the seed. */
  ghost predicate IsPropagation(seed: seq<seq<bool>>, mask: seq<seq<bool>>, r: seq<seq<bool>>)
  {
    && SameShape(r, seed)
    && Within(seed, r)
    && (forall p :: Fg(r, p) ==> Fg(seed, p) || Fg(mask, p))
    && (forall p, q :: Fg(r, p) && Adjacent(p, q) && Fg(mask, q) ==> Fg(r, q))
    && (forall p :: Fg(r, p) ==> Reached(seed, mask, p))
  }

  predicate InArray<T>(a: array2<T>, p: Pixel)
  {
    0 <= p.0 < a.Length0 && 0 <= p.1 < a.Length1
  }

  /** The positions of the foreground of m. */
  ghost function Cells(m: seq<seq<bool>>): set<Pixel>
  {
    set i, j | 0 <= i < |m| && 0 <= j < |m[i]| && m[i][j] :: (i, j)
  }

  lemma CellsFg(m: seq<seq<bool>>, p: Pixel)
    ensures p in Cells(m) <==> Fg(m, p)
  {
    if Fg(m, p) {
      assert p == (p.0, p.1);
    }
  }

  /** The array holds exactly the pixels of grown. */
  ghost predicate Mirrors(a: array2<bool>, grown: set<Pixel>)
    reads a
  {
    forall p | InArray(a, p) :: a[p.0, p.1] <==> p in grown
  }

  /** A mask pixel next to a grown pixel has been grown too. */
  ghost predicate Covered(mask: seq<seq<bool>>, grown: set<Pixel>, q: Pixel)
  {
    Fg(mask, q) ==> q in grown
  }

  /** All four neighbours of p are covered. */
  ghost predicate Closed4(mask: seq<seq<bool>>, grown: set<Pixel>, p: Pixel)
  {
    Covered(mask, grown, North(p)) && Covered(mask, grown, South(p)) &&
    Covered(mask, grown, West(p)) && Covered(mask, grown, East(p))
  }

  /** p is a seed pixel or the end of a recorded trail that lies on the mask. */
  ghost predicate Traced(seed: seq<seq<bool>>, mask: seq<seq<bool>>, trails: map<Pixel, seq<Pixel>>, p: Pixel)
  {
    Fg(seed, p) ||
    (Fg(mask, p) && p in trails && IsTrail(seed, mask, trails[p]) && trails[p][|trails[p]| - 1] == p)
  }

  /** The trail recorded for a traced pixel. */
  ghost function TrailTo(seed: seq<seq<bool>>, trails: map<Pixel, seq<Pixel>>, p: Pixel): seq<Pixel>
  {
    if Fg(seed, p) || p !in trails then [p] else trails[p]
  }

  /** Invariant of the worklist fill: every seed pixel is grown, every grown
      pixel lies in the grid and is a seed or the end of a recorded trail,
      pending pixels are grown, and every grown pixel that is not pending has
      all its mask neighbours grown. */
  ghost predicate FillInv(seed: seq<seq<bool>>, mask: seq<seq<bool>>, grown: set<Pixel>,
                          pending: seq<Pixel>, trails: map<Pixel, seq<Pixel>>)
  {
    && Rect(seed) && SameShape(seed, mask)
    && (forall p | Fg(seed, p) :: p in grown)
    && (forall p | p in grown :: InBounds(seed, p) && Traced(seed, mask, trails, p))
    && (forall k | 0 <= k < |pending| :: pending[k] in grown)
    && (forall p | p in grown && p !in pending :: Closed4(mask, grown, p))
  }

  /** Growing a pending pixel into an ungrown adjacent mask pixel keeps the invariant. */
  lemma Grow(seed: seq<seq<bool>>, mask: seq<seq<bool>>, grown: set<Pixel>, p: Pixel, q: Pixel,
             stack: seq<Pixel>, trails: map<Pixel, seq<Pixel>>)
    requires FillInv(seed, mask, grown, stack + [p], trails)
    requires p in grown && Adjacent(p, q) && Fg(mask, q) && q !in grown
    ensures FillInv(seed, mask, grown + {q}, stack + [q] + [p], trails[q := TrailTo(seed, trails, p) + [q]])
  {
    var tp := TrailTo(seed, trails, p);
    assert Traced(seed, mask, trails, p);
    assert IsTrail(seed, mask, tp) && tp[|tp| - 1] == p;
    assert IsTrail(seed, mask, tp + [q]);
    var grown', stack', trails' := grown + {q}, stack + [q], trails[q := tp + [q]];
    forall x | x in grown' ensures InBounds(seed, x) && Traced(seed, mask, trails', x) {
      if x != q {
        assert Traced(seed, mask, trails, x);
      }
    }
    forall x | x in grown' && x !in stack' + [p] ensures Closed4(mask, grown', x) {
      assert x in grown && x !in stack + [p];
      assert Closed4(mask, grown, x);
    }
    forall k | 0 <= k < |stack' + [p]| ensures (stack' + [p])[k] in grown' {
      if k < |stack| {
        assert (stack' + [p])[k] == (stack + [p])[k];
      }
    }
  }

  /** One step of masked dilation from the pending pixel p into its neighbour q. */
  method Spread(seed: seq<seq<bool>>, mask: seq<seq<bool>>, a: array2<bool>, p: Pixel, q: Pixel,
                stack: seq<Pixel>, ghost grown: set<Pixel>, ghost trails: map<Pixel, seq<Pixel>>)
    returns (stack': seq<Pixel>, ghost grown': set<Pixel>, ghost trails': map<Pixel, seq<Pixel>>)
    requires FillInv(seed, mask, grown, stack + [p], trails)
    requires a.Length0 == |seed| && a.Length1 == Width(seed) && Mirrors(a, grown)
    requires p in grown && Adjacent(p, q)
    modifies a
    ensures FillInv(seed, mask, grown', stack' + [p], trails') && Mirrors(a, grown')
    ensures Covered(mask, grown', q)
    ensures grown <= grown' && grown' - grown <= Cells(mask)
    ensures grown' == grown ==> stack' == stack
  {
    if InArray(a, q) && mask[q.0][q.1] && !a[q.0, q.1] {
      Grow(seed, mask, grown, p, q, stack, trails);
      a[q.0, q.1] := true;
      stack', grown', trails' := stack + [q], grown + {q}, trails[q := TrailTo(seed, trails, p) + [q]];
      CellsFg(mask, q);
    } else {
      stack', grown', trails' := stack, grown, trails;
      assert InArray(a, q) <==> InBounds(seed, q);
    }
  }

  /** The popped pixel p leaves the pending list once its neighbours are covered. */
  lemma Release(seed: seq<seq<bool>>, mask: seq<seq<bool>>, grown: set<Pixel>, p: Pixel,
                stack: seq<Pixel>, trails: map<Pixel, seq<Pixel>>)
    requires FillInv(seed, mask, grown, stack + [p], trails) && Closed4(mask, grown, p)
    ensures FillInv(seed, mask, grown, stack, trails)
  {
    forall k | 0 <= k < |stack| ensures stack[k] in grown {
      assert stack[k] == (stack + [p])[k];
    }
  }

  lemma SubsetSize<T>(a: set<T>, b: set<T>)
    requires a <= b
    ensures |a| <= |b|
    decreases a
  {
    if a != {} {
      var x :| x in a;
      SubsetSize(a - {x}, b - {x});
    }
  }

  /** Growing by mask pixels shrinks the set of ungrown mask pixels. */
  lemma Shrinks(cells: set<Pixel>, g: set<Pixel>, g': set<Pixel>)
    requires g <= g' && g' - g <= cells && g' != g
    ensures |cells - g'| < |cells - g|
  {
    assert g' - g != {};
    var x :| x in g' - g;
    SubsetSize(cells - g', (cells - g) - {x});
  }

  /** The worklist fill has finished: the array holds the propagation. */
  lemma FillDone(seed: seq<seq<bool>>, mask: seq<seq<bool>>, a: array2<bool>, grown: set<Pixel>,
                 trails: map<Pixel, seq<Pixel>>)
    requires FillInv(seed, mask, grown, [], trails) && Mirrors(a, grown)
    requires a.Length0 == |seed| && a.Length1 == Width(seed)
    ensures IsPropagation(seed, mask, Rows(a))
  {
    var r := Rows(a);
    assert forall p | InBounds(r, p) :: InArray(a, p);
    assert forall p | InBounds(seed, p) :: InArray(a, p);
    forall p | Fg(r, p) ensures p in grown {
      assert InArray(a, p);
    }
    forall p | p in grown ensures Fg(r, p) {
      assert InArray(a, p);
    }
    forall p, q | Fg(r, p) && Adjacent(p, q) && Fg(mask, q)
      ensures Fg(r, q)
    {
      AdjacentIsNeighbour(p, q);
      assert Closed4(mask, grown, p);
    }
    forall p | Fg(r, p)
      ensures Reached(seed, mask, p)
    {
      assert Traced(seed, mask, trails, p);
      if Fg(seed, p) {
        assert IsTrail(seed, mask, [p]);
      } else {
        assert IsTrail(seed, mask, trails[p]);
      }
    }
  }

  /** The fill starts with the seed grown and every seed pixel pending. */
  lemma FillStart(seed: seq<seq<bool>>, mask: seq<seq<bool>>, stack: seq<Pixel>)
    requires Rect(seed) && SameShape(seed, mask)
    requires forall p | Fg(seed, p) :: p in stack
    requires forall k | 0 <= k < |stack| :: Fg(seed, stack[k])
    ensures FillInv(seed, mask, Cells(seed), stack, map[])
  {
    forall x | x in Cells(seed) ensures Fg(seed, x) {
      CellsFg(seed, x);
    }
    forall x | Fg(seed, x) ensures x in Cells(seed) {
      CellsFg(seed, x);
    }
    forall k | 0 <= k < |stack| ensures stack[k] in Cells(seed) {
      CellsFg(seed, stack[k]);
    }
  }

  /** All seed pixels, in raster order. */
  method SeedPixels(seed: seq<seq<bool>>) returns (stack: seq<Pixel>)
    requires Rect(seed)
    ensures forall k | 0 <= k < |stack| :: Fg(seed, stack[k])
    ensures forall p | Fg(seed, p) :: p in stack
  {
    stack := [];
    for i := 0 to |seed|
      invariant forall k | 0 <= k < |stack| :: Fg(seed, stack[k])
      invariant forall p | Fg(seed, p) && p.0 < i :: p in stack
    {
      for j := 0 to Width(seed)
        invariant forall k | 0 <= k < |stack| :: Fg(seed, stack[k])
        invariant forall p | Fg(seed, p) && (p.0 < i || (p.0 == i && p.1 < j)) :: p in stack
      {
        if seed[i][j] {
          stack := stack + [(i, j)];
        }
      }
    }
  }

  /** Grows the popped pixel p into its four neighbours. */
  method Expand(seed: seq<seq<bool>>, mask: seq<seq<bool>>, a: array2<bool>, p: Pixel,
                stack: seq<Pixel>, ghost grown: set<Pixel>, ghost trails: map<Pixel, seq<Pixel>>)
    returns (stack': seq<Pixel>, ghost grown': set<Pixel>, ghost trails': map<Pixel, seq<Pixel>>)
    requires FillInv(seed, mask, grown, stack + [p], trails)
    requires a.Length0 == |seed| && a.Length1 == Width(seed) && Mirrors(a, grown)
    requires p in grown
    modifies a
    ensures FillInv(seed, mask, grown', stack', trails') && Mirrors(a, grown')
    ensures grown <= grown' && grown' - grown <= Cells(mask)
    ensures grown' == grown ==> stack' == stack
  {
    assert Adjacent(p, North(p)) && Adjacent(p, South(p)) && Adjacent(p, West(p)) && Adjacent(p, East(p));
    var s1, s2, s3: seq<Pixel>;
    ghost var g1, g2, g3, t1, t2, t3;
    s1, g1, t1 := Spread(seed, mask, a, p, North(p), stack, grown, trails);
    s2, g2, t2 := Spread(seed, mask, a, p, South(p), s1, g1, t1);
    s3, g3, t3 := Spread(seed, mask, a, p, West(p), s2, g2, t2);
    stack', grown', trails' := Spread(seed, mask, a, p, East(p), s3, g3, t3);
    assert Closed4(mask, grown', p);
    Release(seed, mask, grown', p, stack', trails');
  }

  lemma SplitLast<T>(s: seq<T>)
    requires |s| > 0
    ensures s[..|s| - 1] + [s[|s| - 1]] == s
  {
  }

  /** binary_propagation(seed, mask=mask): grows the seed through the mask
      until nothing changes, here by a worklist over a 2-D array. */
  method Propagate(seed: seq<seq<bool>>, mask: seq<seq<bool>>) returns (r: seq<seq<bool>>)
    requires Rect(seed) && SameShape(seed, mask)
    ensures IsPropagation(seed, mask, r)
  {
    var h, w := |seed|, Width(seed);
    var a := new bool[h, w]((i, j) requires 0 <= i < h && 0 <= j < w => seed[i][j]);
    var stack := SeedPixels(seed);
    ghost var grown := Cells(seed);
    ghost var trails: map<Pixel, seq<Pixel>> := map[];
    FillStart(seed, mask, stack);
    forall x | InArray(a, x) ensures a[x.0, x.1] <==> x in grown {
      CellsFg(seed, x);
    }
    while stack != []
      invariant FillInv(seed, mask, grown, stack, trails) && Mirrors(a, grown)
      decreases |Cells(mask) - grown|, |stack|
    {
      ghost var before := grown;
      var p := stack[|stack| - 1];
      SplitLast(stack);
      stack := stack[..|stack| - 1];
      stack, grown, trails := Expand(seed, mask, a, p, stack, grown, trails);
      if grown != before {
        Shrinks(Cells(mask), before, grown);
      }
    }
    FillDone(seed, mask, a, grown, trails);
    r := Rows(a);
  }

  /** The specification of propagation determines its result. */
  lemma {:induction false} PropagationUnique(seed: seq<seq<bool>>, mask: seq<seq<bool>>,
                                             r1: seq<seq<bool>>, r2: seq<seq<bool>>)
    requires IsPropagation(seed, mask, r1) && IsPropagation(seed, mask, r2)
    ensures r1 == r2
  {
    forall p | Fg(r1, p) ensures Fg(r2, p) {
      var path :| IsTrail(seed, mask, path) && path[|path| - 1] == p;
      TrailInside(seed, mask, r2, path);
    }
    forall p | Fg(r2, p) ensures Fg(r1, p) {
      var path :| IsTrail(seed, mask, path) && path[|path| - 1] == p;
      TrailInside(seed, mask, r1, path);
    }
    forall p | InBounds(r1, p) ensures r1[p.0][p.1] == r2[p.0][p.1] {
      assert InBounds(r2, p);
      if r1[p.0][p.1] { assert Fg(r1, p); }
      if r2[p.0][p.1] { assert Fg(r2, p); }
    }
    GridExt(r1, r2);
  }

  /** Every pixel of a trail lies in any propagation of the seed. */
  lemma {:induction false} TrailInside(seed: seq<seq<bool>>, mask: seq<seq<bool>>,
                                       r: seq<seq<bool>>, path: seq<Pixel>)
    requires IsPropagation(seed, mask, r) && IsTrail(seed, mask, path)
    ensures Fg(r, path[|path| - 1])
    decreases |path|
  {
    if |path| > 1 {
      var prefix := path[..|path| - 1];
      assert IsTrail(seed, mask, prefix);
      TrailInside(seed, mask, r, prefix);
      assert Adjacent(path[|path| - 2], path[|path| - 1]);
    }
  }

  lemma TrailPrefix(seed: seq<seq<bool>>, mask: seq<seq<bool>>, path: seq<Pixel>, k: int)
    requires IsTrail(seed, mask, path) && 0 < k <= |path|
    ensures IsTrail(seed, mask, path[..k]) && path[..k][k - 1] == path[k - 1]
  {
  }

  /** A pixel kept by erosion followed by reconstruction has a foreground
      neighbour in the mask, so an isolated speck is erased. */
  lemma SpeckRemoved(m: seq<seq<bool>>, r: seq<seq<bool>>, p: Pixel)
    requires IsPropagation(Erode(m), m, r)
    ensures Fg(r, p) ==> Fg(m, North(p)) || Fg(m, South(p)) || Fg(m, West(p)) || Fg(m, East(p))
  {
    if Fg(r, p) {
      assert Reached(Erode(m), m, p);
      var x := LastStep(Erode(m), m, p);
      if !Fg(Erode(m), p) {
        assert Fg(m, x);
        AdjacentIsNeighbour(p, x);
      }
    }
  }

  /** A reached pixel is a seed or is entered from a seed or mask pixel x. */
  lemma LastStep(seed: seq<seq<bool>>, mask: seq<seq<bool>>, p: Pixel) returns (x: Pixel)
    requires Reached(seed, mask, p)
    ensures Fg(seed, p) || (Adjacent(p, x) && (Fg(seed, x) || Fg(mask, x)))
  {
    var path :| IsTrail(seed, mask, path) && path[|path| - 1] == p;
    x := p;
    if |path| > 1 {
      x := path[|path| - 2];
      assert Adjacent(x, p);
      AdjacentIsNeighbour(x, p);
      if |path| > 2 {
        assert Fg(mask, path[|path| - 2]);
      }
    }
  }

  // ---------------------------------------------------------------------
  // The two-pass cleaner (lines 49-53)

  /** Erosion and reconstruction of the mask, then of its complement, which is
      complemented back: small specks go and small holes are filled. */
  method Clean(binary: seq<seq<bool>>) returns (eroded: seq<seq<bool>>, reconstruct: seq<seq<bool>>,
                                                 cleaned: seq<seq<bool>>)
    requires Rect(binary)
    ensures eroded == Erode(binary)
    ensures IsPropagation(eroded, binary, reconstruct)
    ensures IsPropagation(Erode(Not(reconstruct)), Not(reconstruct), Not(cleaned))
  {
    eroded := Erode(binary);
    reconstruct := Propagate(eroded, binary);
    var tmp := Not(reconstruct);
    var filled := Propagate(Erode(tmp), tmp);
    cleaned := Not(filled);
    NotInvolution(filled);
  }

  /** The specifications of the two passes determine the cleaned mask. */
  lemma CleanDeterminate(binary: seq<seq<bool>>, r1: seq<seq<bool>>, c1: seq<seq<bool>>,
                         r2: seq<seq<bool>>, c2: seq<seq<bool>>)
    requires IsPropagation(Erode(binary), binary, r1) && IsPropagation(Erode(Not(r1)), Not(r1), Not(c1))
    requires IsPropagation(Erode(binary), binary, r2) && IsPropagation(Erode(Not(r2)), Not(r2), Not(c2))
    ensures r1 == r2 && c1 == c2
  {
    PropagationUnique(Erode(binary), binary, r1, r2);
    PropagationUnique(Erode(Not(r1)), Not(r1), Not(c1), Not(c2));
    NotInvolution(c1);
    NotInvolution(c2);
  }

  /** The cleaner keeps the shape; the object pass lies between the eroded
      mask and the mask, and the hole pass only adds pixels to it. */
  lemma CleanBounds(binary: seq<seq<bool>>, reconstruct: seq<seq<bool>>, cleaned: seq<seq<bool>>)
    requires Rect(binary)
    requires IsPropagation(Erode(binary), binary, reconstruct)
    requires IsPropagation(Erode(Not(reconstruct)), Not(reconstruct), Not(cleaned))
    ensures Rect(reconstruct) && SameShape(reconstruct, binary) && Width(reconstruct) == Width(binary)
    ensures Rect(cleaned) && SameShape(cleaned, binary) && Width(cleaned) == Width(binary)
    ensures Within(Erode(binary), reconstruct) && Within(reconstruct, binary) && Within(reconstruct, cleaned)
  {
    PropagationBounded(Erode(binary), binary, reconstruct);
    HolePassAdds(reconstruct, cleaned);
  }

  /** Complement, propagate, complement: no foreground pixel is lost. */
  lemma HolePassAdds(reconstruct: seq<seq<bool>>, cleaned: seq<seq<bool>>)
    requires IsPropagation(Erode(Not(reconstruct)), Not(reconstruct), Not(cleaned))
    ensures SameShape(cleaned, reconstruct)
    ensures Within(reconstruct, cleaned)
  {
    var tmp := Not(reconstruct);
    PropagationBounded(Erode(tmp), tmp, Not(cleaned));
    forall p | Fg(reconstruct, p) ensures Fg(cleaned, p) {
      assert !Fg(tmp, p) && !Fg(Not(cleaned), p);
    }
  }

  /** Propagation from a seed inside the mask stays inside the mask. */
  lemma PropagationBounded(seed: seq<seq<bool>>, mask: seq<seq<bool>>, r: seq<seq<bool>>)
    requires IsPropagation(seed, mask, r) && Within(seed, mask)
    ensures Within(r, mask)
  {
  }

  /** Erosion followed by reconstruction is increasing and keeps what it has
      kept: if the result r for m lies inside m2, it lies inside the result
      for m2. */
  lemma {:induction false} OpenBelow(m: seq<seq<bool>>, r: seq<seq<bool>>, m2: seq<seq<bool>>, r2: seq<seq<bool>>)
    requires IsPropagation(Erode(m), m, r) && Within(r, m2)
    requires IsPropagation(Erode(m2), m2, r2)
    ensures Within(r, r2)
  {
    forall p | Fg(r, p) ensures Fg(r2, p) {
      OpenPixel(m, r, m2, r2, p);
    }
  }

  lemma OpenPixel(m: seq<seq<bool>>, r: seq<seq<bool>>, m2: seq<seq<bool>>, r2: seq<seq<bool>>, p: Pixel)
    requires IsPropagation(Erode(m), m, r) && Within(r, m2) && Fg(r, p)
    requires IsPropagation(Erode(m2), m2, r2)
    ensures Fg(r2, p)
  {
    assert Reached(Erode(m), m, p);
    var path :| IsTrail(Erode(m), m, path) && path[|path| - 1] == p;
    TrailMoves(m, r, m2, path);
    TrailInside(Erode(m2), m2, r2, path);
  }

  /** A trail from the eroded m lies inside r, hence inside m2, and starts
      on a pixel that survives the erosion of m2. */
  lemma {:induction false} TrailMoves(m: seq<seq<bool>>, r: seq<seq<bool>>, m2: seq<seq<bool>>, path: seq<Pixel>)
    requires IsPropagation(Erode(m), m, r) && Within(r, m2) && IsTrail(Erode(m), m, path)
    ensures IsTrail(Erode(m2), m2, path)
  {
    SeedMoves(m, r, m2, path[0]);
    TrailAllInside(Erode(m), m, r, path);
  }

  /** A pixel kept by the erosion of m is kept by the erosion of m2 once it
      and its neighbours, which r holds, lie in m2. */
  lemma SeedMoves(m: seq<seq<bool>>, r: seq<seq<bool>>, m2: seq<seq<bool>>, s: Pixel)
    requires Within(Erode(m), r) && Within(r, m2) && Fg(Erode(m), s)
    requires forall p, q :: Fg(r, p) && Adjacent(p, q) && Fg(m, q) ==> Fg(r, q)
    ensures Fg(Erode(m2), s)
  {
    assert Fg(r, s);
    assert Adjacent(s, North(s)) && Adjacent(s, South(s)) && Adjacent(s, West(s)) && Adjacent(s, East(s));
  }

  /** Every pixel of a trail lies in the propagation. */
  lemma TrailAllInside(seed: seq<seq<bool>>, mask: seq<seq<bool>>, r: seq<seq<bool>>, path: seq<Pixel>)
    requires IsPropagation(seed, mask, r) && IsTrail(seed, mask, path)
    ensures forall k | 0 <= k < |path| :: Fg(r, path[k])
  {
    forall k | 0 <= k < |path| ensures Fg(r, path[k]) {
      TrailPrefix(seed, mask, path, k + 1);
      TrailInside(seed, mask, r, path[..k + 1]);
    }
  }

  /** Cleaning a cleaned mask gives it back: the second object pass lies
      between the first one and the cleaned mask, so the second hole pass
      fills exactly the holes the first one filled. */
  lemma {:induction false} CleanIdempotent(binary: seq<seq<bool>>, reconstruct: seq<seq<bool>>, cleaned: seq<seq<bool>>,
                        reconstruct2: seq<seq<bool>>, cleaned2: seq<seq<bool>>)
    requires IsPropagation(Erode(binary), binary, reconstruct)
    requires IsPropagation(Erode(Not(reconstruct)), Not(reconstruct), Not(cleaned))
    requires IsPropagation(Erode(cleaned), cleaned, reconstruct2)
    requires IsPropagation(Erode(Not(reconstruct2)), Not(reconstruct2), Not(cleaned2))
    ensures cleaned2 == cleaned
  {
    HolePassAdds(reconstruct, cleaned);
    PropagationBounded(Erode(cleaned), cleaned, reconstruct2);
    OpenBelow(binary, reconstruct, cleaned, reconstruct2);
    HolePassAgain(reconstruct, cleaned, reconstruct2, cleaned2);
  }

  /** A hole pass started from an object mask between reconstruct and the
      cleaned mask that reconstruct gave fills back to the same cleaned mask. */
  lemma {:induction false} HolePassAgain(reconstruct: seq<seq<bool>>, cleaned: seq<seq<bool>>,
                                         reconstruct2: seq<seq<bool>>, cleaned2: seq<seq<bool>>)
    requires IsPropagation(Erode(Not(reconstruct)), Not(reconstruct), Not(cleaned))
    requires IsPropagation(Erode(Not(reconstruct2)), Not(reconstruct2), Not(cleaned2))
    requires SameShape(cleaned, reconstruct) && SameShape(reconstruct2, cleaned)
    requires Within(reconstruct, reconstruct2) && Within(reconstruct2, cleaned)
    ensures cleaned2 == cleaned
  {
    HolePassAdds(reconstruct2, cleaned2);
    var u, u2 := Not(reconstruct), Not(reconstruct2);
    PropagationBounded(Erode(u), u, Not(cleaned));
    PropagationBounded(Erode(u2), u2, Not(cleaned2));
    NotWithin(reconstruct2, cleaned);
    NotWithin(reconstruct, reconstruct2);
    OpenBelow(u, Not(cleaned), u2, Not(cleaned2));
    OpenBelow(u2, Not(cleaned2), u, Not(cleaned));
    ComplementsEqual(cleaned2, cleaned);
  }

  /** A background pixel whose four neighbours are foreground or outside the
      grid is a hole the background pass fills. */
  lemma HoleFilled(reconstruct: seq<seq<bool>>, cleaned: seq<seq<bool>>, p: Pixel)
    requires IsPropagation(Erode(Not(reconstruct)), Not(reconstruct), Not(cleaned))
    requires SameShape(cleaned, reconstruct) && InBounds(reconstruct, p)
    requires forall q | Adjacent(p, q) && InBounds(reconstruct, q) :: Fg(reconstruct, q)
    ensures Fg(cleaned, p)
  {
    var tmp := Not(reconstruct);
    assert Adjacent(p, North(p)) && Adjacent(p, South(p)) && Adjacent(p, West(p)) && Adjacent(p, East(p));
    assert !Fg(tmp, North(p)) && !Fg(tmp, South(p)) && !Fg(tmp, West(p)) && !Fg(tmp, East(p));
    SpeckRemoved(tmp, Not(cleaned), p);
    assert InBounds(cleaned, p) && InBounds(Not(cleaned), p);
  }

  // ---------------------------------------------------------------------
  // Cleaning a mask without foreground

  /** Growth closed under adjacency inside a mask that covers a rectangular
      grid spreads from any of its pixels along that pixel's row. */
  lemma {:induction false} SpreadRow(r: seq<seq<bool>>, u: seq<seq<bool>>, p: Pixel, j: int)
    requires Rect(u) && forall q | InBounds(u, q) :: u[q.0][q.1]
    requires forall a, b :: Fg(r, a) && Adjacent(a, b) && Fg(u, b) ==> Fg(r, b)
    requires Fg(r, p) && InBounds(u, p) && 0 <= j < Width(u)
    ensures Fg(r, (p.0, j))
    decreases if j < p.1 then p.1 - j else j - p.1
  {
    if j < p.1 {
      SpreadRow(r, u, p, j + 1);
      assert Adjacent((p.0, j + 1), (p.0, j)) && InBounds(u, (p.0, j));
    } else if j > p.1 {
      SpreadRow(r, u, p, j - 1);
      assert Adjacent((p.0, j - 1), (p.0, j)) && InBounds(u, (p.0, j));
    } else {
      assert (p.0, j) == p;
    }
  }

  /** The same along the pixel's column. */
  lemma {:induction false} SpreadColumn(r: seq<seq<bool>>, u: seq<seq<bool>>, p: Pixel, i: int)
    requires Rect(u) && forall q | InBounds(u, q) :: u[q.0][q.1]
    requires forall a, b :: Fg(r, a) && Adjacent(a, b) && Fg(u, b) ==> Fg(r, b)
    requires Fg(r, p) && InBounds(u, p) && 0 <= i < |u|
    ensures Fg(r, (i, p.1))
    decreases if i < p.0 then p.0 - i else i - p.0
  {
    if i < p.0 {
      SpreadColumn(r, u, p, i + 1);
      assert Adjacent((i + 1, p.1), (i, p.1)) && InBounds(u, (i, p.1));
    } else if i > p.0 {
      SpreadColumn(r, u, p, i - 1);
      assert Adjacent((i - 1, p.1), (i, p.1)) && InBounds(u, (i, p.1));
    } else {
      assert (i, p.1) == p;
    }
  }

  /** Such growth that holds one pixel holds the whole grid. */
  lemma SpreadAll(r: seq<seq<bool>>, u: seq<seq<bool>>, p: Pixel, q: Pixel)
    requires Rect(u) && forall x | InBounds(u, x) :: u[x.0][x.1]
    requires forall a, b :: Fg(r, a) && Adjacent(a, b) && Fg(u, b) ==> Fg(r, b)
    requires Fg(r, p) && InBounds(u, p) && InBounds(u, q)
    ensures Fg(r, q)
  {
    SpreadColumn(r, u, p, q.0);
    assert InBounds(u, (q.0, p.1));
    SpreadRow(r, u, (q.0, p.1), q.1);
    assert (q.0, q.1) == q;
  }

  /** Cleaning a mask without foreground and re-deriving the mask (line 57)
      leaves no foreground. The object pass is empty, so the hole pass runs
      over the whole grid: the cleaned mask is empty when the grid has an
      interior pixel, and may be all foreground when it has none. An empty
      cleaned mask stays empty at line 57, and an all-foreground one is
      turned into background there. */
  lemma DimCleaned(binary: seq<seq<bool>>, reconstruct: seq<seq<bool>>, cleaned: seq<seq<bool>>)
    requires Rect(binary) && forall p :: !Fg(binary, p)
    requires IsPropagation(Erode(binary), binary, reconstruct)
    requires IsPropagation(Erode(Not(reconstruct)), Not(reconstruct), Not(cleaned))
    requires PixelCount(cleaned) > 0
    ensures forall p :: !Fg(Remask(cleaned), p)
  {
    CleanBounds(binary, reconstruct, cleaned);
    var u, f := Not(reconstruct), Not(cleaned);
    assert Rect(u) && SameShape(u, cleaned) && SameShape(f, cleaned);
    forall q | InBounds(u, q) ensures u[q.0][q.1] {
      assert !Fg(reconstruct, q) && InBounds(reconstruct, q);
    }
    RemaskKeepsMask(cleaned);
    if p :| Fg(f, p) {
      forall q | InBounds(cleaned, q) ensures !cleaned[q.0][q.1] {
        SpreadAll(f, u, p, q);
      }
      PixelCountNonEmpty(cleaned);
    } else {
      forall q | InBounds(cleaned, q) ensures cleaned[q.0][q.1] {
        assert !Fg(f, q) && InBounds(f, q);
      }
    }
  }

  // ---------------------------------------------------------------------
  // The re-derived mask of line 57

  function RowCountTrue(r: seq<bool>): nat
  {
    if r == [] then 0 else (if r[0] then 1 else 0) + RowCountTrue(r[1..])
  }

  /** Number of foreground pixels. */
  function CountTrue(m: seq<seq<bool>>): nat
  {
    if |m| == 0 then 0 else RowCountTrue(m[0]) + CountTrue(m[1..])
  }

  /** reconstructFinal > reconstructFinal.mean(): each pixel read as 0 or 1 and
      compared with the fraction of foreground pixels. */
  function Remask(m: seq<seq<bool>>): (r: seq<seq<bool>>)
    requires PixelCount(m) > 0
    ensures SameShape(r, m)
    ensures Rect(m) ==> Rect(r) && Width(r) == Width(m)
    ensures forall p | InBounds(m, p) ::
      Fg(r, p) <==> (if m[p.0][p.1] then 1.0 else 0.0) > CountTrue(m) as real / PixelCount(m) as real
  {
    var mean := CountTrue(m) as real / PixelCount(m) as real;
    seq(|m|, i requires 0 <= i < |m| => seq(|m[i]|, j requires 0 <= j < |m[i]| =>
      (if m[i][j] then 1.0 else 0.0) > mean))
  }

  lemma {:induction false} RowCountTrueBound(r: seq<bool>)
    ensures RowCountTrue(r) <= |r|
    ensures RowCountTrue(r) == |r| <==> forall j | 0 <= j < |r| :: r[j]
  {
    if r != [] {
      RowCountTrueBound(r[1..]);
      assert forall j | 1 <= j < |r| :: r[j] == r[1..][j - 1];
    }
  }

  /** The foreground count reaches the pixel count iff every pixel is foreground. */
  lemma {:induction false} CountTrueBound(m: seq<seq<bool>>)
    ensures CountTrue(m) <= PixelCount(m)
    ensures CountTrue(m) == PixelCount(m) <==> forall p | InBounds(m, p) :: m[p.0][p.1]
  {
    if |m| > 0 {
      RowCountTrueBound(m[0]);
      CountTrueBound(m[1..]);
      forall p | InBounds(m, p) && p.0 > 0 ensures InBounds(m[1..], (p.0 - 1, p.1)) { }
      if forall p | InBounds(m, p) :: m[p.0][p.1] {
        forall j | 0 <= j < |m[0]| ensures m[0][j] { assert InBounds(m, (0, j)); }
        forall p | InBounds(m[1..], p) ensures m[1..][p.0][p.1] { assert InBounds(m, (p.0 + 1, p.1)); }
      } else {
        var p :| InBounds(m, p) && !m[p.0][p.1];
        if p.0 > 0 {
          assert InBounds(m[1..], (p.0 - 1, p.1)) && !m[1..][p.0 - 1][p.1];
        }
      }
    }
  }

  /** Line 57 keeps a mask with at least one background pixel and clears an
      all-foreground mask. */
  lemma RemaskKeepsMask(m: seq<seq<bool>>)
    requires PixelCount(m) > 0
    ensures (exists p | InBounds(m, p) :: !m[p.0][p.1]) ==> Remask(m) == m
    ensures (forall p | InBounds(m, p) :: m[p.0][p.1]) ==> forall p :: !Fg(Remask(m), p)
  {
    CountTrueBound(m);
    var mean := CountTrue(m) as real / PixelCount(m) as real;
    Fraction(CountTrue(m), PixelCount(m));
    if exists p | InBounds(m, p) :: !m[p.0][p.1] {
      var r := Remask(m);
      forall p | InBounds(r, p) ensures r[p.0][p.1] == m[p.0][p.1] {
        assert InBounds(m, p) && (Fg(r, p) <==> r[p.0][p.1]);
      }
      GridExt(r, m);
    }
  }

  /** The mask handed to labelling always has a background pixel. */
  lemma RemaskHasBackground(m: seq<seq<bool>>) returns (b: Pixel)
    requires PixelCount(m) > 0
    ensures InBounds(m, b) && !Fg(Remask(m), b)
  {
    RemaskKeepsMask(m);
    CountTrueBound(m);
    assert CountTrue(m) > 0 || CountTrue(m) < PixelCount(m);
    if p :| InBounds(m, p) && !m[p.0][p.1] {
      b := p;
    } else {
      PixelCountNonEmpty(m);
      b :| InBounds(m, b);
    }
  }

  lemma {:induction false} PixelCountNonEmpty<T>(g: seq<seq<T>>)
    requires PixelCount(g) > 0
    ensures exists p :: InBounds(g, p)
  {
    if |g[0]| > 0 {
      assert InBounds(g, (0, 0));
    } else {
      PixelCountNonEmpty(g[1..]);
      var p :| InBounds(g[1..], p);
      assert InBounds(g, (p.0 + 1, p.1));
    }
  }
}

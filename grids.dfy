/** Two-dimensional grids of pixels, the 4-connected neighbourhood and
    connectivity through a binary mask.  Every stage of the analysis works on
    grids of this shape: the image, the binary masks and the label maps. */
module Grids {

  /** A pixel position: (row, column). */
  type Pixel = (int, int)

  /** Width of a grid: the length of its first row (0 for a grid without rows). */
  function Width<T>(g: seq<seq<T>>): nat
  {
    if |g| == 0 then 0 else |g[0]|
  }

  /** The grid is a 2-D array: every row has the same length. */
  predicate Rect<T>(g: seq<seq<T>>)
  {
    forall i | 0 <= i < |g| :: |g[i]| == Width(g)
  }

  /** Two grids with the same number of rows and the same row lengths. */
  predicate SameShape<T, U>(a: seq<seq<T>>, b: seq<seq<U>>)
  {
    |a| == |b| && forall i | 0 <= i < |a| :: |a[i]| == |b[i]|
  }

  predicate InBounds<T>(g: seq<seq<T>>, p: Pixel)
  {
    0 <= p.0 < |g| && 0 <= p.1 < |g[p.0]|
  }

  /** Foreground test of a binary mask; a position outside the grid reads as
      background, which is the border value 0 of the morphology routines. */
  predicate Fg(m: seq<seq<bool>>, p: Pixel)
  {
    InBounds(m, p) && m[p.0][p.1]
  }

  /** The four neighbours of the cross-shaped structuring element. */
  function North(p: Pixel): Pixel { (p.0 - 1, p.1) }
  function South(p: Pixel): Pixel { (p.0 + 1, p.1) }
  function West(p: Pixel): Pixel { (p.0, p.1 - 1) }
  function East(p: Pixel): Pixel { (p.0, p.1 + 1) }

  /** 4-adjacency: the two pixels differ by one in exactly one coordinate. */
  predicate Adjacent(p: Pixel, q: Pixel)
  {
    (p.0 == q.0 && (p.1 == q.1 + 1 || q.1 == p.1 + 1)) ||
    (p.1 == q.1 && (p.0 == q.0 + 1 || q.0 == p.0 + 1))
  }

  lemma AdjacentIsNeighbour(p: Pixel, q: Pixel)
    requires Adjacent(p, q)
    ensures q == North(p) || q == South(p) || q == West(p) || q == East(p)
    ensures Adjacent(q, p)
  {
  }

  /** Every foreground pixel of a is foreground in b. */
  ghost predicate Within(a: seq<seq<bool>>, b: seq<seq<bool>>)
  {
    forall p :: Fg(a, p) ==> Fg(b, p)
  }

  /** Logical complement of a mask (np.logical_not). */
  function Not(m: seq<seq<bool>>): (r: seq<seq<bool>>)
    ensures SameShape(r, m)
    ensures Rect(m) ==> Rect(r) && Width(r) == Width(m)
    ensures forall p | InBounds(m, p) :: Fg(r, p) <==> !Fg(m, p)
    ensures forall p | !InBounds(m, p) :: !Fg(r, p)
  {
    seq(|m|, i requires 0 <= i < |m| => seq(|m[i]|, j requires 0 <= j < |m[i]| => !m[i][j]))
  }

  /** Two grids of the same shape that agree at every pixel are equal. */
  lemma GridExt<T>(a: seq<seq<T>>, b: seq<seq<T>>)
    requires SameShape(a, b)
    requires forall p | InBounds(a, p) :: a[p.0][p.1] == b[p.0][p.1]
    ensures a == b
  {
    forall i | 0 <= i < |a|
      ensures a[i] == b[i]
    {
      forall j | 0 <= j < |a[i]|
        ensures a[i][j] == b[i][j]
      {
        assert InBounds(a, (i, j));
      }
    }
  }

  /** Complement reverses containment between grids of one shape. */
  lemma NotWithin(a: seq<seq<bool>>, b: seq<seq<bool>>)
    requires SameShape(a, b) && Within(a, b)
    ensures Within(Not(b), Not(a))
  {
    forall p | Fg(Not(b), p) ensures Fg(Not(a), p) {
      assert InBounds(b, p) && InBounds(a, p);
    }
  }

  /** Grids of one shape with the same complement are equal. */
  lemma ComplementsEqual(a: seq<seq<bool>>, b: seq<seq<bool>>)
    requires SameShape(a, b) && Within(Not(a), Not(b)) && Within(Not(b), Not(a))
    ensures a == b
  {
    forall p | InBounds(a, p) ensures a[p.0][p.1] == b[p.0][p.1] {
      assert InBounds(b, p);
      assert Fg(Not(a), p) == Fg(Not(b), p);
    }
    GridExt(a, b);
  }

  lemma NotInvolution(m: seq<seq<bool>>)
    ensures Not(Not(m)) == m
  {
    var r := Not(Not(m));
    forall p | InBounds(r, p)
      ensures r[p.0][p.1] == m[p.0][p.1]
    {
      assert InBounds(m, p) && InBounds(Not(m), p);
    }
    GridExt(r, m);
  }

  /** The grid with the same shape as g in which only pixel s is foreground. */
  function Single<T>(g: seq<seq<T>>, s: Pixel): (r: seq<seq<bool>>)
    ensures SameShape(r, g)
    ensures Rect(g) ==> Rect(r) && Width(r) == Width(g)
    ensures forall p :: Fg(r, p) <==> InBounds(g, p) && p == s
  {
    seq(|g|, i requires 0 <= i < |g| => seq(|g[i]|, j => (i, j) == s))
  }

  /** The contents of a 2-D array as a grid value. */
  function Rows<T>(a: array2<T>): (g: seq<seq<T>>)
    reads a
    ensures |g| == a.Length0
    ensures forall i | 0 <= i < a.Length0 :: |g[i]| == a.Length1
    ensures forall i, j | 0 <= i < a.Length0 && 0 <= j < a.Length1 :: g[i][j] == a[i, j]
  {
    seq(a.Length0, i reads a requires 0 <= i < a.Length0 =>
      seq(a.Length1, j reads a requires 0 <= j < a.Length1 => a[i, j]))
  }

  /** Number of pixels of a grid (the array's size). */
  function PixelCount<T>(g: seq<seq<T>>): nat
  {
    if |g| == 0 then 0 else |g[0]| + PixelCount(g[1..])
  }

  // ---------------------------------------------------------------------
  // Connectivity through a mask

  /** A non-empty walk of 4-adjacent steps that stays on the foreground of m. */
  ghost predicate IsPath(m: seq<seq<bool>>, path: seq<Pixel>)
  {
    |path| > 0 &&
    (forall k | 0 <= k < |path| :: Fg(m, path[k])) &&
    (forall k | 0 <= k < |path| - 1 :: Adjacent(path[k], path[k + 1]))
  }

  /** p and q lie in the same 4-connected component of the foreground of m. */
  ghost predicate Connected(m: seq<seq<bool>>, p: Pixel, q: Pixel)
  {
    exists path :: IsPath(m, path) && path[0] == p && path[|path| - 1] == q
  }

  lemma ConnectedRefl(m: seq<seq<bool>>, p: Pixel)
    requires Fg(m, p)
    ensures Connected(m, p, p)
  {
    assert IsPath(m, [p]);
  }

  /** Reversal of a path, used for symmetry of connectivity. */
  function Reverse<T>(s: seq<T>): (r: seq<T>)
    ensures |r| == |s|
    ensures forall k | 0 <= k < |s| :: r[k] == s[|s| - 1 - k]
  {
    if s == [] then [] else Reverse(s[1..]) + [s[0]]
  }

  lemma ConnectedSym(m: seq<seq<bool>>, p: Pixel, q: Pixel)
    requires Connected(m, p, q)
    ensures Connected(m, q, p)
  {
    var path :| IsPath(m, path) && path[0] == p && path[|path| - 1] == q;
    var back := Reverse(path);
    forall k | 0 <= k < |back| - 1
      ensures Adjacent(back[k], back[k + 1])
    {
      AdjacentIsNeighbour(path[|path| - 2 - k], path[|path| - 1 - k]);
    }
    assert IsPath(m, back);
  }

  lemma ConnectedTrans(m: seq<seq<bool>>, p: Pixel, q: Pixel, r: Pixel)
    requires Connected(m, p, q) && Connected(m, q, r)
    ensures Connected(m, p, r)
  {
    var a :| IsPath(m, a) && a[0] == p && a[|a| - 1] == q;
    var b :| IsPath(m, b) && b[0] == q && b[|b| - 1] == r;
    var c := a + b[1..];
    forall k | 0 <= k < |c| - 1
      ensures Adjacent(c[k], c[k + 1])
    {
      if k < |a| - 1 {
        assert c[k] == a[k] && c[k + 1] == a[k + 1];
      } else {
        assert c[k] == b[k - |a| + 1] && c[k + 1] == b[k - |a| + 2];
      }
    }
    assert IsPath(m, c);
  }

  /** Connected pixels are both foreground. */
  lemma ConnectedFg(m: seq<seq<bool>>, p: Pixel, q: Pixel)
    requires Connected(m, p, q)
    ensures Fg(m, p) && Fg(m, q)
  {
    var path :| IsPath(m, path) && path[0] == p && path[|path| - 1] == q;
  }
}

/** Threshold selection and mask building (08_04_JM_emccd_script.py, lines 31-45).
    The cutoff is chosen by a five-way ladder on the image mean; the mask is
    the set of pixels strictly above it.  Reals are exact rationals. */
module Threshold {
  import opened Grids
  import opened Arith

  function RowSum(r: seq<int>): int
  {
    if r == [] then 0 else r[0] + RowSum(r[1..])
  }

  /** Sum of all pixel values. */
  function Sum(g: seq<seq<int>>): int
  {
    if |g| == 0 then 0 else RowSum(g[0]) + Sum(g[1..])
  }

  /** A 2-D image with at least one pixel. */
  predicate NonEmpty<T>(g: seq<seq<T>>)
  {
    Rect(g) && |g| > 0 && Width(g) > 0
  }

  lemma {:induction false} PixelCountRect<T>(g: seq<seq<T>>)
    requires Rect(g)
    ensures PixelCount(g) == |g| * Width(g)
    ensures PixelCount(g) > 0 <==> NonEmpty(g)
  {
    if |g| > 0 {
      assert Rect(g[1..]) && (|g| > 1 ==> Width(g[1..]) == Width(g));
      PixelCountRect(g[1..]);
      assert |g| * Width(g) == Width(g) + (|g| - 1) * Width(g);
    }
  }

  /** image.mean(): the exact mean of all pixel values. */
  function Mean(g: seq<seq<int>>): (m: real)
    requires PixelCount(g) > 0
    ensures m * PixelCount(g) as real == Sum(g) as real
  {
    Sum(g) as real / PixelCount(g) as real
  }

  function RowMax(r: seq<int>): (m: int)
    requires |r| > 0
    ensures exists j | 0 <= j < |r| :: r[j] == m
    ensures forall j | 0 <= j < |r| :: r[j] <= m
  {
    if |r| == 1 then r[0]
    else
      var t := RowMax(r[1..]);
      assert forall j | 1 <= j < |r| :: r[j] == r[1..][j - 1];
      if r[0] >= t then r[0] else t
  }

  function RowMin(r: seq<int>): (m: int)
    requires |r| > 0
    ensures exists j | 0 <= j < |r| :: r[j] == m
    ensures forall j | 0 <= j < |r| :: m <= r[j]
  {
    if |r| == 1 then r[0]
    else
      var t := RowMin(r[1..]);
      assert forall j | 1 <= j < |r| :: r[j] == r[1..][j - 1];
      if r[0] <= t then r[0] else t
  }

  /** image.max(): the largest pixel value, attained by some pixel. */
  function Max(g: seq<seq<int>>): (m: int)
    requires NonEmpty(g)
    ensures exists p | InBounds(g, p) :: g[p.0][p.1] == m
    ensures forall p | InBounds(g, p) :: g[p.0][p.1] <= m
  {
    var top := RowMax(g[0]);
    var j :| 0 <= j < |g[0]| && g[0][j] == top;
    assert InBounds(g, (0, j));
    if |g| == 1 then top
    else
      assert NonEmpty(g[1..]);
      var rest := Max(g[1..]);
      assert forall p | InBounds(g, p) && p.0 > 0 :: InBounds(g[1..], (p.0 - 1, p.1));
      var q :| InBounds(g[1..], q) && g[1..][q.0][q.1] == rest;
      assert InBounds(g, (q.0 + 1, q.1));
      if top >= rest then top else rest
  }

  /** image.min(): the smallest pixel value, attained by some pixel. */
  function Min(g: seq<seq<int>>): (m: int)
    requires NonEmpty(g)
    ensures exists p | InBounds(g, p) :: g[p.0][p.1] == m
    ensures forall p | InBounds(g, p) :: m <= g[p.0][p.1]
  {
    var low := RowMin(g[0]);
    var j :| 0 <= j < |g[0]| && g[0][j] == low;
    assert InBounds(g, (0, j));
    if |g| == 1 then low
    else
      assert NonEmpty(g[1..]);
      var rest := Min(g[1..]);
      assert forall p | InBounds(g, p) && p.0 > 0 :: InBounds(g[1..], (p.0 - 1, p.1));
      var q :| InBounds(g[1..], q) && g[1..][q.0][q.1] == rest;
      assert InBounds(g, (q.0 + 1, q.1));
      if low <= rest then low else rest
  }

  lemma {:induction false} RowSumBounds(r: seq<int>, lo: int, hi: int)
    requires forall j | 0 <= j < |r| :: lo <= r[j] <= hi
    ensures |r| * lo <= RowSum(r) <= |r| * hi
  {
    if r != [] {
      RowSumBounds(r[1..], lo, hi);
      Distribute(1, |r| - 1, lo);
      Distribute(1, |r| - 1, hi);
    }
  }

  /** The sum lies between count * lo and count * hi when every pixel does. */
  lemma {:induction false} SumBounds(g: seq<seq<int>>, lo: int, hi: int)
    requires forall p | InBounds(g, p) :: lo <= g[p.0][p.1] <= hi
    ensures PixelCount(g) * lo <= Sum(g) <= PixelCount(g) * hi
  {
    if |g| > 0 {
      forall j | 0 <= j < |g[0]| ensures lo <= g[0][j] <= hi {
        assert InBounds(g, (0, j));
      }
      RowSumBounds(g[0], lo, hi);
      forall p | InBounds(g[1..], p) ensures lo <= g[1..][p.0][p.1] <= hi {
        assert InBounds(g, (p.0 + 1, p.1));
      }
      SumBounds(g[1..], lo, hi);
      Distribute(|g[0]|, PixelCount(g[1..]), lo);
      Distribute(|g[0]|, PixelCount(g[1..]), hi);
    }
  }

  /** The mean lies between the smallest and the largest pixel value. */
  lemma MeanBetweenMinAndMax(g: seq<seq<int>>)
    requires NonEmpty(g)
    ensures PixelCount(g) > 0
    ensures Min(g) as real <= Mean(g) <= Max(g) as real
  {
    PixelCountRect(g);
    var lo, hi := Min(g), Max(g);
    SumBounds(g, lo, hi);
    DivideBetween(Sum(g), PixelCount(g), lo, hi);
  }

  // ---------------------------------------------------------------------
  // The cutoff ladder (lines 31-40)

  /** The five bands of the image mean. */
  datatype Band = Dim | Low | Medium | High | Bright

  /** Exactly one band holds each mean; the bands are half-open intervals. */
  function BandOf(m: real): (b: Band)
    ensures b == Dim <==> m < 10000.0
    ensures b == Low <==> 10000.0 <= m < 12500.0
    ensures b == Medium <==> 12500.0 <= m < 15000.0
    ensures b == High <==> 15000.0 <= m < 17000.0
    ensures b == Bright <==> 17000.0 <= m
  {
    if m < 10000.0 then Dim
    else if m < 12500.0 then Low
    else if m < 15000.0 then Medium
    else if m < 17000.0 then High
    else Bright
  }

  /** Fraction of the maximum used as cutoff in the four brighter bands. */
  function MaxFraction(b: Band): real
    requires b != Dim
  {
    match b
    case Low => 0.4
    case Medium => 0.5
    case High => 0.6
    case Bright => 0.7
  }

  /** The intensity cutoff chosen by the ladder. */
  function Cutoff(g: seq<seq<int>>): (c: real)
    requires NonEmpty(g)
    ensures PixelCount(g) > 0
    ensures Mean(g) < 10000.0 ==> c == Min(g) as real + Mean(g) * 0.17
    ensures 10000.0 <= Mean(g) < 12500.0 ==> c == Max(g) as real * 0.4
    ensures 12500.0 <= Mean(g) < 15000.0 ==> c == Max(g) as real * 0.5
    ensures 15000.0 <= Mean(g) < 17000.0 ==> c == Max(g) as real * 0.6
    ensures 17000.0 <= Mean(g) ==> c == Max(g) as real * 0.7
  {
    PixelCountRect(g);
    var m := Mean(g);
    var b := BandOf(m);
    if b == Dim then Min(g) as real + m * 0.17 else Max(g) as real * MaxFraction(b)
  }

  /** The binary mask of lines 32-45: a pixel is foreground iff its value is
      strictly greater than the cutoff (the noise of line 43 is left out, so
      the re-binarised mask of line 45 is this mask). */
  function ThresholdMask(g: seq<seq<int>>): (r: seq<seq<bool>>)
    requires NonEmpty(g)
    ensures SameShape(r, g) && Rect(r) && Width(r) == Width(g)
    ensures forall p | InBounds(g, p) :: Fg(r, p) <==> g[p.0][p.1] as real > Cutoff(g)
  {
    var c := Cutoff(g);
    seq(|g|, i requires 0 <= i < |g| => seq(|g[i]|, j requires 0 <= j < |g[i]| => g[i][j] as real > c))
  }

  /** In the four max-relative bands the brightest pixel is always selected. */
  lemma BrightestSelected(g: seq<seq<int>>, p: Pixel)
    requires NonEmpty(g) && InBounds(g, p) && g[p.0][p.1] == Max(g)
    ensures PixelCount(g) > 0
    ensures Mean(g) >= 10000.0 ==> Fg(ThresholdMask(g), p)
  {
    MeanBetweenMinAndMax(g);
  }

  /** In the lowest band, an image whose mean is not negative never selects its
      dimmest pixel. */
  lemma DimmestRejected(g: seq<seq<int>>, p: Pixel)
    requires NonEmpty(g) && InBounds(g, p) && g[p.0][p.1] == Min(g)
    ensures PixelCount(g) > 0
    ensures 0.0 <= Mean(g) < 10000.0 ==> !Fg(ThresholdMask(g), p)
  {
    PixelCountRect(g);
  }

  /** A uniform image below the first band boundary (an all-zero image, say)
      yields an empty mask. */
  lemma UniformDimImageEmpty(g: seq<seq<int>>, v: int)
    requires NonEmpty(g)
    requires 0 <= v < 10000
    requires forall p | InBounds(g, p) :: g[p.0][p.1] == v
    ensures forall p :: !Fg(ThresholdMask(g), p)
  {
    UniformMean(g, v);
    var c := Cutoff(g);
    assert c == v as real + v as real * 0.17;
    forall p ensures !Fg(ThresholdMask(g), p) {
      if InBounds(g, p) {
        assert g[p.0][p.1] == v;
      }
    }
  }

  /** Mean and minimum of a uniform image are its value. */
  lemma UniformMean(g: seq<seq<int>>, v: int)
    requires NonEmpty(g)
    requires forall p | InBounds(g, p) :: g[p.0][p.1] == v
    ensures PixelCount(g) > 0 && Mean(g) == v as real && Min(g) == v
  {
    PixelCountRect(g);
    SumBounds(g, v, v);
    DivideBetween(Sum(g), PixelCount(g), v, v);
  }
}

/** Rank compaction of the label map (08_04_JM_emccd_script.py, lines 84-85):
    labels = np.unique(labelIm) lists the labels in use in increasing order,
    and np.searchsorted(labels, labelIm) replaces every label by its index
    in that list. */
module Ranks {
  import opened Grids
  import opened Labeling

  predicate StrictlySorted(s: seq<nat>)
  {
    forall a, b | 0 <= a < b < |s| :: s[a] < s[b]
  }

  /** The labels of the map in row-major order. */
  function Flatten(L: seq<seq<nat>>): (xs: seq<nat>)
    ensures forall k :: k in xs <==> Used(L, k)
  {
    if |L| == 0 then []
    else
      var rest := Flatten(L[1..]);
      assert forall k :: Used(L, k) <==> k in L[0] || Used(L[1..], k) by {
        forall k ensures Used(L, k) <==> k in L[0] || Used(L[1..], k) {
          if Used(L, k) {
            var p :| InBounds(L, p) && L[p.0][p.1] == k;
            if p.0 > 0 {
              assert InBounds(L[1..], (p.0 - 1, p.1));
            }
          }
          if k in L[0] {
            var j :| 0 <= j < |L[0]| && L[0][j] == k;
            assert InBounds(L, (0, j));
          }
          if Used(L[1..], k) {
            var p :| InBounds(L[1..], p) && L[1..][p.0][p.1] == k;
            assert InBounds(L, (p.0 + 1, p.1));
          }
        }
      }
      L[0] + rest
  }

  /** Inserts x into a strictly increasing list, keeping it strictly
      increasing and free of duplicates. */
  function Insert(x: nat, s: seq<nat>): (r: seq<nat>)
    requires StrictlySorted(s)
    ensures StrictlySorted(r)
    ensures forall v :: v in r <==> v == x || v in s
  {
    if s == [] then [x]
    else if x < s[0] then [x] + s
    else if x == s[0] then s
    else
      var t := Insert(x, s[1..]);
      assert forall v :: v in s <==> v == s[0] || v in s[1..];
      assert forall k | 0 <= k < |t| :: s[0] < t[k] by {
        forall k | 0 <= k < |t| ensures s[0] < t[k] {
          assert t[k] in t;
        }
      }
      [s[0]] + t
  }

  /** The distinct values of a list in increasing order. */
  function SortedDistinct(xs: seq<nat>): (r: seq<nat>)
    ensures StrictlySorted(r)
    ensures forall v :: v in r <==> v in xs
  {
    if xs == [] then [] else
      assert forall v :: v in xs <==> v == xs[0] || v in xs[1..];
      Insert(xs[0], SortedDistinct(xs[1..]))
  }

  /** np.unique(labelIm): the labels in use, strictly increasing. */
  function Unique(L: seq<seq<nat>>): (labels: seq<nat>)
    ensures StrictlySorted(labels)
    ensures forall k :: k in labels <==> Used(L, k)
  {
    SortedDistinct(Flatten(L))
  }

  /** np.searchsorted(a, x) with side 'left': the first index whose entry is
      not below x, or |a| if there is none. */
  function SearchSorted(a: seq<nat>, x: nat): (i: nat)
    ensures i <= |a|
    ensures forall k | 0 <= k < i :: a[k] < x
    ensures i < |a| ==> x <= a[i]
  {
    if a == [] || x <= a[0] then 0 else 1 + SearchSorted(a[1..], x)
  }

  /** In a strictly increasing list a value is found at its own index. */
  lemma SearchFinds(a: seq<nat>, i: int)
    requires StrictlySorted(a) && 0 <= i < |a|
    ensures SearchSorted(a, a[i]) == i
  {
  }

  /** labelIm = np.searchsorted(labels, labelIm). */
  function Relabel(L: seq<seq<nat>>): (r: seq<seq<nat>>)
    ensures SameShape(r, L)
    ensures forall p | InBounds(L, p) :: r[p.0][p.1] <= L[p.0][p.1]
  {
    var labels := Unique(L);
    assert forall p | InBounds(L, p) :: L[p.0][p.1] in labels by {
      forall p | InBounds(L, p) ensures L[p.0][p.1] in labels {
        assert Used(L, L[p.0][p.1]);
      }
    }
    seq(|L|, i requires 0 <= i < |L| => RankRow(labels, L[i]))
  }

  /** One row of the compacted map: each label replaced by its index in the
      list of labels, which for a listed label is never above the label. */
  function RankRow(labels: seq<nat>, row: seq<nat>): (r: seq<nat>)
    requires StrictlySorted(labels)
    ensures |r| == |row|
    ensures forall j | 0 <= j < |row| && row[j] in labels :: r[j] <= row[j]
  {
    var r := seq(|row|, j requires 0 <= j < |row| => SearchSorted(labels, row[j]));
    assert forall j | 0 <= j < |row| && row[j] in labels :: r[j] <= row[j] by {
      forall j | 0 <= j < |row| && row[j] in labels ensures r[j] <= row[j] {
        var i :| 0 <= i < |labels| && labels[i] == row[j];
        SearchFinds(labels, i);
        RankAtMost(labels, i);
      }
    }
    r
  }

  /** In a strictly increasing list of naturals every entry is at least its
      index. */
  lemma {:induction false} RankAtMost(s: seq<nat>, i: int)
    requires StrictlySorted(s) && 0 <= i < |s|
    ensures i <= s[i]
  {
    if i > 0 {
      RankAtMost(s, i - 1);
    }
  }

  /** Each pixel's new label is the rank of its old label among the labels
      in use; those ranks are 0..|labels|-1. */
  lemma RelabelRank(L: seq<seq<nat>>, p: Pixel)
    requires InBounds(L, p)
    ensures InBounds(Relabel(L), p)
    ensures Relabel(L)[p.0][p.1] < |Unique(L)| && Unique(L)[Relabel(L)[p.0][p.1]] == L[p.0][p.1]
  {
    var labels := Unique(L);
    assert Used(L, L[p.0][p.1]);
    var i :| 0 <= i < |labels| && labels[i] == L[p.0][p.1];
    SearchFinds(labels, i);
  }

  /** The new labels are exactly 0..|labels|-1: all below |labels|, and every
      one of them is used. */
  lemma RelabelContiguous(L: seq<seq<nat>>)
    ensures forall p | InBounds(L, p) :: InBounds(Relabel(L), p) && Relabel(L)[p.0][p.1] < |Unique(L)|
    ensures forall k | 0 <= k < |Unique(L)| :: Used(Relabel(L), k)
  {
    forall p | InBounds(L, p) ensures InBounds(Relabel(L), p) && Relabel(L)[p.0][p.1] < |Unique(L)| {
      RelabelRank(L, p);
    }
    var labels := Unique(L);
    forall k | 0 <= k < |labels| ensures Used(Relabel(L), k) {
      assert labels[k] in labels;
      var p :| InBounds(L, p) && L[p.0][p.1] == labels[k];
      RelabelRank(L, p);
      assert InBounds(Relabel(L), p);
      assert labels[Relabel(L)[p.0][p.1]] == labels[k];
    }
  }

  /** Relabelling is strictly order-preserving, so two pixels share a new
      label iff they shared the old one: the partition into regions is kept. */
  lemma RelabelPreservesOrder(L: seq<seq<nat>>, p: Pixel, q: Pixel)
    requires InBounds(L, p) && InBounds(L, q)
    ensures InBounds(Relabel(L), p) && InBounds(Relabel(L), q)
    ensures L[p.0][p.1] < L[q.0][q.1] <==> Relabel(L)[p.0][p.1] < Relabel(L)[q.0][q.1]
    ensures L[p.0][p.1] == L[q.0][q.1] <==> Relabel(L)[p.0][p.1] == Relabel(L)[q.0][q.1]
  {
    RelabelRank(L, p);
    RelabelRank(L, q);
  }

  /** When some pixel is background, label 0 stays 0 and only 0 maps to 0. */
  lemma ZeroStays(L: seq<seq<nat>>, p: Pixel)
    requires Used(L, 0) && InBounds(L, p)
    ensures InBounds(Relabel(L), p)
    ensures Relabel(L)[p.0][p.1] == 0 <==> L[p.0][p.1] == 0
  {
    var labels := Unique(L);
    assert 0 in labels;
    assert labels[0] == 0;
    RelabelRank(L, p);
  }

  /** With label 0 in use, compaction keeps the foreground: exactly the
      pixels with a non-zero label still have one. */
  lemma CompactionKeepsForeground(L: seq<seq<nat>>)
    requires Used(L, 0)
    ensures NonZero(Relabel(L)) == NonZero(L)
  {
    var a, c := NonZero(Relabel(L)), NonZero(L);
    forall p | InBounds(a, p) ensures a[p.0][p.1] == c[p.0][p.1] {
      assert InBounds(L, p);
      ZeroStays(L, p);
      assert Fg(a, p) <==> a[p.0][p.1];
      assert Fg(c, p) <==> c[p.0][p.1];
    }
    GridExt(a, c);
  }
}

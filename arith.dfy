/** Arithmetic facts about integer sums, counts and exact real division
    shared by the mean, threshold and aggregation proofs. */
module Arith {

  lemma Distribute(a: int, b: int, c: int)
    ensures (a + b) * c == a * c + b * c
  {
  }

  /** Distinct naturals below m are at most m in number. */
  lemma {:induction false} Pigeon(s: seq<nat>, m: nat)
    requires forall i | 0 <= i < |s| :: s[i] < m
    requires forall i, j | 0 <= i < j < |s| :: s[i] != s[j]
    ensures |s| <= m
    decreases m
  {
    if |s| > 0 {
      assert s[0] < m;
      if i :| 0 <= i < |s| && s[i] == m - 1 {
        var rest := s[..i] + s[i + 1..];
        assert forall a | 0 <= a < |rest| :: rest[a] == if a < i then s[a] else s[a + 1];
        Pigeon(rest, m - 1);
      } else {
        Pigeon(s, m - 1);
      }
    }
  }

  /** The sum of a list of reals. */
  function SeqSum(s: seq<real>): real
  {
    if s == [] then 0.0 else SeqSum(s[..|s| - 1]) + s[|s| - 1]
  }

  /** A sum of |s| terms each between lo and hi lies between |s| * lo and |s| * hi. */
  lemma {:induction false} SumBetween(s: seq<real>, lo: real, hi: real)
    requires forall i | 0 <= i < |s| :: lo <= s[i] <= hi
    ensures |s| as real * lo <= SeqSum(s) <= |s| as real * hi
  {
    if s != [] {
      var t := s[..|s| - 1];
      SumBetween(t, lo, hi);
      AddBetween(|s|, SeqSum(t), s[|s| - 1], SeqSum(s), lo, hi);
    }
  }

  /** Adding c to each of n terms adds n * c to their sum. */
  lemma {:induction false} SumAddEach(s: seq<real>, t: seq<real>, n: nat, c: real)
    requires |t| == |s| == n && forall i | 0 <= i < n :: t[i] == s[i] + c
    ensures SeqSum(t) == SeqSum(s) + n as real * c
  {
    if n > 0 {
      SumAddEach(s[..n - 1], t[..n - 1], n - 1, c);
      CountStep(n, c);
    }
  }

  /** Taking entry j out of a list takes its value out of the sum. */
  lemma {:induction false} SumRemove(s: seq<real>, j: int)
    requires 0 <= j < |s|
    ensures SeqSum(s) == SeqSum(s[..j] + s[j + 1..]) + s[j]
    decreases |s|
  {
    var n := |s|;
    if j < n - 1 {
      var u := s[..n - 1];
      SumRemove(u, j);
      var r := s[..j] + s[j + 1..];
      assert r[..|r| - 1] == u[..j] + u[j + 1..];
    } else {
      assert s[..j] + s[j + 1..] == s[..n - 1];
    }
  }

  /** Reordering a list keeps its sum: t lists the entries of s in the order
      pi, a one-to-one map onto the indices of s whose inverse is inv. */
  lemma {:induction false} SumPermutation(s: seq<real>, t: seq<real>, pi: seq<nat>, inv: seq<nat>)
    requires |t| == |pi| == |s| == |inv|
    requires forall i | 0 <= i < |pi| :: pi[i] < |s| && t[i] == s[pi[i]]
    requires forall i, j | 0 <= i < j < |pi| :: pi[i] != pi[j]
    requires forall v | 0 <= v < |inv| :: inv[v] < |pi| && pi[inv[v]] == v
    ensures SeqSum(t) == SeqSum(s)
    decreases |s|
  {
    var n := |s|;
    if n > 0 {
      var j := inv[n - 1];
      var inv' := DropLast(s, t, pi, inv);
      SumPermutation(s[..n - 1], t[..j] + t[j + 1..], pi[..j] + pi[j + 1..], inv');
      SumRemove(t, j);
    }
  }

  /** Taking the last entry out of s and its position j = inv[|s| - 1] out
      of t and pi leaves a reordering of the rest, with inverse inv'. */
  lemma DropLast(s: seq<real>, t: seq<real>, pi: seq<nat>, inv: seq<nat>) returns (inv': seq<nat>)
    requires 0 < |t| == |pi| == |s| == |inv|
    requires forall i | 0 <= i < |pi| :: pi[i] < |s| && t[i] == s[pi[i]]
    requires forall i, j | 0 <= i < j < |pi| :: pi[i] != pi[j]
    requires forall v | 0 <= v < |inv| :: inv[v] < |pi| && pi[inv[v]] == v
    ensures var n, j := |s|, inv[|s| - 1];
      var t', pi', s' := t[..j] + t[j + 1..], pi[..j] + pi[j + 1..], s[..n - 1];
      && |t'| == |pi'| == |s'| == |inv'|
      && (forall i | 0 <= i < |pi'| :: pi'[i] < |s'| && t'[i] == s'[pi'[i]])
      && (forall i, k | 0 <= i < k < |pi'| :: pi'[i] != pi'[k])
      && (forall v | 0 <= v < |inv'| :: inv'[v] < |pi'| && pi'[inv'[v]] == v)
  {
    var n, j := |s|, inv[|s| - 1];
    var t', pi', s' := t[..j] + t[j + 1..], pi[..j] + pi[j + 1..], s[..n - 1];
    DropEntry(pi, pi', j);
    DropEntry(t, t', j);
    DropMapped(s, t, pi, s', t', pi', j);
    DropInjective(pi, pi', j);
    inv' := DropInverse(pi, inv, pi', j);
  }

  /** x' is x without entry j. */
  lemma DropEntry<T>(x: seq<T>, x': seq<T>, j: nat)
    requires j < |x| && x' == x[..j] + x[j + 1..]
    ensures |x'| == |x| - 1
    ensures forall a | 0 <= a < |x'| :: x'[a] == x[if a < j then a else a + 1]
  {
  }

  lemma DropMapped(s: seq<real>, t: seq<real>, pi: seq<nat>, s': seq<real>, t': seq<real>, pi': seq<nat>, j: nat)
    requires 0 < |t| == |pi| == |s| && j < |pi| && pi[j] == |s| - 1 && s' == s[..|s| - 1]
    requires forall i | 0 <= i < |pi| :: pi[i] < |s| && t[i] == s[pi[i]]
    requires forall i, k | 0 <= i < k < |pi| :: pi[i] != pi[k]
    requires |pi'| == |t'| == |pi| - 1
    requires forall a | 0 <= a < |pi'| :: pi'[a] == pi[if a < j then a else a + 1]
    requires forall a | 0 <= a < |t'| :: t'[a] == t[if a < j then a else a + 1]
    ensures forall i | 0 <= i < |pi'| :: pi'[i] < |s'| && t'[i] == s'[pi'[i]]
  {
    forall i | 0 <= i < |pi'| ensures pi'[i] < |s'| && t'[i] == s'[pi'[i]] {
      var a := if i < j then i else i + 1;
      assert pi'[i] == pi[a] && t'[i] == t[a] && pi[a] != pi[j];
    }
  }

  lemma DropInjective(pi: seq<nat>, pi': seq<nat>, j: nat)
    requires j < |pi| && |pi'| == |pi| - 1
    requires forall i, k | 0 <= i < k < |pi| :: pi[i] != pi[k]
    requires forall a | 0 <= a < |pi'| :: pi'[a] == pi[if a < j then a else a + 1]
    ensures forall i, k | 0 <= i < k < |pi'| :: pi'[i] != pi'[k]
  {
    forall i, k | 0 <= i < k < |pi'| ensures pi'[i] != pi'[k] {
      var a, b := if i < j then i else i + 1, if k < j then k else k + 1;
      assert a < b && pi'[i] == pi[a] && pi'[k] == pi[b];
    }
  }

  lemma DropInverse(pi: seq<nat>, inv: seq<nat>, pi': seq<nat>, j: nat) returns (inv': seq<nat>)
    requires 0 < |pi| == |inv| && j == inv[|inv| - 1] && |pi'| == |pi| - 1
    requires forall v | 0 <= v < |inv| :: inv[v] < |pi| && pi[inv[v]] == v
    requires forall a | 0 <= a < |pi'| :: pi'[a] == pi[if a < j then a else a + 1]
    ensures |inv'| == |pi'|
    ensures forall v | 0 <= v < |inv'| :: inv'[v] < |pi'| && pi'[inv'[v]] == v
  {
    var n := |pi|;
    inv' := seq(n - 1, v requires 0 <= v < n - 1 => if inv[v] < j then inv[v] else inv[v] - 1);
    forall v | 0 <= v < n - 1 ensures inv'[v] < |pi'| && pi'[inv'[v]] == v {
      assert pi[inv[v]] == v != n - 1 == pi[j];
    }
  }

  /** m is the average of a total s over c items: c copies of m make s. */
  predicate IsAverage(m: real, s: int, c: nat)
  {
    m * c as real == s as real
  }

  /** The exact average of a total s over c items. */
  function Average(s: int, c: nat): (m: real)
    requires c > 0
    ensures IsAverage(m, s, c)
  {
    s as real / c as real
  }

  /** A sum of n copies of m, divided by n, is m. */
  lemma AverageOfEqual(s: real, n: real, m: real)
    requires n > 0.0 && s == n * m
    ensures s / n - m == 0.0
  {
  }

  /** n * lo <= s <= n * hi over the integers gives lo <= s / n <= hi over the reals. */
  lemma DivideBetween(s: int, n: int, lo: int, hi: int)
    requires n > 0 && n * lo <= s <= n * hi
    ensures lo as real <= s as real / n as real <= hi as real
  {
    assert (n * lo) as real == n as real * lo as real;
    assert (n * hi) as real == n as real * hi as real;
    assert s as real / n as real * n as real == s as real;
  }

  lemma CountStep(n: nat, x: real)
    requires n > 0
    ensures n as real * x == (n - 1) as real * x + x
  {
  }

  lemma AddBetween(n: nat, a: real, b: real, r: real, lo: real, hi: real)
    requires n > 0 && (n - 1) as real * lo <= a <= (n - 1) as real * hi && lo <= b <= hi && r == a + b
    ensures n as real * lo <= r <= n as real * hi
  {
    CountStep(n, lo);
    CountStep(n, hi);
  }

  lemma RealDivideBetween(s: real, m: real, lo: real, hi: real)
    requires m > 0.0 && m * lo <= s <= m * hi
    ensures lo <= s / m <= hi
  {
  }

  /** s / n shifted by c is (s + n * c) / n. */
  lemma DivShift(s: int, n: int, c: int)
    requires n > 0
    ensures (s + n * c) as real / n as real == s as real / n as real + c as real
  {
    assert (n * c) as real == n as real * c as real;
  }

  /** Adding m * c to a sum over m terms and c to the baseline leaves the
      average minus the baseline unchanged. */
  lemma ShiftCancels(a: real, a': real, u: real, u': real, m: real, c: real)
    requires m > 0.0 && a' == a + m * c && u' == u + c
    ensures a' / m - u' == a / m - u
  {
    assert (a + m * c) / m == a / m + c;
  }

  /** A count c out of n > 0, as a real fraction, lies in [0, 1] and is 1
      exactly when c == n. */
  lemma Fraction(c: nat, n: nat)
    requires 0 < n && c <= n
    ensures 0.0 <= c as real / n as real <= 1.0
    ensures c as real / n as real == 1.0 <==> c == n
  {
    DivideBetween(c, n, 0, 1);
    var f := c as real / n as real;
    if f == 1.0 {
      assert f * n as real == c as real;
    }
  }
}

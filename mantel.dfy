/**
 * `mat mantel` (the current version): a Mantel test between two distance
 * matrices. Both are projected onto their sorted common names and optionally
 * normalised. The observed statistic (the root-mean-square difference of the
 * strict upper triangles) is then compared with the statistics of 100000
 * trials, each of which relabels the second matrix by a permutation. The
 * p-value is the fraction of trials at least as large as the observation.
 *
 * Square roots are monotone on non-negative values, so the model works with
 * the squared statistics. The permutations that the random shuffles produce
 * are parameters.
 */
module Mantel {
  import opened Wrappers
  import opened Names
  import opened Matrices
  import opened Cursors
  import opened Floats
  import Compare

  // ---------------------------------------------------------------------------
  // The strict lower triangle and its average

  /** The value under a lower-triangle cursor after `t` steps of its walk. */
  function LowerValue(m: Matrix, t: nat): real
    requires Valid(m) && t < Triangle(|m.names|)
  {
    Compare.LowerStep(|m.names|, t);
    Entry(m, LowerAfter(t).row, LowerAfter(t).col)
  }

  /** The sum of the first `t` values the lower-triangle walk visits. */
  function LowerSum(m: Matrix, t: nat): real
    requires Valid(m) && t <= Triangle(|m.names|)
  {
    if t == 0 then 0.0 else LowerSum(m, t - 1) + LowerValue(m, t - 1)
  }

  /** One more step of the walk adds the value under the cursor. */
  lemma LowerSumStep(m: Matrix, i: nat, j: nat, t: nat)
    requires Valid(m) && j < i < |m.names| && t == Triangle(i) + j && t < Triangle(|m.names|)
    ensures LowerSum(m, t + 1) == LowerSum(m, t) + Entry(m, i, j)
  {
    LowerWalkVisits(i, j, t);
    assert LowerSum(m, t + 1) == LowerSum(m, t) + LowerValue(m, t);
  }

  /**
   * The average of the strict lower triangle: its sum over `n (n - 1) / 2`.
   * It is 0/0 (NaN) for fewer than two names, and otherwise a real whose
   * multiple by the pair count is the sum.
   */
  function LowerMean(m: Matrix): (r: Double)
    requires Valid(m)
    ensures r.NaN? <==> |m.names| < 2
    ensures r.Num? ==> r.v * Triangle(|m.names|) as real == LowerSum(m, Triangle(|m.names|))
  {
    Compare.PairCountPositive(|m.names|);
    Quotient(LowerSum(m, Triangle(|m.names|)), Triangle(|m.names|))
  }

  /** `lower_triangle_avg`: the nested loops over `j < i`, in the same order as the walk. */
  method LowerTriangleAvg(m: Matrix) returns (r: Double)
    requires Valid(m)
    ensures r == LowerMean(m)
  {
    var size := |m.names|;
    var ret := 0.0;
    for i := 0 to size
      invariant Triangle(i) <= Triangle(size)
      invariant ret == LowerSum(m, Triangle(i))
    {
      ghost var t := Triangle(i);
      TriangleMono(i, size);
      for j := 0 to i
        invariant t == Triangle(i) + j && ret == LowerSum(m, t)
      {
        LowerSumStep(m, i, j, t);
        ret := ret + Entry(m, i, j);
        t := t + 1;
      }
    }
    r := Quotient(ret, Triangle(size));
  }

  /**
   * `lower_triangle_avg_it`: an accumulation over the lower-triangle cursor,
   * stopped at the corrected end so that an empty matrix ends at once.
   */
  method LowerTriangleAvgIt(m: Matrix) returns (r: Double)
    requires Valid(m)
    ensures r == LowerMean(m)
  {
    var size := |m.names|;
    var it := new LowerCursor.Begin(size);
    var end := LowerEndFixed(size);
    LowerWalkEndsFixed(size);
    var ret := 0.0;
    ghost var t := 0;
    while Cell(it.row, it.col) != end
      invariant t <= Triangle(size) && it.size == size
      invariant Cell(it.row, it.col) == LowerAfter(t)
      invariant ret == LowerSum(m, t)
      decreases Triangle(size) - t
    {
      Compare.LowerStep(size, t);
      ret := ret + Entry(m, it.row, it.col);
      it.Next();
      t := t + 1;
    }
    r := Quotient(ret, Triangle(size));
  }

  // ---------------------------------------------------------------------------
  // lower_triangle_stddvt: the sum of squared deviations

  /** The sum of `(value - avg)^2` over the first `t` values of the walk. */
  function DeviationSum(m: Matrix, avg: real, t: nat): real
    requires Valid(m) && t <= Triangle(|m.names|)
  {
    if t == 0 then 0.0 else DeviationSum(m, avg, t - 1) + Compare.Sq(LowerValue(m, t - 1) - avg)
  }

  /** A sum of squares is never negative. */
  lemma {:induction false} DeviationSumNonNegative(m: Matrix, avg: real, t: nat)
    requires Valid(m) && t <= Triangle(|m.names|)
    ensures DeviationSum(m, avg, t) >= 0.0
  {
    if t > 0 {
      DeviationSumNonNegative(m, avg, t - 1);
    }
  }

  /**
   * The accumulation inside `lower_triangle_stddvt`, whose square root of
   * `sum / (n (n - 1) / 2 - 1)` is the standard deviation.
   */
  method LowerTriangleDeviations(m: Matrix, avg: real) returns (sum: real)
    requires Valid(m)
    ensures sum == DeviationSum(m, avg, Triangle(|m.names|)) && sum >= 0.0
  {
    var size := |m.names|;
    var it := new LowerCursor.Begin(size);
    var end := LowerEndFixed(size);
    LowerWalkEndsFixed(size);
    sum := 0.0;
    ghost var t := 0;
    while Cell(it.row, it.col) != end
      invariant t <= Triangle(size) && it.size == size
      invariant Cell(it.row, it.col) == LowerAfter(t)
      invariant sum == DeviationSum(m, avg, t)
      decreases Triangle(size) - t
    {
      Compare.LowerStep(size, t);
      var d := Entry(m, it.row, it.col) - avg;
      assert d == LowerValue(m, t) - avg;
      sum := sum + d * d;
      assert sum == DeviationSum(m, avg, t + 1);
      it.Next();
      t := t + 1;
    }
    DeviationSumNonNegative(m, avg, t);
  }

  /**
   * `sd` is the standard deviation `lower_triangle_stddvt` returns for `m`:
   * not negative, with `sd^2 (n (n - 1) / 2 - 1)` equal to the sum of squared
   * deviations from the average.
   */
  ghost predicate IsStdDev(m: Matrix, sd: real)
    requires Valid(m) && |m.names| >= 2
  {
    sd >= 0.0 && sd * sd * (Triangle(|m.names|) - 1) as real == DeviationSum(m, LowerMean(m).v, Triangle(|m.names|))
  }

  /** The deviations up to `t` add up to 0 exactly when every value of the walk up to `t` is `avg`. */
  lemma {:induction false} DeviationSumZero(m: Matrix, avg: real, t: nat)
    requires Valid(m) && t <= Triangle(|m.names|)
    ensures DeviationSum(m, avg, t) == 0.0 <==> forall u :: 0 <= u < t ==> LowerValue(m, u) == avg
  {
    if t > 0 {
      DeviationSumZero(m, avg, t - 1);
      DeviationSumNonNegative(m, avg, t - 1);
      var d := LowerValue(m, t - 1) - avg;
      if d > 0.0 {
        Compare.SquarePositive(d);
      } else if d < 0.0 {
        Compare.SquarePositive(-d);
        assert Compare.Sq(-d) == Compare.Sq(d);
      }
    }
  }

  /**
   * With at least three names, the standard deviation is 0 exactly when the
   * strict lower triangle is constant, every cell at the average.
   */
  lemma ZeroDeviationIsConstant(m: Matrix, sd: real)
    requires Valid(m) && |m.names| >= 3 && IsStdDev(m, sd)
    ensures sd == 0.0 <==> forall i, j :: 0 <= j < i < |m.names| ==> Entry(m, i, j) == LowerMean(m).v
  {
    var n, avg := |m.names|, LowerMean(m).v;
    TriangleMono(2, n);
    ScaledSquareZero(sd, (Triangle(n) - 1) as real);
    DeviationSumZero(m, avg, Triangle(n));
    WalkIsLowerTriangle(m, avg);
  }

  /** A non-negative `sd` with `sd^2 c` equal to 0, for a positive `c`, is 0. */
  lemma ScaledSquareZero(sd: real, c: real)
    requires sd >= 0.0 && c > 0.0
    ensures sd == 0.0 <==> sd * sd * c == 0.0
  {
    if sd > 0.0 {
      Compare.SquarePositive(sd);
      var q := sd * sd;
      assert q * c > 0.0;
    }
  }

  /** The walk visits every strict-lower cell and no other, so all its values are `avg` exactly when those cells are. */
  lemma WalkIsLowerTriangle(m: Matrix, avg: real)
    requires Valid(m)
    ensures (forall u :: 0 <= u < Triangle(|m.names|) ==> LowerValue(m, u) == avg) <==>
            (forall i, j :: 0 <= j < i < |m.names| ==> Entry(m, i, j) == avg)
  {
    var n := |m.names|;
    if forall u :: 0 <= u < Triangle(n) ==> LowerValue(m, u) == avg {
      forall i, j | 0 <= j < i < n ensures Entry(m, i, j) == avg {
        TriangleMono(i, n);
        LowerWalkVisits(i, j, Triangle(i) + j);
        assert LowerValue(m, Triangle(i) + j) == avg;
      }
    }
    if forall i, j :: 0 <= j < i < n ==> Entry(m, i, j) == avg {
      forall u | 0 <= u < Triangle(n) ensures LowerValue(m, u) == avg {
        Compare.LowerStep(n, u);
      }
    }
  }

  // ---------------------------------------------------------------------------
  // normalize

  /** The value `normalize` writes for a cell holding `x`: `(x - avg) / sd`. */
  function Standardized(x: real, avg: real, sd: real): (r: real)
    requires sd != 0.0
    ensures r * sd == x - avg
  {
    (x - avg) / sd
  }

  /**
   * `normalize`: a copy of `m` with every cell, the diagonal included, mapped
   * to `(value - avg) / sd`, where `avg` is the lower-triangle average.
   */
  function Normalized(m: Matrix, sd: real): (r: Matrix)
    requires Valid(m) && |m.names| >= 2 && sd != 0.0
    ensures Valid(r) && r.names == m.names && r.coverages == m.coverages
    ensures forall i, j :: 0 <= i < |m.names| && 0 <= j < |m.names| ==>
      Entry(r, i, j) == Standardized(Entry(m, i, j), LowerMean(m).v, sd)
  {
    var avg := LowerMean(m).v;
    Matrix(m.names, seq(|m.values|, k requires 0 <= k < |m.values| => Standardized(m.values[k], avg, sd)), m.coverages)
  }

  /** The walk over the normalised matrix sees the shifted and scaled values. */
  lemma NormalizedValue(m: Matrix, sd: real, t: nat)
    requires Valid(m) && |m.names| >= 2 && sd != 0.0 && t < Triangle(|m.names|)
    ensures LowerValue(Normalized(m, sd), t) == Standardized(LowerValue(m, t), LowerMean(m).v, sd)
  {
    Compare.LowerStep(|m.names|, t);
  }

  /** The arithmetic of one step: adding a shifted, scaled value keeps the scaled sum in step. */
  lemma ShiftStep(prev: real, w: real, sd: real, sum: real, v: real, avg: real, t: real, next: real)
    requires prev * sd == sum - t * avg && w * sd == v - avg && next == t + 1.0
    ensures (prev + w) * sd == (sum + v) - next * avg
  {
    assert (prev + w) * sd == prev * sd + w * sd;
    assert (t + 1.0) * avg == t * avg + avg;
  }

  /** The sum of a sequence of reals, from the front. */
  function SeqSum(s: seq<real>): real
  {
    if |s| == 0 then 0.0 else SeqSum(s[..|s| - 1]) + s[|s| - 1]
  }

  /** When each `b[u] * sd` is `a[u] - avg`, the scaled sum of `b` is the sum of `a` less `|a|` times `avg`. */
  lemma {:induction false} ScaledSeqSum(a: seq<real>, b: seq<real>, sd: real, avg: real)
    requires |a| == |b| && forall u :: 0 <= u < |b| ==> b[u] * sd == a[u] - avg
    ensures SeqSum(b) * sd == SeqSum(a) - (|a| as real) * avg
  {
    if |a| > 0 {
      var k := |a| - 1;
      ScaledSeqSum(a[..k], b[..k], sd, avg);
      ShiftStep(SeqSum(b[..k]), b[k], sd, SeqSum(a[..k]), a[k], avg, k as real, |a| as real);
    }
  }

  /** The first `t` values of the lower-triangle walk. */
  function LowerValues(m: Matrix, t: nat): (r: seq<real>)
    requires Valid(m) && t <= Triangle(|m.names|)
    ensures |r| == t && forall u :: 0 <= u < t ==> r[u] == LowerValue(m, u)
  {
    seq(t, u requires 0 <= u < t => LowerValue(m, u))
  }

  /** `LowerSum` is the sum of the walk's values. */
  lemma {:induction false} LowerSumIsSeqSum(m: Matrix, t: nat)
    requires Valid(m) && t <= Triangle(|m.names|)
    ensures LowerSum(m, t) == SeqSum(LowerValues(m, t))
  {
    if t > 0 {
      LowerSumIsSeqSum(m, t - 1);
      assert LowerValues(m, t)[..t - 1] == LowerValues(m, t - 1);
    }
  }

  /** The normalised matrix has lower-triangle average 0. */
  lemma NormalizedMeanZero(m: Matrix, sd: real)
    requires Valid(m) && |m.names| >= 2 && sd != 0.0
    ensures LowerMean(Normalized(m, sd)) == Num(0.0)
  {
    var norm := Normalized(m, sd);
    var k := Triangle(|m.names|);
    var avg := LowerMean(m).v;
    var a, b := LowerValues(m, k), LowerValues(norm, k);
    forall u | 0 <= u < k
      ensures b[u] == Standardized(a[u], avg, sd)
    {
      NormalizedValue(m, sd, u);
    }
    Compare.PairCountPositive(|m.names|);
    assert LowerMean(m) == Quotient(SeqSum(a), k) by {
      LowerSumIsSeqSum(m, k);
    }
    StandardizedSumZero(a, b, sd, avg, k);
    assert LowerSum(norm, k) == 0.0 by {
      LowerSumIsSeqSum(norm, k);
    }
    assert LowerMean(norm) == Quotient(0.0, k);
  }

  /** Standardised values, scaled back, sum to the original sum less `|a|` times the average. */
  lemma StandardizedScaled(a: seq<real>, b: seq<real>, sd: real, avg: real)
    requires |a| == |b| && sd != 0.0
    requires forall u :: 0 <= u < |b| ==> b[u] == Standardized(a[u], avg, sd)
    ensures SeqSum(b) * sd == SeqSum(a) - (|a| as real) * avg
  {
    forall u | 0 <= u < |b|
      ensures b[u] * sd == a[u] - avg
    {
      assert b[u] == Standardized(a[u], avg, sd);
    }
    ScaledSeqSum(a, b, sd, avg);
  }

  /** Values standardised against their own average sum to zero. */
  lemma StandardizedSumZero(a: seq<real>, b: seq<real>, sd: real, avg: real, k: nat)
    requires |a| == |b| == k > 0 && sd != 0.0 && Quotient(SeqSum(a), k) == Num(avg)
    requires forall u :: 0 <= u < k ==> b[u] == Standardized(a[u], avg, sd)
    ensures SeqSum(b) == 0.0
  {
    StandardizedScaled(a, b, sd, avg);
    CenteredIsZero(SeqSum(b), sd, SeqSum(a), avg, k);
  }

  /** A scaled sum of deviations from the mean is zero. */
  lemma CenteredIsZero(s: real, sd: real, sum: real, avg: real, count: nat)
    requires sd != 0.0 && count > 0 && Quotient(sum, count) == Num(avg) && s * sd == sum - (count as real) * avg
    ensures s == 0.0
  {
    assert avg * (count as real) == sum;
    assert s * sd == 0.0;
    assert s == (s * sd) / sd;
  }

  // ---------------------------------------------------------------------------
  // Sums over the pairs i < j

  /** The sum of `f(i, j')` for `i < j' < j`. */
  function RowTotal(f: (nat, nat) -> real, i: nat, j: nat): real
  {
    if j <= i + 1 then 0.0 else RowTotal(f, i, j - 1) + f(i, j - 1)
  }

  /** The sum of `f(i', j')` for `i' < i` and `i' < j' < k`. */
  function PairTotal(f: (nat, nat) -> real, k: nat, i: nat): real
  {
    if i == 0 then 0.0 else PairTotal(f, k, i - 1) + RowTotal(f, i - 1, k)
  }

  /**
   * The sum of `f(i, j)` over all pairs `i < j < k`, as the loops
   * `for (i = 0; i < k - 1; i++) for (j = i + 1; j < k; j++)` compute it. The
   * loops need `k >= 1`: `k - 1` on an unsigned zero wraps around.
   */
  function UpperTotal(f: (nat, nat) -> real, k: nat): real
    requires k >= 1
  {
    PairTotal(f, k, k - 1)
  }

  /** Sums of two terms that agree on every pair agree. */
  lemma {:induction false} RowTotalAgree(f: (nat, nat) -> real, g: (nat, nat) -> real, k: nat, i: nat, j: nat)
    requires j <= k && forall a: nat, b: nat :: a < b < k ==> f(a, b) == g(a, b)
    ensures RowTotal(f, i, j) == RowTotal(g, i, j)
    decreases j
  {
    if j > i + 1 {
      RowTotalAgree(f, g, k, i, j - 1);
    }
  }

  lemma {:induction false} PairTotalAgree(f: (nat, nat) -> real, g: (nat, nat) -> real, k: nat, i: nat)
    requires forall a: nat, b: nat :: a < b < k ==> f(a, b) == g(a, b)
    ensures PairTotal(f, k, i) == PairTotal(g, k, i)
  {
    if i > 0 {
      PairTotalAgree(f, g, k, i - 1);
      RowTotalAgree(f, g, k, i - 1, k);
    }
  }

  /** A sum of non-negative terms is non-negative. */
  lemma {:induction false} RowTotalNonNegative(f: (nat, nat) -> real, k: nat, i: nat, j: nat)
    requires j <= k && forall a: nat, b: nat :: a < b < k ==> f(a, b) >= 0.0
    ensures RowTotal(f, i, j) >= 0.0
    decreases j
  {
    if j > i + 1 {
      RowTotalNonNegative(f, k, i, j - 1);
    }
  }

  lemma {:induction false} PairTotalNonNegative(f: (nat, nat) -> real, k: nat, i: nat)
    requires forall a: nat, b: nat :: a < b < k ==> f(a, b) >= 0.0
    ensures PairTotal(f, k, i) >= 0.0
  {
    if i > 0 {
      PairTotalNonNegative(f, k, i - 1);
      RowTotalNonNegative(f, k, i - 1, k);
    }
  }

  /** A sum of zero terms is zero. */
  lemma {:induction false} RowTotalZero(f: (nat, nat) -> real, k: nat, i: nat, j: nat)
    requires j <= k && forall a: nat, b: nat :: a < b < k ==> f(a, b) == 0.0
    ensures RowTotal(f, i, j) == 0.0
    decreases j
  {
    if j > i + 1 {
      RowTotalZero(f, k, i, j - 1);
    }
  }

  lemma {:induction false} PairTotalZero(f: (nat, nat) -> real, k: nat, i: nat)
    requires forall a: nat, b: nat :: a < b < k ==> f(a, b) == 0.0
    ensures PairTotal(f, k, i) == 0.0
  {
    if i > 0 {
      PairTotalZero(f, k, i - 1);
      RowTotalZero(f, k, i - 1, k);
    }
  }

  /** The nested `i < j` accumulator loops of `Z`, `rmsd` and each trial, over a term `f`. */
  method SumPairs(f: (nat, nat) -> real, k: nat) returns (dist: real)
    requires k >= 1
    ensures dist == UpperTotal(f, k)
  {
    dist := 0.0;
    for i := 0 to k - 1
      invariant dist == PairTotal(f, k, i)
    {
      for j := i + 1 to k
        invariant dist == PairTotal(f, k, i) + RowTotal(f, i, j)
      {
        dist := dist + f(i, j);
      }
    }
  }

  // ---------------------------------------------------------------------------
  // Z

  /** The term of `Z` for the pair of positions `(i, j)` of `names`: the product of the two entries by name. */
  function ProductTerm(self: Matrix, other: Matrix, names: seq<string>): (nat, nat) -> real
    requires Valid(self) && Valid(other)
    requires forall x :: x in names ==> x in self.names && x in other.names
  {
    (i: nat, j: nat) =>
      if i < |names| && j < |names| then Lookup(self, names[i], names[j]) * Lookup(other, names[i], names[j])
      else 0.0
  }

  /** `Z`: the sum of `self(a, b) * other(a, b)` over the pairs of sorted common names. */
  function ZValue(self: Matrix, other: Matrix): real
    requires Valid(self) && Valid(other) && |CommonNames(self.names, other.names)| >= 1
  {
    var names := CommonNames(self.names, other.names);
    UpperTotal(ProductTerm(self, other, names), |names|)
  }

  /** `Z` as the program computes it. */
  method Z(self: Matrix, other: Matrix) returns (dist: real)
    requires Valid(self) && Valid(other) && |CommonNames(self.names, other.names)| >= 1
    ensures dist == ZValue(self, other)
  {
    var names := CommonNames(self.names, other.names);
    dist := SumPairs(ProductTerm(self, other, names), |names|);
  }

  /** `Z` does not depend on the order of its arguments. */
  lemma ZSymmetric(a: Matrix, b: Matrix)
    requires Valid(a) && Valid(b) && |CommonNames(a.names, b.names)| >= 1
    ensures |CommonNames(b.names, a.names)| >= 1
    ensures ZValue(a, b) == ZValue(b, a)
  {
    CommonNamesSymmetric(a.names, b.names);
    var names := CommonNames(a.names, b.names);
    ProductTotalSymmetric(a, b, names);
  }

  /** The sum of products over the pairs of a list of shared names does not depend on the order of the matrices. */
  lemma ProductTotalSymmetric(a: Matrix, b: Matrix, names: seq<string>)
    requires Valid(a) && Valid(b) && |names| >= 1
    requires forall x :: x in names ==> x in a.names && x in b.names
    ensures UpperTotal(ProductTerm(a, b, names), |names|) == UpperTotal(ProductTerm(b, a, names), |names|)
  {
    var f, g := ProductTerm(a, b, names), ProductTerm(b, a, names);
    forall i: nat, j: nat | i < j < |names| ensures f(i, j) == g(i, j) {
      ProductTermSwap(a, b, names, i, j);
    }
    PairTotalAgree(f, g, |names|, |names| - 1);
  }

  /** The product term does not depend on which matrix comes first. */
  lemma ProductTermSwap(a: Matrix, b: Matrix, names: seq<string>, i: nat, j: nat)
    requires Valid(a) && Valid(b)
    requires forall x :: x in names ==> x in a.names && x in b.names
    ensures ProductTerm(a, b, names)(i, j) == ProductTerm(b, a, names)(i, j)
  {
    if i < |names| && j < |names| {
      var x, y := Lookup(a, names[i], names[j]), Lookup(b, names[i], names[j]);
      assert x * y == y * x;
    }
  }

  // ---------------------------------------------------------------------------
  // rmsd

  /** The term of `rmsd` for the pair of positions `(i, j)` of `self`'s names. */
  function SquaredDifferenceTerm(self: Matrix, other: Matrix): (nat, nat) -> real
    requires Valid(self) && Valid(other)
    requires forall x :: x in self.names ==> x in other.names
  {
    var names := self.names;
    (i: nat, j: nat) =>
      if i < |names| && j < |names| then Compare.Sq(Lookup(self, names[i], names[j]) - Lookup(other, names[i], names[j]))
      else 0.0
  }

  /**
   * The square of `rmsd(self, other)`: the mean of `(self(a, b) - other(a, b))^2`
   * over the pairs of `self`'s names; 0/0 for a single name.
   */
  function MeanSquare(self: Matrix, other: Matrix): (r: Double)
    requires Valid(self) && Valid(other) && |self.names| >= 1
    requires forall x :: x in self.names ==> x in other.names
    ensures r.NaN? <==> |self.names| == 1
    ensures r.Num? ==> r.v >= 0.0
  {
    var n := |self.names|;
    var total := UpperTotal(SquaredDifferenceTerm(self, other), n);
    PairTotalNonNegative(SquaredDifferenceTerm(self, other), n, n - 1);
    Compare.PairCountPositive(n);
    QuotientNonNegative(total, Triangle(n));
    Quotient(total, Triangle(n))
  }

  /** `rmsd` as the program computes it, before the square root. */
  method Rmsd(self: Matrix, other: Matrix) returns (r: Double)
    requires Valid(self) && Valid(other) && |self.names| >= 1
    requires forall x :: x in self.names ==> x in other.names
    ensures r == MeanSquare(self, other)
  {
    var n := |self.names|;
    var dist := SumPairs(SquaredDifferenceTerm(self, other), n);
    r := Quotient(dist, Triangle(n));
  }

  /** Matrices that agree on every pair of `self`'s names have rmsd 0. */
  lemma RmsdZero(self: Matrix, other: Matrix)
    requires Valid(self) && Valid(other) && |self.names| >= 2
    requires forall x :: x in self.names ==> x in other.names
    requires forall a, b :: a in self.names && b in self.names ==> Lookup(self, a, b) == Lookup(other, a, b)
    ensures MeanSquare(self, other) == Num(0.0)
  {
    var n := |self.names|;
    var f := SquaredDifferenceTerm(self, other);
    assert UpperTotal(f, n) == 0.0 by {
      forall a: nat, b: nat | a < b < n ensures f(a, b) == 0.0 {
        assert Lookup(self, self.names[a], self.names[b]) == Lookup(other, self.names[a], self.names[b]);
      }
      PairTotalZero(f, n, n - 1);
    }
    Compare.PairCountPositive(n);
    assert MeanSquare(self, other) == Quotient(0.0, Triangle(n));
  }

  // ---------------------------------------------------------------------------
  // The trials

  /** `p` lists a permutation of `0 .. n-1`, as `std::shuffle` leaves the index vector. */
  predicate IsPermutation(p: seq<nat>, n: nat)
  {
    |p| == n && (forall i :: 0 <= i < n ==> p[i] < n) && (forall i, j :: 0 <= i < j < n ==> p[i] != p[j])
  }

  /** The index vector holds every index at its own position. */
  predicate InOrder(p: seq<nat>)
  {
    forall i :: 0 <= i < |p| ==> p[i] == i
  }

  /** The index vector `std::iota` fills. */
  function Identity(n: nat): (p: seq<nat>)
    ensures IsPermutation(p, n) && forall i :: 0 <= i < n ==> p[i] == i
  {
    seq(n, i => i)
  }

  /** The term of a trial: `(s(i, j) - o(perm[i], perm[j]))^2` by position. */
  function TrialTerm(s: Matrix, o: Matrix, perm: seq<nat>): (nat, nat) -> real
    requires Valid(s) && Valid(o) && |o.names| == |s.names| && IsPermutation(perm, |s.names|)
  {
    var n := |s.names|;
    (i: nat, j: nat) =>
      if i < n && j < n then Compare.Sq(Entry(s, i, j) - Entry(o, perm[i], perm[j])) else 0.0
  }

  /**
   * A trial statistic before the square root: the mean squared difference
   * under `perm`, 0/0 for a single name.
   */
  function TrialValue(s: Matrix, o: Matrix, perm: seq<nat>): (r: Double)
    requires Valid(s) && Valid(o) && |o.names| == |s.names| >= 1 && IsPermutation(perm, |s.names|)
    ensures r.NaN? <==> |s.names| == 1
    ensures r.Num? ==> r.v >= 0.0
  {
    var n := |s.names|;
    var total := UpperTotal(TrialTerm(s, o, perm), n);
    TrialTotalNonNegative(s, o, perm);
    Compare.PairCountPositive(n);
    QuotientNonNegative(total, Triangle(n));
    Quotient(total, Triangle(n))
  }

  /** Every term of a trial is a square, so their total is not negative. */
  lemma TrialTotalNonNegative(s: Matrix, o: Matrix, perm: seq<nat>)
    requires Valid(s) && Valid(o) && |o.names| == |s.names| >= 1 && IsPermutation(perm, |s.names|)
    ensures UpperTotal(TrialTerm(s, o, perm), |s.names|) >= 0.0
  {
    var f := TrialTerm(s, o, perm);
    forall a: nat, b: nat | a < b < |s.names|
      ensures f(a, b) >= 0.0
    {
    }
    PairTotalNonNegative(f, |s.names|, |s.names| - 1);
  }

  /** One trial of the loop: the accumulation, then the division by the pair count. */
  method Trial(s: Matrix, o: Matrix, perm: seq<nat>) returns (value: Double)
    requires Valid(s) && Valid(o) && |o.names| == |s.names| >= 1 && IsPermutation(perm, |s.names|)
    ensures value == TrialValue(s, o, perm)
  {
    var dist := SumPairs(TrialTerm(s, o, perm), |s.names|);
    value := Quotient(dist, Triangle(|s.names|));
  }

  /** With distinct names, the identity permutation compares each pair with itself. */
  lemma IdentityTermAgrees(s: Matrix, o: Matrix, a: nat, b: nat)
    requires Valid(s) && Valid(o) && s.names == o.names && Unique(s.names) && a < |s.names| && b < |s.names|
    ensures TrialTerm(s, o, Identity(|s.names|))(a, b) == SquaredDifferenceTerm(s, o)(a, b)
  {
    IndexMapLast(s.names);
    IndexMapUnique(s.names, a);
    IndexMapUnique(s.names, b);
    var x, y := s.names[a], s.names[b];
    assert Lookup(s, x, y) - Lookup(o, x, y) == Entry(s, a, b) - Entry(o, a, b);
  }

  /** With distinct names, the identity permutation reproduces the observed statistic. */
  lemma IdentityTrial(s: Matrix, o: Matrix)
    requires Valid(s) && Valid(o) && s.names == o.names && |s.names| >= 1 && Unique(s.names)
    ensures TrialValue(s, o, Identity(|s.names|)) == MeanSquare(s, o)
  {
    var n := |s.names|;
    var f := TrialTerm(s, o, Identity(n));
    var g := SquaredDifferenceTerm(s, o);
    assert UpperTotal(f, n) == UpperTotal(g, n) by {
      forall a: nat, b: nat | a < b < n ensures f(a, b) == g(a, b) {
        IdentityTermAgrees(s, o, a, b);
      }
      PairTotalAgree(f, g, n, n - 1);
    }
  }

  // ---------------------------------------------------------------------------
  // The p-value

  /** The number of trials. */
  const Trials: nat := 100000

  predicate Ascending(a: seq<real>)
  {
    forall i, j :: 0 <= i < j < |a| ==> a[i] <= a[j]
  }

  /** The number of values in `a` at least `x`. */
  function CountAtLeast(a: seq<real>, x: real): (c: nat)
    ensures c <= |a|
  {
    if |a| == 0 then 0 else (if a[0] >= x then 1 else 0) + CountAtLeast(a[1..], x)
  }

  /** A value no larger than the head of an ascending sequence can go in front. */
  lemma AscendingCons(h: real, r: seq<real>)
    requires Ascending(r) && (|r| > 0 ==> h <= r[0])
    ensures Ascending([h] + r)
  {
  }

  /** One step of insertion into an ascending sequence. */
  function InsertReal(x: real, a: seq<real>): (r: seq<real>)
    requires Ascending(a)
    ensures Ascending(r) && |r| == |a| + 1 && multiset(r) == multiset(a) + multiset{x}
    ensures r[0] == if |a| > 0 && a[0] < x then a[0] else x
  {
    if |a| == 0 then [x]
    else if x <= a[0] then AscendingCons(x, a); [x] + a
    else
      var rest := InsertReal(x, a[1..]);
      AscendingCons(a[0], rest);
      assert a == [a[0]] + a[1..];
      [a[0]] + rest
  }

  /** `std::sort` on the trial values: an ascending permutation. */
  function SortReals(a: seq<real>): (r: seq<real>)
    ensures Ascending(r) && |r| == |a| && multiset(r) == multiset(a)
  {
    if |a| == 0 then []
    else
      assert a == [a[0]] + a[1..];
      InsertReal(a[0], SortReals(a[1..]))
  }

  /** Counting over a sequence with a head put in front. */
  lemma CountCons(h: real, r: seq<real>, x: real)
    ensures CountAtLeast([h] + r, x) == (if h >= x then 1 else 0) + CountAtLeast(r, x)
  {
    assert ([h] + r)[1..] == r;
  }

  lemma {:induction false} InsertCount(y: real, a: seq<real>, x: real)
    requires Ascending(a)
    ensures CountAtLeast(InsertReal(y, a), x) == CountAtLeast(a, x) + (if y >= x then 1 else 0)
  {
    if |a| > 0 && y > a[0] {
      var rest := InsertReal(y, a[1..]);
      assert InsertReal(y, a) == [a[0]] + rest;
      InsertCount(y, a[1..], x);
      CountCons(a[0], rest, x);
      assert a == [a[0]] + a[1..];
      CountCons(a[0], a[1..], x);
    } else {
      InsertCountFront(y, a, x);
    }
  }

  /** The inserted value goes in front: it adds one to the count when it is at least `x`. */
  lemma InsertCountFront(y: real, a: seq<real>, x: real)
    requires Ascending(a) && (|a| == 0 || y <= a[0])
    ensures CountAtLeast(InsertReal(y, a), x) == CountAtLeast(a, x) + (if y >= x then 1 else 0)
  {
    assert InsertReal(y, a) == [y] + a;
    CountCons(y, a, x);
  }

  /** Sorting keeps the number of values at least `x`. */
  lemma {:induction false} SortKeepsCount(a: seq<real>, x: real)
    ensures CountAtLeast(SortReals(a), x) == CountAtLeast(a, x)
  {
    if |a| > 0 {
      SortKeepsCount(a[1..], x);
      InsertCount(a[0], SortReals(a[1..]), x);
    }
  }

  /** `std::lower_bound`: the first position whose value is not below `x`. */
  method LowerBound(a: seq<real>, x: real) returns (idx: nat)
    requires Ascending(a)
    ensures idx <= |a|
    ensures forall k :: 0 <= k < idx ==> a[k] < x
    ensures forall k :: idx <= k < |a| ==> x <= a[k]
  {
    var lo, hi := 0, |a|;
    while lo < hi
      invariant 0 <= lo <= hi <= |a|
      invariant forall k :: 0 <= k < lo ==> a[k] < x
      invariant forall k :: hi <= k < |a| ==> x <= a[k]
    {
      var mid := (lo + hi) / 2;
      if a[mid] < x {
        lo := mid + 1;
      } else {
        hi := mid;
      }
    }
    idx := lo;
  }

  /** Past the lower bound lie exactly the values at least `x`. */
  lemma {:induction false} TailCount(a: seq<real>, x: real, idx: nat)
    requires idx <= |a|
    requires forall k :: 0 <= k < idx ==> a[k] < x
    requires forall k :: idx <= k < |a| ==> x <= a[k]
    ensures CountAtLeast(a, x) == |a| - idx
  {
    if |a| > 0 {
      if idx > 0 {
        TailCount(a[1..], x, idx - 1);
      } else {
        TailCount(a[1..], x, 0);
      }
    }
  }

  /**
   * The p-value: the share of trials at least `orig`. It lies in `[0, 1]`,
   * and is 0/0 only without trials.
   */
  function PValue(trials: seq<real>, orig: real): (p: Double)
    ensures p.NaN? <==> |trials| == 0
    ensures p.Num? ==> 0.0 <= p.v <= 1.0 && p.v * (|trials| as real) == CountAtLeast(trials, orig) as real
  {
    QuotientIsShare(CountAtLeast(trials, orig) as real, |trials|);
    Quotient(CountAtLeast(trials, orig) as real, |trials|)
  }

  /** `(end - lower_bound(sorted, orig)) / size` after `std::sort`. */
  method TailFraction(montecarlo: seq<real>, orig: real) returns (p: Double)
    ensures p == PValue(montecarlo, orig)
  {
    var sorted := SortReals(montecarlo);
    var it := LowerBound(sorted, orig);
    TailCount(sorted, orig, it);
    SortKeepsCount(montecarlo, orig);
    p := Quotient((|sorted| - it) as real, |sorted|);
  }

  /** When every trial reaches the observation, all of them count. */
  lemma {:induction false} AllAtLeast(trials: seq<real>, orig: real)
    requires forall k :: 0 <= k < |trials| ==> trials[k] >= orig
    ensures CountAtLeast(trials, orig) == |trials|
  {
    if |trials| > 0 {
      AllAtLeast(trials[1..], orig);
    }
  }

  // ---------------------------------------------------------------------------
  // The p-value over statistics that may be NaN

  /** Statistics as doubles: a 0/0 is NaN. */
  function AsFloats(a: seq<Double>): (r: seq<Float>)
    ensures |r| == |a| && forall k :: 0 <= k < |a| ==> r[k] == FromDouble(a[k])
  {
    seq(|a|, k requires 0 <= k < |a| => FromDouble(a[k]))
  }

  /** The values of statistics that are all numbers. */
  function Values(a: seq<Double>): (r: seq<real>)
    requires forall k :: 0 <= k < |a| ==> a[k].Num?
    ensures |r| == |a| && forall k :: 0 <= k < |a| ==> r[k] == a[k].v
  {
    seq(|a|, k requires 0 <= k < |a| => a[k].v)
  }

  /** Over numbers, not being below `x` is being at least `x`. */
  lemma {:induction false} CountNotBelowNumbers(a: seq<Double>, x: real)
    requires forall k :: 0 <= k < |a| ==> a[k].Num?
    ensures CountNotBelow(AsFloats(a), Finite(x)) == CountAtLeast(Values(a), x)
  {
    if |a| > 0 {
      CountNotBelowNumbers(a[1..], x);
      assert Values(a)[1..] == Values(a[1..]);
      assert AsFloats(a)[1..] == AsFloats(a[1..]);
    }
  }

  /**
   * The p-value of `mantel`: the share of trials that `lower_bound` leaves
   * at or past the observation. With a NaN observation the bound is the
   * first trial, since nothing compares below NaN.
   */
  function TailShare(trials: seq<Double>, orig: Double): (p: Double)
    ensures p.NaN? <==> |trials| == 0
    ensures p.Num? ==> 0.0 <= p.v <= 1.0 && p.v * (|trials| as real) == CountNotBelow(AsFloats(trials), FromDouble(orig)) as real
  {
    Share(AsFloats(trials), FromDouble(orig))
  }

  /** Over numbers the share is the p-value of the real-valued trials. */
  lemma TailShareOfNumbers(trials: seq<Double>, x: real)
    requires forall k :: 0 <= k < |trials| ==> trials[k].Num?
    ensures TailShare(trials, Num(x)) == PValue(Values(trials), x)
  {
    CountNotBelowNumbers(trials, x);
  }

  /** A NaN observation makes every trial count: the share is 1. */
  lemma TailShareOfNaN(trials: seq<Double>)
    requires |trials| >= 1
    ensures TailShare(trials, NaN) == Num(1.0)
  {
    forall k | 0 <= k < |trials| ensures NotBelow(AsFloats(trials)[k], Undefined) {
      NeverBelow(AsFloats(trials)[k], Undefined);
    }
    ShareOfOne(AsFloats(trials), Undefined);
  }

  /**
   * `std::sort`, `std::lower_bound` and the division over statistics that
   * are all numbers, or against a NaN observation, where the bound is the
   * first trial whatever the order.
   */
  method TailShareOf(montecarlo: seq<Double>, orig: Double) returns (p: Double)
    requires orig.Num? ==> forall k :: 0 <= k < |montecarlo| ==> montecarlo[k].Num?
    ensures p == TailShare(montecarlo, orig)
  {
    if orig.NaN? {
      forall k | 0 <= k < |montecarlo| ensures NotBelow(AsFloats(montecarlo)[k], Undefined) {
        NeverBelow(AsFloats(montecarlo)[k], Undefined);
      }
      p := FirstBound(AsFloats(montecarlo), Undefined);
    } else {
      p := TailFraction(Values(montecarlo), orig.v);
      TailShareOfNumbers(montecarlo, orig.v);
    }
  }

  // ---------------------------------------------------------------------------
  // A zero standard deviation

  /**
   * Normalising with a standard deviation of 0, which a constant lower
   * triangle gives: `normalize` then divides every cell of that matrix by 0.
   */
  predicate Flat(donormalize: bool, sdSelf: real, sdOther: real)
  {
    donormalize && (sdSelf == 0.0 || sdOther == 0.0)
  }

  /**
   * The cell `(i, j)` that `normalize` writes, as a double: `(x - avg) / sd`,
   * an infinity or NaN when `sd` is 0, and otherwise the cell of `Normalized`.
   */
  function NormalizedCell(m: Matrix, sd: real, i: nat, j: nat): (r: Float)
    requires Valid(m) && |m.names| >= 2 && i < |m.names| && j < |m.names|
    ensures r.Finite? <==> sd != 0.0
    ensures sd == 0.0 ==> r == DivZero(Entry(m, i, j) - LowerMean(m).v)
    ensures sd != 0.0 ==> r == Finite(Entry(Normalized(m, sd), i, j))
  {
    var d := Entry(m, i, j) - LowerMean(m).v;
    if sd == 0.0 then DivZero(d) else Finite(d / sd)
  }

  /** `entry(a, b)` of the normalised matrix: the cell at the positions the name map gives. */
  function NamedCell(m: Matrix, sd: real, a: string, b: string): Float
    requires Valid(m) && |m.names| >= 2 && a in m.names && b in m.names
  {
    NormalizedCell(m, sd, LastIndex(m.names, a), LastIndex(m.names, b))
  }

  /** The term of `rmsd` over the normalised cells as doubles: `(s(a, b) - o(a, b))^2`. */
  function FlatDifferenceTerm(s: Matrix, o: Matrix, sdSelf: real, sdOther: real): (nat, nat) -> Float
    requires Valid(s) && Valid(o) && |s.names| >= 2 && s.names == o.names
  {
    var names := s.names;
    (i: nat, j: nat) =>
      if i < |names| && j < |names| then
        var t := Sub(NamedCell(s, sdSelf, names[i], names[j]), NamedCell(o, sdOther, names[i], names[j]));
        Mul(t, t)
      else Finite(0.0)
  }

  /** `rmsd` before the square root over the normalised cells as doubles. */
  function FlatMeanSquare(s: Matrix, o: Matrix, sdSelf: real, sdOther: real): Float
    requires Valid(s) && Valid(o) && |s.names| >= 2 && s.names == o.names
  {
    Compare.PairCountPositive(|s.names|);
    Over(UpperSum(FlatDifferenceTerm(s, o, sdSelf, sdOther), |s.names|), Triangle(|s.names|))
  }

  /** `rmsd` as the program computes it, over the normalised cells as doubles. */
  method FlatRmsd(s: Matrix, o: Matrix, sdSelf: real, sdOther: real) returns (r: Float)
    requires Valid(s) && Valid(o) && |s.names| >= 2 && s.names == o.names
    ensures r == FlatMeanSquare(s, o, sdSelf, sdOther)
  {
    var dist := AddPairs(FlatDifferenceTerm(s, o, sdSelf, sdOther), |s.names|);
    Compare.PairCountPositive(|s.names|);
    r := Over(dist, Triangle(|s.names|));
  }

  /** The term of a trial over the normalised cells as doubles: `(s(i, j) - o(perm[i], perm[j]))^2`. */
  function FlatTrialTerm(s: Matrix, o: Matrix, sdSelf: real, sdOther: real, perm: seq<nat>): (nat, nat) -> Float
    requires Valid(s) && Valid(o) && |o.names| == |s.names| >= 2 && IsPermutation(perm, |s.names|)
  {
    var n := |s.names|;
    (i: nat, j: nat) =>
      if i < n && j < n then
        var t := Sub(NormalizedCell(s, sdSelf, i, j), NormalizedCell(o, sdOther, perm[i], perm[j]));
        Mul(t, t)
      else Finite(0.0)
  }

  /** A trial statistic before the square root, over the normalised cells as doubles. */
  function FlatTrialValue(s: Matrix, o: Matrix, sdSelf: real, sdOther: real, perm: seq<nat>): Float
    requires Valid(s) && Valid(o) && |o.names| == |s.names| >= 2 && IsPermutation(perm, |s.names|)
  {
    Compare.PairCountPositive(|s.names|);
    Over(UpperSum(FlatTrialTerm(s, o, sdSelf, sdOther, perm), |s.names|), Triangle(|s.names|))
  }

  /**
   * With a zero deviation on either side every compared cell is an infinity
   * or NaN, so every squared difference, and the trial, is plus infinity or NaN.
   */
  lemma FlatTrialHuge(s: Matrix, o: Matrix, sdSelf: real, sdOther: real, perm: seq<nat>)
    requires Valid(s) && Valid(o) && |o.names| == |s.names| >= 2 && IsPermutation(perm, |s.names|)
    requires sdSelf == 0.0 || sdOther == 0.0
    ensures Huge(FlatTrialValue(s, o, sdSelf, sdOther, perm))
  {
    var n := |s.names|;
    var f := FlatTrialTerm(s, o, sdSelf, sdOther, perm);
    forall a: nat, b: nat | a < b < n ensures Huge(f(a, b)) {
      SquareOfNonFinite(Sub(NormalizedCell(s, sdSelf, a, b), NormalizedCell(o, sdOther, perm[a], perm[b])));
    }
    UpperSumHuge(f, n);
  }

  /** The trial values over the normalised cells as doubles, in order of the runs. */
  function FlatTrialValues(s: Matrix, o: Matrix, sdSelf: real, sdOther: real, perms: seq<seq<nat>>): (r: seq<Float>)
    requires Valid(s) && Valid(o) && |o.names| == |s.names| >= 2
    requires forall k :: 0 <= k < |perms| ==> IsPermutation(perms[k], |s.names|)
    ensures |r| == |perms| && forall k :: 0 <= k < |perms| ==> r[k] == FlatTrialValue(s, o, sdSelf, sdOther, perms[k])
  {
    seq(|perms|, k requires 0 <= k < |perms| => FlatTrialValue(s, o, sdSelf, sdOther, perms[k]))
  }

  /** The trial loop over the normalised cells as doubles. */
  method FlatRunTrials(s: Matrix, o: Matrix, sdSelf: real, sdOther: real, perms: seq<seq<nat>>) returns (montecarlo: seq<Float>)
    requires Valid(s) && Valid(o) && |o.names| == |s.names| >= 2
    requires forall k :: 0 <= k < |perms| ==> IsPermutation(perms[k], |s.names|)
    ensures montecarlo == FlatTrialValues(s, o, sdSelf, sdOther, perms)
  {
    montecarlo := [];
    for runs := 0 to |perms|
      invariant |montecarlo| == runs
      invariant forall k :: 0 <= k < runs ==> montecarlo[k] == FlatTrialValue(s, o, sdSelf, sdOther, perms[k])
    {
      var dist := AddPairs(FlatTrialTerm(s, o, sdSelf, sdOther, perms[runs]), |s.names|);
      Compare.PairCountPositive(|s.names|);
      montecarlo := montecarlo + [Over(dist, Triangle(|s.names|))];
    }
  }

  /** No trial over a zero deviation is below any observation. */
  lemma FlatTrialsNotBelow(s: Matrix, o: Matrix, sdSelf: real, sdOther: real, perms: seq<seq<nat>>, orig: Float)
    requires Valid(s) && Valid(o) && |o.names| == |s.names| >= 2 && (sdSelf == 0.0 || sdOther == 0.0)
    requires forall k :: 0 <= k < |perms| ==> IsPermutation(perms[k], |s.names|)
    ensures forall k :: 0 <= k < |perms| ==> NotBelow(FlatTrialValues(s, o, sdSelf, sdOther, perms)[k], orig)
  {
    forall k | 0 <= k < |perms| ensures NotBelow(FlatTrialValues(s, o, sdSelf, sdOther, perms)[k], orig) {
      FlatTrialHuge(s, o, sdSelf, sdOther, perms[k]);
      NeverBelow(FlatTrialValue(s, o, sdSelf, sdOther, perms[k]), orig);
    }
  }

  // ---------------------------------------------------------------------------
  // mantel

  /**
   * What the caller of `mantel` provides: at least one common name and, when
   * normalising, at least three, with the standard deviations of both projections.
   */
  ghost predicate Ready(self: Matrix, other: Matrix, donormalize: bool, sdSelf: real, sdOther: real)
    requires Valid(self) && Valid(other)
  {
    var p := Compare.Projected(self, other);
    |p.0.names| >= 1 && (donormalize ==> |p.0.names| >= 3 && IsStdDev(p.0, sdSelf) && IsStdDev(p.1, sdOther))
  }

  /**
   * The two matrices the test compares: the projections, normalised when
   * asked. With a zero deviation they stay as projected, and the statistics
   * read their cells through `NormalizedCell`.
   */
  function Prepared(self: Matrix, other: Matrix, donormalize: bool, sdSelf: real, sdOther: real): (r: (Matrix, Matrix))
    requires Valid(self) && Valid(other) && Ready(self, other, donormalize, sdSelf, sdOther)
    ensures Valid(r.0) && Valid(r.1) && r.0.names == r.1.names == CommonNames(self.names, other.names)
    ensures !donormalize || Flat(donormalize, sdSelf, sdOther) ==> r == Compare.Projected(self, other)
  {
    var p := Compare.Projected(self, other);
    if donormalize && !Flat(donormalize, sdSelf, sdOther) then (Normalized(p.0, sdSelf), Normalized(p.1, sdOther)) else p
  }

  /** The trial values in order of the runs. */
  function TrialValues(s: Matrix, o: Matrix, perms: seq<seq<nat>>): (r: seq<Double>)
    requires Valid(s) && Valid(o) && |o.names| == |s.names| >= 1
    requires forall k :: 0 <= k < |perms| ==> IsPermutation(perms[k], |s.names|)
    ensures |r| == |perms| && forall k :: 0 <= k < |perms| ==> r[k] == TrialValue(s, o, perms[k])
  {
    seq(|perms|, k requires 0 <= k < |perms| => TrialValue(s, o, perms[k]))
  }

  /** The p-value `mantel` returns for the index vectors `perms` the shuffles leave. */
  function MantelP(self: Matrix, other: Matrix, donormalize: bool, sdSelf: real, sdOther: real, perms: seq<seq<nat>>): Double
    requires Valid(self) && Valid(other) && Ready(self, other, donormalize, sdSelf, sdOther)
    requires forall k :: 0 <= k < |perms| ==> IsPermutation(perms[k], |CommonNames(self.names, other.names)|)
  {
    var p := Prepared(self, other, donormalize, sdSelf, sdOther);
    if Flat(donormalize, sdSelf, sdOther) then
      Share(FlatTrialValues(p.0, p.1, sdSelf, sdOther, perms), FlatMeanSquare(p.0, p.1, sdSelf, sdOther))
    else
      TailShare(TrialValues(p.0, p.1, perms), MeanSquare(p.0, p.1))
  }

  /** The first half of `mantel`: `sample2` onto the common names, then `normalize` when asked. */
  method Prepare(self: Matrix, other: Matrix, donormalize: bool, sdSelf: real, sdOther: real) returns (s: Matrix, o: Matrix)
    requires Valid(self) && Valid(other) && Ready(self, other, donormalize, sdSelf, sdOther)
    ensures (s, o) == Prepared(self, other, donormalize, sdSelf, sdOther)
  {
    s, o := Compare.Sampled(self, other);
    if donormalize && !Flat(donormalize, sdSelf, sdOther) {
      s := Normalized(s, sdSelf);
      o := Normalized(o, sdOther);
    }
  }

  /** The trial loop: one statistic per index vector, pushed onto `montecarlo` in order. */
  method RunTrials(s: Matrix, o: Matrix, perms: seq<seq<nat>>) returns (montecarlo: seq<Double>)
    requires Valid(s) && Valid(o) && |o.names| == |s.names| >= 1
    requires forall k :: 0 <= k < |perms| ==> IsPermutation(perms[k], |s.names|)
    ensures montecarlo == TrialValues(s, o, perms)
  {
    montecarlo := [];
    for runs := 0 to |perms|
      invariant |montecarlo| == runs
      invariant forall k :: 0 <= k < runs ==> montecarlo[k] == TrialValue(s, o, perms[k])
    {
      var value := Trial(s, o, perms[runs]);
      montecarlo := montecarlo + [value];
    }
  }

  /**
   * `mantel`: project, optionally normalise, compute the observed statistic,
   * run the trials with the given index vectors, and return the share of
   * trials at least the observation.
   */
  method MantelTest(self: Matrix, other: Matrix, donormalize: bool, sdSelf: real, sdOther: real, perms: seq<seq<nat>>)
    returns (p: Double)
    requires Valid(self) && Valid(other) && Ready(self, other, donormalize, sdSelf, sdOther)
    requires |perms| == Trials
    requires forall k :: 0 <= k < |perms| ==> IsPermutation(perms[k], |CommonNames(self.names, other.names)|)
    ensures p == MantelP(self, other, donormalize, sdSelf, sdOther, perms)
    ensures p.Num? && 0.0 <= p.v <= 1.0
  {
    var s, o := Prepare(self, other, donormalize, sdSelf, sdOther);
    if Flat(donormalize, sdSelf, sdOther) {
      var orig := FlatRmsd(s, o, sdSelf, sdOther);
      var montecarlo := FlatRunTrials(s, o, sdSelf, sdOther, perms);
      FlatTrialsNotBelow(s, o, sdSelf, sdOther, perms, orig);
      p := FirstBound(montecarlo, orig);
    } else {
      var orig := Rmsd(s, o);
      var montecarlo := RunTrials(s, o, perms);
      p := TailShareOf(montecarlo, orig);
    }
  }

  /** With distinct names, trials under the identity all tie with the observation, so p is 1. */
  lemma IdentityTrialsTie(s: Matrix, o: Matrix, perms: seq<seq<nat>>)
    requires Valid(s) && Valid(o) && s.names == o.names && |s.names| >= 1 && Unique(s.names) && |perms| >= 1
    requires forall k :: 0 <= k < |perms| ==> IsPermutation(perms[k], |s.names|) && InOrder(perms[k])
    ensures TailShare(TrialValues(s, o, perms), MeanSquare(s, o)) == Num(1.0)
  {
    IdentityTrial(s, o);
    var trials := TrialValues(s, o, perms);
    var orig := FromDouble(MeanSquare(s, o));
    forall k | 0 <= k < |perms| ensures NotBelow(AsFloats(trials)[k], orig) {
      assert perms[k] == Identity(|s.names|);
    }
    ShareOfOne(AsFloats(trials), orig);
  }

  /** When every trial reaches the observation, the p-value is 1. */
  lemma AllReach(trials: seq<real>, orig: real)
    requires |trials| >= 1 && forall k :: 0 <= k < |trials| ==> trials[k] >= orig
    ensures PValue(trials, orig) == Num(1.0)
  {
    AllAtLeast(trials, orig);
  }

  /** With distinct names, if every shuffle left the identity then p is 1. */
  lemma IdentityShufflesGiveOne(self: Matrix, other: Matrix, donormalize: bool, sdSelf: real, sdOther: real, perms: seq<seq<nat>>)
    requires Valid(self) && Valid(other) && Ready(self, other, donormalize, sdSelf, sdOther)
    requires Unique(self.names) && |perms| >= 1
    requires forall k :: 0 <= k < |perms| ==> IsPermutation(perms[k], |CommonNames(self.names, other.names)|) && InOrder(perms[k])
    ensures MantelP(self, other, donormalize, sdSelf, sdOther, perms) == Num(1.0)
  {
    if Flat(donormalize, sdSelf, sdOther) {
      FlatGivesOne(self, other, donormalize, sdSelf, sdOther, perms);
    } else {
      var p := Prepared(self, other, donormalize, sdSelf, sdOther);
      CommonNamesUnique(self.names, other.names);
      IdentityTrialsTie(p.0, p.1, perms);
    }
  }

  /**
   * With a single common name the test is degenerate: the observed statistic
   * and every trial are 0/0, `lower_bound` stops at the first trial, and
   * `mantel` returns 1.
   */
  lemma SingleNameGivesOne(self: Matrix, other: Matrix, donormalize: bool, sdSelf: real, sdOther: real, perms: seq<seq<nat>>)
    requires Valid(self) && Valid(other) && Ready(self, other, donormalize, sdSelf, sdOther)
    requires |CommonNames(self.names, other.names)| == 1 && |perms| >= 1
    requires forall k :: 0 <= k < |perms| ==> IsPermutation(perms[k], |CommonNames(self.names, other.names)|)
    ensures MantelP(self, other, donormalize, sdSelf, sdOther, perms) == Num(1.0)
  {
    var p := Prepared(self, other, donormalize, sdSelf, sdOther);
    assert MeanSquare(p.0, p.1).NaN?;
    TailShareOfNaN(TrialValues(p.0, p.1, perms));
  }

  /**
   * Normalising a projection whose lower triangle is constant divides by a
   * zero deviation: every trial is then plus infinity or NaN, none compares
   * below the observation, and `mantel` returns 1.
   */
  lemma FlatGivesOne(self: Matrix, other: Matrix, donormalize: bool, sdSelf: real, sdOther: real, perms: seq<seq<nat>>)
    requires Valid(self) && Valid(other) && Ready(self, other, donormalize, sdSelf, sdOther)
    requires Flat(donormalize, sdSelf, sdOther) && |perms| >= 1
    requires forall k :: 0 <= k < |perms| ==> IsPermutation(perms[k], |CommonNames(self.names, other.names)|)
    ensures MantelP(self, other, donormalize, sdSelf, sdOther, perms) == Num(1.0)
  {
    var p := Prepared(self, other, donormalize, sdSelf, sdOther);
    var trials := FlatTrialValues(p.0, p.1, sdSelf, sdOther, perms);
    var orig := FlatMeanSquare(p.0, p.1, sdSelf, sdOther);
    FlatTrialsNotBelow(p.0, p.1, sdSelf, sdOther, perms, orig);
    ShareOfOne(trials, orig);
  }
}

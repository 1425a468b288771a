/**
 * The distance measures behind `mat compare`: both matrices are projected onto
 * their sorted common names, and two lower-triangle cursors walk the
 * projections in lockstep, accumulating one term per pair of names.
 */
module Compare {
  import Wrappers
  import opened Names
  import opened Matrices
  import opened Cursors

  /**
   * A C `double` as these measures can produce it: a finite value, positive
   * infinity (a non-zero numerator over a zero denominator) or NaN (0/0).
   */
  datatype Value = Finite(v: real) | Infinite | NotANumber

  /** Never a negative finite value. */
  predicate NonNegative(x: Value)
  {
    x.Finite? ==> x.v >= 0.0
  }

  function Abs(x: real): (r: real)
    ensures r >= 0.0 && (r == x || r == -x)
  {
    if x < 0.0 then -x else x
  }

  /**
   * The two operands of an addition. A sequence rather than two parameters,
   * for the same reason as `Pair` below: a running total that is 0 would
   * otherwise have the solver add literal zeros without end.
   */
  type Operands = s: seq<Value> | |s| == 2 witness [NotANumber, NotANumber]

  /** IEEE addition of `ab[0]` and `ab[1]`: NaN absorbs everything, infinity absorbs finite values. */
  function Add(ab: Operands): (r: Value)
    ensures r.NotANumber? <==> ab[0].NotANumber? || ab[1].NotANumber?
    ensures r.Finite? <==> ab[0].Finite? && ab[1].Finite?
    ensures r.Finite? ==> r.v == ab[0].v + ab[1].v
  {
    var a, b := ab[0], ab[1];
    if a.NotANumber? || b.NotANumber? then NotANumber
    else if a.Infinite? || b.Infinite? then Infinite
    else Finite(a.v + b.v)
  }

  /**
   * Two reals read together: the values under the two cursors, or a
   * numerator and a denominator. A sequence rather than a datatype, because
   * the solver never evaluates a sequence as a literal, so the arithmetic in
   * the terms below is not unfolded again and again on constant arguments.
   */
  type Pair = s: seq<real> | |s| == 2 witness [0.0, 0.0]

  /** `|d / f|` for `q == [d, f]` in IEEE arithmetic: 0/0 is NaN and a non-zero value over 0 is infinite. */
  function AbsQuotient(q: Pair): (r: Value)
    ensures r.NotANumber? <==> q[0] == 0.0 && q[1] == 0.0
    ensures r.Infinite? <==> q[0] != 0.0 && q[1] == 0.0
    ensures r.Finite? ==> r == Finite(Abs(q[0] / q[1]))
  {
    var d, f := q[0], q[1];
    if f != 0.0 then Finite(Abs(d / f))
    else if d == 0.0 then NotANumber
    else Infinite
  }

  // ---------------------------------------------------------------------------
  // The per-pair terms

  /** `p1_norm`: `fabs(entry - other)`. */
  function AbsDifference(p: Pair): Value
  {
    Finite(Abs(p[0] - p[1]))
  }

  /** `d * d`. */
  function Sq(d: real): (r: real)
    ensures r >= 0.0
  {
    d * d
  }

  lemma SquareEven(d: real)
    ensures Sq(-d) == Sq(d)
  {
  }

  lemma SquarePositive(d: real)
    requires d > 0.0
    ensures Sq(d) > 0.0
  {
    var r := Sq(d);
    assert r == d * d;
    assert r / d == d;
  }

  /** Only 0 squares to 0. */
  lemma SquareNonZero(d: real)
    requires d != 0.0
    ensures Sq(d) > 0.0
  {
    if d < 0.0 {
      SquareEven(d);
      SquarePositive(-d);
    } else {
      SquarePositive(d);
    }
  }

  /** `p2_norm`: `d * d` with `d = entry - other`. */
  function SquaredDifference(p: Pair): Value
  {
    Finite(Sq(p[0] - p[1]))
  }

  /** `rel`: `abs(2 * (entry - other) / (entry + other))`. */
  function RelativeDifference(p: Pair): Value
  {
    AbsQuotient([2.0 * (p[0] - p[1]), p[0] + p[1]])
  }

  /** `delta2`: `4 (entry - other)^2 / (entry + other)^2`. */
  function SquaredRelativeDifference(p: Pair): Value
  {
    AbsQuotient([4.0 * Sq(p[0] - p[1]), Sq(p[0] + p[1])])
  }

  /** The absolute and squared differences do not depend on the order of their arguments. */
  lemma DifferencesSymmetric(x: real, y: real)
    ensures AbsDifference([x, y]) == AbsDifference([y, x])
    ensures SquaredDifference([x, y]) == SquaredDifference([y, x])
  {
    assert y - x == -(x - y);
    SquareEven(x - y);
  }

  /** Neither do the relative terms. */
  lemma RelativeTermsSymmetric(x: real, y: real)
    ensures RelativeDifference([x, y]) == RelativeDifference([y, x])
    ensures SquaredRelativeDifference([x, y]) == SquaredRelativeDifference([y, x])
  {
    assert y - x == -(x - y) && y + x == x + y;
    SquareEven(x - y);
    if x + y != 0.0 {
      var q := 2.0 * (x - y) / (x + y);
      assert q * (x + y) == 2.0 * (x - y);
      assert (-q) * (y + x) == 2.0 * (y - x);
      assert 2.0 * (y - x) / (y + x) == -q;
    }
  }

  /** The terms are never negative finite values, and the absolute and squared differences are always finite. */
  lemma TermsNonNegative(p: Pair)
    ensures AbsDifference(p).Finite? && SquaredDifference(p).Finite?
    ensures NonNegative(AbsDifference(p)) && NonNegative(SquaredDifference(p))
    ensures NonNegative(RelativeDifference(p)) && NonNegative(SquaredRelativeDifference(p))
  {
  }

  /** A pair of equal values contributes nothing to the absolute and squared differences. */
  lemma DifferencesOnEqualValues(x: real)
    ensures AbsDifference([x, x]) == Finite(0.0) && SquaredDifference([x, x]) == Finite(0.0)
  {
    assert Sq(0.0) == 0.0;
  }

  /** Every pair of equal values satisfies the hypothesis of the sums over a matrix and itself. */
  lemma AllDifferencesOnEqualValues()
    ensures forall x {:trigger AbsDifference([x, x])} :: AbsDifference([x, x]) == Finite(0.0)
    ensures forall x {:trigger SquaredDifference([x, x])} :: SquaredDifference([x, x]) == Finite(0.0)
  {
    forall x {:trigger AbsDifference([x, x])} {:trigger SquaredDifference([x, x])}
      ensures AbsDifference([x, x]) == Finite(0.0) && SquaredDifference([x, x]) == Finite(0.0)
    {
      DifferencesOnEqualValues(x);
    }
  }

  /** A pair of equal non-zero values contributes nothing to the relative terms; a pair of zeros makes them NaN. */
  lemma RelativeTermsOnEqualValues(x: real)
    ensures x != 0.0 ==> RelativeDifference([x, x]) == Finite(0.0) && SquaredRelativeDifference([x, x]) == Finite(0.0)
    ensures x == 0.0 ==> RelativeDifference([x, x]).NotANumber? && SquaredRelativeDifference([x, x]).NotANumber?
  {
    assert Sq(0.0) == 0.0;
    if x != 0.0 {
      SquareNonZero(x + x);
    }
  }

  /** Every term satisfies the sign and finiteness hypotheses of the sum lemmas below. */
  lemma AllTermsNonNegative()
    ensures forall p :: AbsDifference(p).Finite? && SquaredDifference(p).Finite?
    ensures forall p :: NonNegative(SquaredDifference(p)) && NonNegative(AbsDifference(p))
    ensures forall p :: NonNegative(RelativeDifference(p)) && NonNegative(SquaredRelativeDifference(p))
  {
    forall p ensures AbsDifference(p).Finite? && SquaredDifference(p).Finite?
      && NonNegative(SquaredDifference(p)) && NonNegative(AbsDifference(p))
      && NonNegative(RelativeDifference(p)) && NonNegative(SquaredRelativeDifference(p))
    {
      TermsNonNegative(p);
    }
  }

  /** The absolute and squared differences satisfy the symmetry hypothesis of `WalkSumSwap`. */
  lemma AllDifferencesSymmetric()
    ensures forall x, y {:trigger AbsDifference([x, y])} :: AbsDifference([x, y]) == AbsDifference([y, x])
    ensures forall x, y {:trigger SquaredDifference([x, y])} :: SquaredDifference([x, y]) == SquaredDifference([y, x])
  {
    forall x, y {:trigger AbsDifference([x, y])} ensures AbsDifference([x, y]) == AbsDifference([y, x]) && SquaredDifference([x, y]) == SquaredDifference([y, x]) {
      DifferencesSymmetric(x, y);
    }
  }

  /** So do the relative terms. */
  lemma AllRelativeTermsSymmetric()
    ensures forall x, y {:trigger RelativeDifference([x, y])} :: RelativeDifference([x, y]) == RelativeDifference([y, x])
    ensures forall x, y {:trigger SquaredRelativeDifference([x, y])} :: SquaredRelativeDifference([x, y]) == SquaredRelativeDifference([y, x])
  {
    forall x, y {:trigger RelativeDifference([x, y])} ensures RelativeDifference([x, y]) == RelativeDifference([y, x])
      && SquaredRelativeDifference([x, y]) == SquaredRelativeDifference([y, x])
    {
      RelativeTermsSymmetric(x, y);
    }
  }

  // ---------------------------------------------------------------------------
  // The lockstep walk

  /** Step `t < n (n - 1) / 2` of the lower-triangle walk stands on a strict-lower cell of an `n x n` matrix. */
  lemma LowerStep(n: nat, t: nat)
    requires t < Triangle(n)
    ensures LowerAfter(t).col < LowerAfter(t).row < n
  {
    LowerWalk(t);
    LowerWalkEnds(n);
  }

  /** The term of step `t`: the two values under the cursors. */
  function StepTerm(s: Matrix, o: Matrix, term: Pair -> Value, t: nat): Value
    requires Valid(s) && Valid(o) && s.names == o.names && t < Triangle(|s.names|)
  {
    LowerStep(|s.names|, t);
    var c := LowerAfter(t);
    term([Entry(s, c.row, c.col), Entry(o, c.row, c.col)])
  }

  /** What `dist` holds after the first `t` steps of the walk. */
  function WalkSum(s: Matrix, o: Matrix, term: Pair -> Value, t: nat): Value
    requires Valid(s) && Valid(o) && s.names == o.names && t <= Triangle(|s.names|)
  {
    if t == 0 then Finite(0.0) else Add([WalkSum(s, o, term, t - 1), StepTerm(s, o, term, t - 1)])
  }

  lemma {:induction false} WalkSumNonNegative(s: Matrix, o: Matrix, term: Pair -> Value, t: nat)
    requires Valid(s) && Valid(o) && s.names == o.names && t <= Triangle(|s.names|)
    requires forall p :: NonNegative(term(p))
    ensures NonNegative(WalkSum(s, o, term, t))
  {
    if t > 0 {
      WalkSumNonNegative(s, o, term, t - 1);
    }
  }

  lemma {:induction false} WalkSumFinite(s: Matrix, o: Matrix, term: Pair -> Value, t: nat)
    requires Valid(s) && Valid(o) && s.names == o.names && t <= Triangle(|s.names|)
    requires forall p :: term(p).Finite?
    ensures WalkSum(s, o, term, t).Finite?
  {
    if t > 0 {
      WalkSumFinite(s, o, term, t - 1);
    }
  }

  lemma {:induction false} WalkSumSwap(s: Matrix, o: Matrix, term: Pair -> Value, t: nat)
    requires Valid(s) && Valid(o) && s.names == o.names && t <= Triangle(|s.names|)
    requires forall x, y {:trigger term([x, y])} :: term([x, y]) == term([y, x])
    ensures WalkSum(s, o, term, t) == WalkSum(o, s, term, t)
  {
    if t > 0 {
      WalkSumSwap(s, o, term, t - 1);
    }
  }

  lemma {:induction false} WalkSumZero(s: Matrix, o: Matrix, term: Pair -> Value, t: nat)
    requires Valid(s) && Valid(o) && s.names == o.names && t <= Triangle(|s.names|)
    requires forall u :: 0 <= u < t ==> StepTerm(s, o, term, u) == Finite(0.0)
    ensures WalkSum(s, o, term, t) == Finite(0.0)
  {
    if t > 0 {
      WalkSumZero(s, o, term, t - 1);
    }
  }

  lemma {:induction false} WalkSumNaN(s: Matrix, o: Matrix, term: Pair -> Value, t: nat, u: nat)
    requires Valid(s) && Valid(o) && s.names == o.names && u < t <= Triangle(|s.names|)
    requires StepTerm(s, o, term, u).NotANumber?
    ensures WalkSum(s, o, term, t).NotANumber?
  {
    if u < t - 1 {
      WalkSumNaN(s, o, term, t - 1, u);
    }
  }

  /** Every sum of terms is never a negative value. */
  lemma SumsNonNegative(s: Matrix, o: Matrix, t: nat)
    requires Valid(s) && Valid(o) && s.names == o.names && t <= Triangle(|s.names|)
    ensures NonNegative(WalkSum(s, o, AbsDifference, t)) && NonNegative(WalkSum(s, o, SquaredDifference, t))
    ensures NonNegative(WalkSum(s, o, RelativeDifference, t)) && NonNegative(WalkSum(s, o, SquaredRelativeDifference, t))
  {
    AllTermsNonNegative();
    WalkSumNonNegative(s, o, AbsDifference, t);
    WalkSumNonNegative(s, o, SquaredDifference, t);
    WalkSumNonNegative(s, o, RelativeDifference, t);
    WalkSumNonNegative(s, o, SquaredRelativeDifference, t);
  }

  /**
   * The loop `for (auto entry : lower_triangle(s)) dist += term(entry, *other_it++)`.
   * It stops at the end cell `LowerEndFixed`, which for an empty matrix is
   * `begin` itself; see `Cursors.LowerWalkMissesEmptyEnd` for the end cell the
   * program compares against.
   */
  method Accumulate(s: Matrix, o: Matrix, term: Pair -> Value) returns (dist: Value)
    requires Valid(s) && Valid(o) && s.names == o.names
    ensures dist == WalkSum(s, o, term, Triangle(|s.names|))
  {
    var size := |s.names|;
    var it := new LowerCursor.Begin(size);
    var otherIt := new LowerCursor.Begin(size);
    var end := LowerEndFixed(size);
    LowerWalkEndsFixed(size);
    dist := Finite(0.0);
    ghost var t := 0;
    while Cell(it.row, it.col) != end
      invariant t <= Triangle(size)
      invariant Cell(it.row, it.col) == LowerAfter(t) && Cell(otherIt.row, otherIt.col) == LowerAfter(t)
      invariant dist == WalkSum(s, o, term, t)
      decreases Triangle(size) - t
    {
      LowerStep(size, t);
      dist := Add([dist, term([Entry(s, it.row, it.col), Entry(o, otherIt.row, otherIt.col)])]);
      otherIt.Next();
      it.Next();
      t := t + 1;
    }
  }

  // ---------------------------------------------------------------------------
  // The measures

  /** `dist / n` for a sum that is never negative: `n == 0` leaves an empty sum and gives 0/0. */
  function Share(dist: Value, n: nat): (r: Value)
    requires NonNegative(dist)
    ensures r.NotANumber? <==> dist.NotANumber? || (dist.Finite? && dist.v == 0.0 && n == 0)
    ensures dist.Finite? && n > 0 ==> r == Finite(dist.v / n as real)
  {
    match dist
    case Finite(v) => AbsQuotient([v, n as real])
    case Infinite => Infinite
    case NotANumber => NotANumber
  }

  /** The two projections onto the sorted common names. */
  function Projected(self: Matrix, other: Matrix): (r: (Matrix, Matrix))
    requires Valid(self) && Valid(other)
    ensures Valid(r.0) && Valid(r.1) && r.0.names == r.1.names == CommonNames(self.names, other.names)
  {
    var names := CommonNames(self.names, other.names);
    (Project(self, names), Project(other, names))
  }

  /** The sum of `term` over all pairs of common names. */
  function Measure(self: Matrix, other: Matrix, term: Pair -> Value): Value
    requires Valid(self) && Valid(other)
  {
    var p := Projected(self, other);
    WalkSum(p.0, p.1, term, Triangle(|p.0.names|))
  }

  /** There is a pair exactly when there are two names. */
  lemma PairCountPositive(k: nat)
    ensures Triangle(k) > 0 <==> k >= 2
  {
    if k >= 2 {
      TriangleMono(1, k);
    }
  }

  /** The sums that are divided by the pair count are never negative. */
  lemma MeasuresNonNegative(self: Matrix, other: Matrix)
    requires Valid(self) && Valid(other)
    ensures NonNegative(Measure(self, other, SquaredDifference)) && NonNegative(Measure(self, other, RelativeDifference))
  {
    var p := Projected(self, other);
    SumsNonNegative(p.0, p.1, Triangle(|p.0.names|));
  }

  /** `p1_norm`. */
  function P1(self: Matrix, other: Matrix): Value
    requires Valid(self) && Valid(other)
  {
    Measure(self, other, AbsDifference)
  }

  /** `p2_norm` before the square root: the mean squared difference over `n = k (k - 1) / 2` pairs. */
  function P2Squared(self: Matrix, other: Matrix): Value
    requires Valid(self) && Valid(other)
  {
    MeasuresNonNegative(self, other);
    Share(Measure(self, other, SquaredDifference), Triangle(|CommonNames(self.names, other.names)|))
  }

  /**
   * `rel`: the mean relative difference over `n = k (k - 1) / 2` pairs. It is
   * NaN exactly when a pair gives 0/0 or fewer than two names are shared.
   */
  function Rel(self: Matrix, other: Matrix): (r: Value)
    requires Valid(self) && Valid(other)
    ensures var k := |CommonNames(self.names, other.names)|;
      r.NotANumber? <==> Measure(self, other, RelativeDifference).NotANumber? || k < 2
    ensures r.Finite? ==> r.v >= 0.0 && Measure(self, other, RelativeDifference).Finite?
  {
    var k := |CommonNames(self.names, other.names)|;
    MeasuresNonNegative(self, other);
    PairCountPositive(k);
    Share(Measure(self, other, RelativeDifference), Triangle(k))
  }

  /** `delta2`: the sum of squared relative differences. */
  function Delta2(self: Matrix, other: Matrix): Value
    requires Valid(self) && Valid(other)
  {
    Measure(self, other, SquaredRelativeDifference)
  }

  /** The sum of absolute differences is a finite value that is never negative. */
  lemma P1Finite(self: Matrix, other: Matrix)
    requires Valid(self) && Valid(other)
    ensures P1(self, other).Finite? && P1(self, other).v >= 0.0
  {
    var (s, o) := Projected(self, other);
    AllTermsNonNegative();
    WalkSumFinite(s, o, AbsDifference, Triangle(|s.names|));
    WalkSumNonNegative(s, o, AbsDifference, Triangle(|s.names|));
  }

  /**
   * The mean squared difference is NaN exactly when fewer than two names are
   * shared; otherwise it is a finite value that is never negative.
   */
  lemma P2SquaredDefined(self: Matrix, other: Matrix)
    requires Valid(self) && Valid(other)
    ensures P2Squared(self, other).NotANumber? <==> |CommonNames(self.names, other.names)| < 2
    ensures !P2Squared(self, other).NotANumber? ==> P2Squared(self, other).Finite? && P2Squared(self, other).v >= 0.0
  {
    var k := |CommonNames(self.names, other.names)|;
    var (s, o) := Projected(self, other);
    AllTermsNonNegative();
    WalkSumFinite(s, o, SquaredDifference, Triangle(k));
    WalkSumNonNegative(s, o, SquaredDifference, Triangle(k));
    if k >= 2 {
      TriangleMono(1, k);
    }
  }

  /** `delta2` is never a negative value. */
  lemma Delta2NonNegative(self: Matrix, other: Matrix)
    requires Valid(self) && Valid(other)
    ensures NonNegative(Delta2(self, other))
  {
    var (s, o) := Projected(self, other);
    AllTermsNonNegative();
    WalkSumNonNegative(s, o, SquaredRelativeDifference, Triangle(|s.names|));
  }

  /** `p1` and `p2` are the same with the two matrices swapped. */
  lemma DifferenceMeasuresSymmetric(a: Matrix, b: Matrix)
    requires Valid(a) && Valid(b)
    ensures P1(a, b) == P1(b, a) && P2Squared(a, b) == P2Squared(b, a)
  {
    CommonNamesSymmetric(a.names, b.names);
    var (s, o) := Projected(a, b);
    var t := Triangle(|s.names|);
    AllDifferencesSymmetric();
    WalkSumSwap(s, o, AbsDifference, t);
    WalkSumSwap(s, o, SquaredDifference, t);
  }

  /** So are `rel` and `delta2`. */
  lemma RelativeMeasuresSymmetric(a: Matrix, b: Matrix)
    requires Valid(a) && Valid(b)
    ensures Rel(a, b) == Rel(b, a) && Delta2(a, b) == Delta2(b, a)
  {
    CommonNamesSymmetric(a.names, b.names);
    var (s, o) := Projected(a, b);
    var t := Triangle(|s.names|);
    AllRelativeTermsSymmetric();
    WalkSumSwap(s, o, RelativeDifference, t);
    WalkSumSwap(s, o, SquaredRelativeDifference, t);
  }

  /** The projection onto unique names holds the by-name values off the diagonal. */
  lemma ProjectedByName(m: Matrix, names: seq<string>, i: nat, j: nat)
    requires Valid(m) && Unique(names) && forall x :: x in names ==> x in m.names
    requires j < i < |names|
    ensures names[i] != names[j] && Entry(Project(m, names), i, j) == Lookup(m, names[i], names[j])
  {
    IndexMapUnique(names, i);
    IndexMapUnique(names, j);
    IndexMapLast(names);
  }

  /** A zero sum shared among a positive number of pairs is 0. */
  lemma ShareOfZero(n: nat)
    requires n > 0
    ensures Share(Finite(0.0), n) == Finite(0.0)
  {
    assert 0.0 / n as real == 0.0;
  }

  /** Walking a matrix against itself adds up absolute and squared differences of 0. */
  lemma DifferenceSumsOnSelf(s: Matrix)
    requires Valid(s)
    ensures WalkSum(s, s, AbsDifference, Triangle(|s.names|)) == Finite(0.0)
    ensures WalkSum(s, s, SquaredDifference, Triangle(|s.names|)) == Finite(0.0)
  {
    var k := |s.names|;
    forall u | 0 <= u < Triangle(k)
      ensures StepTerm(s, s, AbsDifference, u) == Finite(0.0) && StepTerm(s, s, SquaredDifference, u) == Finite(0.0)
    {
      LowerStep(k, u);
      var c := LowerAfter(u);
      DifferencesOnEqualValues(Entry(s, c.row, c.col));
    }
    WalkSumZero(s, s, AbsDifference, Triangle(k));
    WalkSumZero(s, s, SquaredDifference, Triangle(k));
  }

  /** A matrix is at distance zero from itself under `p1`, and under `p2` from two names on. */
  lemma NormsOnSelf(m: Matrix)
    requires Valid(m)
    ensures P1(m, m) == Finite(0.0)
    ensures |CommonNames(m.names, m.names)| >= 2 ==> P2Squared(m, m) == Finite(0.0)
  {
    var (s, o) := Projected(m, m);
    var k := |s.names|;
    assert s == o;
    DifferenceSumsOnSelf(s);
    if k >= 2 {
      TriangleMono(1, k);
      ShareOfZero(Triangle(k));
    }
  }

  /**
   * Walking a matrix with unique names against itself adds up relative terms
   * of 0 when no two distinct names are at distance 0.
   */
  lemma RelativeSumsOnSelf(m: Matrix)
    requires Valid(m) && Unique(m.names)
    requires forall a, b :: a in m.names && b in m.names && a != b ==> Lookup(m, a, b) != 0.0
    ensures var s := Projected(m, m).0;
      WalkSum(s, s, RelativeDifference, Triangle(|s.names|)) == Finite(0.0)
      && WalkSum(s, s, SquaredRelativeDifference, Triangle(|s.names|)) == Finite(0.0)
  {
    var s := Projected(m, m).0;
    var names := s.names;
    var k := |names|;
    CommonNamesUnique(m.names, m.names);
    forall u | 0 <= u < Triangle(k)
      ensures StepTerm(s, s, RelativeDifference, u) == Finite(0.0)
      ensures StepTerm(s, s, SquaredRelativeDifference, u) == Finite(0.0)
    {
      LowerStep(k, u);
      var c := LowerAfter(u);
      ProjectedByName(m, names, c.row, c.col);
      RelativeTermsOnEqualValues(Entry(s, c.row, c.col));
    }
    WalkSumZero(s, s, RelativeDifference, Triangle(k));
    WalkSumZero(s, s, SquaredRelativeDifference, Triangle(k));
  }

  /**
   * When no two distinct names are at distance 0, a matrix is at relative
   * distance zero from itself (for `rel`, from two names on).
   */
  lemma RelativeMeasuresOnSelf(m: Matrix)
    requires Valid(m) && Unique(m.names)
    requires forall a, b :: a in m.names && b in m.names && a != b ==> Lookup(m, a, b) != 0.0
    ensures Delta2(m, m) == Finite(0.0)
    ensures |CommonNames(m.names, m.names)| >= 2 ==> Rel(m, m) == Finite(0.0)
  {
    var (s, o) := Projected(m, m);
    var k := |s.names|;
    assert s == o;
    RelativeSumsOnSelf(m);
    if k >= 2 {
      TriangleMono(1, k);
      ShareOfZero(Triangle(k));
    }
  }

  /** A NaN term at any strict-lower cell `(i, j)` makes the whole sum NaN. */
  lemma NaNAtCell(s: Matrix, o: Matrix, term: Pair -> Value, i: nat, j: nat)
    requires Valid(s) && Valid(o) && s.names == o.names && j < i < |s.names|
    requires term([Entry(s, i, j), Entry(o, i, j)]).NotANumber?
    ensures WalkSum(s, o, term, Triangle(|s.names|)).NotANumber?
  {
    var u := Triangle(i) + j;
    LowerWalkVisits(i, j, u);
    TriangleMono(i, |s.names|);
    WalkSumNaN(s, o, term, Triangle(|s.names|), u);
  }

  /** Both relative terms of a pair of zeros are 0/0. */
  lemma ZeroPairTerms(x: real, y: real)
    requires x == 0.0 && y == 0.0
    ensures RelativeDifference([x, y]).NotANumber? && SquaredRelativeDifference([x, y]).NotANumber?
  {
    RelativeTermsOnEqualValues(0.0);
  }

  /**
   * A pair of shared names at distance 0 in both projections makes `delta2`
   * NaN, whatever the other pairs hold.
   */
  lemma Delta2ZeroPair(self: Matrix, other: Matrix, i: nat, j: nat)
    requires Valid(self) && Valid(other)
    requires j < i < |CommonNames(self.names, other.names)|
    requires Entry(Projected(self, other).0, i, j) == 0.0 && Entry(Projected(self, other).1, i, j) == 0.0
    ensures Delta2(self, other).NotANumber?
  {
    var p := Projected(self, other);
    ZeroPairTerms(Entry(p.0, i, j), Entry(p.1, i, j));
    NaNAtCell(p.0, p.1, SquaredRelativeDifference, i, j);
  }

  /** The same pair makes `rel` NaN. */
  lemma RelZeroPair(self: Matrix, other: Matrix, i: nat, j: nat)
    requires Valid(self) && Valid(other)
    requires j < i < |CommonNames(self.names, other.names)|
    requires Entry(Projected(self, other).0, i, j) == 0.0 && Entry(Projected(self, other).1, i, j) == 0.0
    ensures Rel(self, other).NotANumber?
  {
    assert Measure(self, other, RelativeDifference).NotANumber? by {
      var p := Projected(self, other);
      ZeroPairTerms(Entry(p.0, i, j), Entry(p.1, i, j));
      NaNAtCell(p.0, p.1, RelativeDifference, i, j);
    }
  }

  // ---------------------------------------------------------------------------
  // The functions as the program runs them

  /** The shared prologue: common names, then `sample2` of both matrices. */
  method Sampled(self: Matrix, other: Matrix) returns (s: Matrix, o: Matrix)
    requires Valid(self) && Valid(other)
    ensures (s, o) == Projected(self, other)
  {
    var names := CommonNames(self.names, other.names);
    var ss := Sample2(self, names);
    var oo := Sample2(other, names);
    s, o := ss.value, oo.value;
  }

  /** The pair count `n = size * (size - 1) / 2`; in `size_t` an empty list gives `0 * SIZE_MAX / 2 = 0`. */
  method PairCount(size: nat) returns (n: nat)
    ensures n == Triangle(size) && 2 * n == size * (size - 1)
  {
    TriangleIsHalfProduct(size);
    n := if size == 0 then 0 else size * (size - 1) / 2;
  }

  method P1Norm(self: Matrix, other: Matrix) returns (dist: Value)
    requires Valid(self) && Valid(other)
    ensures dist == P1(self, other)
  {
    var s, o := Sampled(self, other);
    dist := Accumulate(s, o, AbsDifference);
  }

  /** `p2_norm` up to the final `sqrt`. */
  method P2Norm(self: Matrix, other: Matrix) returns (r: Value)
    requires Valid(self) && Valid(other)
    ensures r == P2Squared(self, other)
  {
    var s, o := Sampled(self, other);
    var dist := Accumulate(s, o, SquaredDifference);
    var n := PairCount(|s.names|);
    SumsNonNegative(s, o, n);
    r := Share(dist, n);
  }

  method RelNorm(self: Matrix, other: Matrix) returns (r: Value)
    requires Valid(self) && Valid(other)
    ensures r == Rel(self, other)
  {
    var s, o := Sampled(self, other);
    var dist := Accumulate(s, o, RelativeDifference);
    var n := PairCount(|s.names|);
    SumsNonNegative(s, o, n);
    r := Share(dist, n);
  }

  method Delta2Norm(self: Matrix, other: Matrix) returns (dist: Value)
    requires Valid(self) && Valid(other)
    ensures dist == Delta2(self, other)
  {
    var s, o := Sampled(self, other);
    dist := Accumulate(s, o, SquaredRelativeDifference);
  }
}

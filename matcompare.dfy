/**
 * The older `mat compare`: the measures `p1_norm`, `p2_norm` and `rel` over
 * the common names in the first matrix's order, cells read through index maps
 * and pairs `i < j` visited by two nested loops; and the full mode, which
 * compares every pair of input matrices.
 */
module MatCompare {
  import opened Wrappers
  import opened Names
  import opened Matrices
  import opened Cursors
  import opened Compare
  import Phylip

  /** The term of the pair `(c[i], c[j])`, both cells read through the index maps of the names. */
  function PairTerm(self: Matrix, other: Matrix, c: seq<string>, term: Pair -> Value, i: nat, j: nat): Value
    requires Valid(self) && Valid(other) && i < |c| && j < |c|
    requires forall x :: x in c ==> x in self.names && x in other.names
  {
    var selfMap, otherMap := IndexMap(self.names), IndexMap(other.names);
    IndexMapBounds(self.names, c[i]);
    IndexMapBounds(self.names, c[j]);
    IndexMapBounds(other.names, c[i]);
    IndexMapBounds(other.names, c[j]);
    term([Entry(self, selfMap[c[i]], selfMap[c[j]]), Entry(other, otherMap[c[i]], otherMap[c[j]])])
  }

  /** Those cells hold the values `entry` returns by name. */
  lemma PairTermByName(self: Matrix, other: Matrix, c: seq<string>, term: Pair -> Value, i: nat, j: nat)
    requires Valid(self) && Valid(other) && i < |c| && j < |c|
    requires forall x :: x in c ==> x in self.names && x in other.names
    ensures PairTerm(self, other, c, term, i, j) == term([Lookup(self, c[i], c[j]), Lookup(other, c[i], c[j])])
  {
    LookupThroughMap(self, IndexMap(self.names), c[i], c[j]);
    LookupThroughMap(other, IndexMap(other.names), c[i], c[j]);
  }

  /**
   * What `dist` holds in row `i` before column `j` when the row started from
   * `start`: the terms of the pairs `(i, j')` with `i < j' < j` added on.
   */
  function RowSum(self: Matrix, other: Matrix, c: seq<string>, term: Pair -> Value, start: Value, i: nat, j: nat): Value
    requires Valid(self) && Valid(other) && i < |c| && j <= |c|
    requires forall x :: x in c ==> x in self.names && x in other.names
  {
    if j <= i + 1 then start
    else Add([RowSum(self, other, c, term, start, i, j - 1), PairTerm(self, other, c, term, i, j - 1)])
  }

  /** What `dist` holds after the rows before `i`. */
  function PairSum(self: Matrix, other: Matrix, c: seq<string>, term: Pair -> Value, i: nat): Value
    requires Valid(self) && Valid(other) && i <= |c|
    requires forall x :: x in c ==> x in self.names && x in other.names
  {
    if i == 0 then Finite(0.0)
    else RowSum(self, other, c, term, PairSum(self, other, c, term, i - 1), i - 1, |c|)
  }

  /** The sum over all pairs `i < j` of the common names; the outer loop stops at `size - 1`. */
  function Total(self: Matrix, other: Matrix, term: Pair -> Value): Value
    requires Valid(self) && Valid(other) && |SelfOrderCommon(self.names, other.names)| >= 1
  {
    var c := SelfOrderCommon(self.names, other.names);
    PairSum(self, other, c, term, |c| - 1)
  }

  lemma {:induction false} RowSumNonNegative(self: Matrix, other: Matrix, c: seq<string>, term: Pair -> Value, start: Value, i: nat, j: nat)
    requires Valid(self) && Valid(other) && i < |c| && j <= |c|
    requires forall x :: x in c ==> x in self.names && x in other.names
    requires forall p :: NonNegative(term(p))
    requires NonNegative(start)
    ensures NonNegative(RowSum(self, other, c, term, start, i, j))
    decreases j
  {
    if j > i + 1 {
      RowSumNonNegative(self, other, c, term, start, i, j - 1);
    }
  }

  lemma {:induction false} PairSumNonNegative(self: Matrix, other: Matrix, c: seq<string>, term: Pair -> Value, i: nat)
    requires Valid(self) && Valid(other) && i <= |c|
    requires forall x :: x in c ==> x in self.names && x in other.names
    requires forall p :: NonNegative(term(p))
    ensures NonNegative(PairSum(self, other, c, term, i))
  {
    if i > 0 {
      PairSumNonNegative(self, other, c, term, i - 1);
      RowSumNonNegative(self, other, c, term, PairSum(self, other, c, term, i - 1), i - 1, |c|);
    }
  }

  lemma {:induction false} RowSumFinite(self: Matrix, other: Matrix, c: seq<string>, term: Pair -> Value, start: Value, i: nat, j: nat)
    requires Valid(self) && Valid(other) && i < |c| && j <= |c|
    requires forall x :: x in c ==> x in self.names && x in other.names
    requires forall p :: term(p).Finite?
    requires start.Finite?
    ensures RowSum(self, other, c, term, start, i, j).Finite?
    decreases j
  {
    if j > i + 1 {
      RowSumFinite(self, other, c, term, start, i, j - 1);
    }
  }

  lemma {:induction false} PairSumFinite(self: Matrix, other: Matrix, c: seq<string>, term: Pair -> Value, i: nat)
    requires Valid(self) && Valid(other) && i <= |c|
    requires forall x :: x in c ==> x in self.names && x in other.names
    requires forall p :: term(p).Finite?
    ensures PairSum(self, other, c, term, i).Finite?
  {
    if i > 0 {
      PairSumFinite(self, other, c, term, i - 1);
      RowSumFinite(self, other, c, term, PairSum(self, other, c, term, i - 1), i - 1, |c|);
    }
  }

  lemma {:induction false} RowSumOnSelf(m: Matrix, c: seq<string>, term: Pair -> Value, start: Value, i: nat, j: nat)
    requires Valid(m) && i < |c| && j <= |c|
    requires forall x :: x in c ==> x in m.names
    requires forall x {:trigger term([x, x])} :: term([x, x]) == Finite(0.0)
    ensures RowSum(m, m, c, term, start, i, j) == start
    decreases j
  {
    if j > i + 1 {
      RowSumOnSelf(m, c, term, start, i, j - 1);
    }
  }

  lemma {:induction false} PairSumOnSelf(m: Matrix, c: seq<string>, term: Pair -> Value, i: nat)
    requires Valid(m) && i <= |c|
    requires forall x :: x in c ==> x in m.names
    requires forall x {:trigger term([x, x])} :: term([x, x]) == Finite(0.0)
    ensures PairSum(m, m, c, term, i) == Finite(0.0)
  {
    if i > 0 {
      PairSumOnSelf(m, c, term, i - 1);
      RowSumOnSelf(m, c, term, Finite(0.0), i - 1, |c|);
    }
  }

  /** `p1_norm`. */
  function P1(self: Matrix, other: Matrix): Value
    requires Valid(self) && Valid(other) && |SelfOrderCommon(self.names, other.names)| >= 1
  {
    Total(self, other, AbsDifference)
  }

  /** `p2_norm` before the square root: the sum of squared differences over `n = k (k - 1) / 2`. */
  function P2Squared(self: Matrix, other: Matrix): Value
    requires Valid(self) && Valid(other) && |SelfOrderCommon(self.names, other.names)| >= 1
  {
    var c := SelfOrderCommon(self.names, other.names);
    AllTermsNonNegative();
    PairSumNonNegative(self, other, c, SquaredDifference, |c| - 1);
    Share(Total(self, other, SquaredDifference), Triangle(|c|))
  }

  /** `rel`: the sum of relative differences over `n = k (k - 1) / 2`. */
  function Rel(self: Matrix, other: Matrix): Value
    requires Valid(self) && Valid(other) && |SelfOrderCommon(self.names, other.names)| >= 1
  {
    var c := SelfOrderCommon(self.names, other.names);
    AllTermsNonNegative();
    PairSumNonNegative(self, other, c, RelativeDifference, |c| - 1);
    Share(Total(self, other, RelativeDifference), Triangle(|c|))
  }

  /** The sum of absolute differences is a finite value that is never negative, and 0 between a matrix and itself. */
  lemma P1Properties(self: Matrix, other: Matrix)
    requires Valid(self) && Valid(other) && |SelfOrderCommon(self.names, other.names)| >= 1
    ensures P1(self, other).Finite? && P1(self, other).v >= 0.0
    ensures self == other ==> P1(self, other) == Finite(0.0)
  {
    var c := SelfOrderCommon(self.names, other.names);
    AllTermsNonNegative();
    PairSumFinite(self, other, c, AbsDifference, |c| - 1);
    PairSumNonNegative(self, other, c, AbsDifference, |c| - 1);
    if self == other {
      AllDifferencesOnEqualValues();
      PairSumOnSelf(self, c, AbsDifference, |c| - 1);
    }
  }

  /** The mean squared difference is NaN exactly when a single name is shared, and otherwise a finite value that is never negative. */
  lemma P2Defined(self: Matrix, other: Matrix)
    requires Valid(self) && Valid(other) && |SelfOrderCommon(self.names, other.names)| >= 1
    ensures P2Squared(self, other).NotANumber? <==> |SelfOrderCommon(self.names, other.names)| == 1
    ensures !P2Squared(self, other).NotANumber? ==> P2Squared(self, other).Finite? && P2Squared(self, other).v >= 0.0
  {
    var c := SelfOrderCommon(self.names, other.names);
    AllTermsNonNegative();
    PairSumFinite(self, other, c, SquaredDifference, |c| - 1);
    PairSumNonNegative(self, other, c, SquaredDifference, |c| - 1);
    PairCountPositive(|c|);
    if |c| == 1 {
      assert Total(self, other, SquaredDifference) == Finite(0.0);
    }
  }

  /**
   * The mean squared difference is NaN exactly when a single name is shared;
   * otherwise it is a finite value that is never negative, and 0 between a
   * matrix and itself.
   */
  lemma P2Properties(self: Matrix, other: Matrix)
    requires Valid(self) && Valid(other) && |SelfOrderCommon(self.names, other.names)| >= 1
    ensures P2Squared(self, other).NotANumber? <==> |SelfOrderCommon(self.names, other.names)| == 1
    ensures !P2Squared(self, other).NotANumber? ==> P2Squared(self, other).Finite? && P2Squared(self, other).v >= 0.0
    ensures self == other && |SelfOrderCommon(self.names, other.names)| >= 2 ==> P2Squared(self, other) == Finite(0.0)
  {
    P2Defined(self, other);
    var c := SelfOrderCommon(self.names, other.names);
    if self == other && |c| >= 2 {
      AllDifferencesOnEqualValues();
      PairSumOnSelf(self, c, SquaredDifference, |c| - 1);
      PairCountPositive(|c|);
      ShareOfZero(Triangle(|c|));
    }
  }

  /** `rel` is NaN exactly when a pair gives 0/0 or a single name is shared. */
  lemma RelUndefined(self: Matrix, other: Matrix)
    requires Valid(self) && Valid(other) && |SelfOrderCommon(self.names, other.names)| >= 1
    ensures Rel(self, other).NotANumber? <==>
      Total(self, other, RelativeDifference).NotANumber? || |SelfOrderCommon(self.names, other.names)| == 1
  {
    var c := SelfOrderCommon(self.names, other.names);
    PairCountPositive(|c|);
    if |c| == 1 {
      assert Total(self, other, RelativeDifference) == Finite(0.0);
    }
  }

  // ---------------------------------------------------------------------------
  // The loops

  /** The inner loop of each measure: the pairs `(i, j)` with `j > i` added to `dist`. */
  method AccumulateRow(self: Matrix, other: Matrix, term: Pair -> Value, c: seq<string>,
                       selfMap: map<string, nat>, otherMap: map<string, nat>, i: nat, dist0: Value)
    returns (dist: Value)
    requires Valid(self) && Valid(other) && i < |c|
    requires forall x :: x in c ==> x in self.names && x in other.names
    requires selfMap == IndexMap(self.names) && otherMap == IndexMap(other.names)
    requires dist0 == PairSum(self, other, c, term, i)
    ensures dist == PairSum(self, other, c, term, i + 1)
  {
    dist := dist0;
    var name1 := c[i];
    for j := i + 1 to |c|
      invariant dist == RowSum(self, other, c, term, dist0, i, j)
    {
      var name2 := c[j];
      IndexMapBounds(self.names, name1);
      IndexMapBounds(self.names, name2);
      IndexMapBounds(other.names, name1);
      IndexMapBounds(other.names, name2);
      var d1 := Entry(self, selfMap[name1], selfMap[name2]);
      var d2 := Entry(other, otherMap[name1], otherMap[name2]);
      dist := Add([dist, term([d1, d2])]);
    }
  }

  /** The two nested loops of each measure, reading cells through the index maps. */
  method Accumulate(self: Matrix, other: Matrix, term: Pair -> Value) returns (dist: Value, size: nat)
    requires Valid(self) && Valid(other) && |SelfOrderCommon(self.names, other.names)| >= 1
    ensures dist == Total(self, other, term) && size == |SelfOrderCommon(self.names, other.names)|
  {
    var selfMap := MakeIndexMap(self.names);
    var otherMap := MakeIndexMap(other.names);
    var c := CommonInSelfOrder(self.names, otherMap);
    dist := Finite(0.0);
    for i := 0 to |c| - 1
      invariant dist == PairSum(self, other, c, term, i)
    {
      dist := AccumulateRow(self, other, term, c, selfMap, otherMap, i, dist);
    }
    size := |c|;
  }

  method P1Norm(self: Matrix, other: Matrix) returns (dist: Value)
    requires Valid(self) && Valid(other) && |SelfOrderCommon(self.names, other.names)| >= 1
    ensures dist == P1(self, other)
  {
    var size;
    dist, size := Accumulate(self, other, AbsDifference);
  }

  /** `p2_norm` up to the final `sqrt`. */
  method P2Norm(self: Matrix, other: Matrix) returns (r: Value)
    requires Valid(self) && Valid(other) && |SelfOrderCommon(self.names, other.names)| >= 1
    ensures r == P2Squared(self, other)
  {
    var dist, size := Accumulate(self, other, SquaredDifference);
    var n := PairCount(size);
    AllTermsNonNegative();
    PairSumNonNegative(self, other, SelfOrderCommon(self.names, other.names), SquaredDifference, size - 1);
    r := Share(dist, n);
  }

  method RelNorm(self: Matrix, other: Matrix) returns (r: Value)
    requires Valid(self) && Valid(other) && |SelfOrderCommon(self.names, other.names)| >= 1
    ensures r == Rel(self, other)
  {
    var dist, size := Accumulate(self, other, RelativeDifference);
    var n := PairCount(size);
    AllTermsNonNegative();
    PairSumNonNegative(self, other, SelfOrderCommon(self.names, other.names), RelativeDifference, size - 1);
    r := Share(dist, n);
  }

  // ---------------------------------------------------------------------------
  // mat_compare

  /** The name of the `i`-th input matrix, counted from 1: `"M" + to_string(i)`. */
  function MatrixName(i: nat): string
  {
    "M" + Phylip.Decimal(i)
  }

  /** The names `M1 .. Mk` of the comparison matrix. */
  function ComparisonNames(k: nat): (r: seq<string>)
    ensures |r| == k && forall i :: 0 <= i < k ==> r[i] == MatrixName(i + 1)
  {
    seq(k, i requires 0 <= i => MatrixName(i + 1))
  }

  /** Distinct numbers give distinct names. */
  lemma MatrixNameInjective(i: nat, j: nat)
    requires i != j
    ensures MatrixName(i) != MatrixName(j)
  {
    var a, b := Phylip.Decimal(i), Phylip.Decimal(j);
    assert MatrixName(i)[1..] == a && MatrixName(j)[1..] == b;
    Phylip.DecimalRoundTrip(i);
    Phylip.DecimalRoundTrip(j);
  }

  /** No two input matrices get the same name. */
  lemma ComparisonNamesUnique(k: nat)
    ensures Unique(ComparisonNames(k))
  {
    forall i, j | 0 <= i < j < k ensures ComparisonNames(k)[i] != ComparisonNames(k)[j] {
      MatrixNameInjective(i + 1, j + 1);
    }
  }

  /** Every pair of input matrices shares a name, as `p2_norm` needs. */
  ghost predicate Comparable(ms: seq<Matrix>)
  {
    && (forall i :: 0 <= i < |ms| ==> Valid(ms[i]))
    && (forall i, j :: 0 <= i < |ms| && 0 <= j < |ms| && i != j ==> |SelfOrderCommon(ms[i].names, ms[j].names)| >= 1)
  }

  /**
   * Cell `(i, j)` of the comparison matrix. Both cells of a pair are written
   * at `(i, j)` and again at `(j, i)`; the later write, with the larger index
   * as first argument, is the one that stays.
   */
  function ComparisonCell(ms: seq<Matrix>, i: nat, j: nat): Value
    requires Comparable(ms) && i < |ms| && j < |ms|
  {
    if i == j then Finite(0.0)
    else if i < j then P2Squared(ms[j], ms[i])
    else P2Squared(ms[i], ms[j])
  }

  /** The comparison matrix is symmetric, has a zero diagonal, and its cells are the measures of the pairs. */
  lemma ComparisonShape(ms: seq<Matrix>, i: nat, j: nat)
    requires Comparable(ms) && i < |ms| && j < |ms|
    ensures ComparisonCell(ms, i, j) == ComparisonCell(ms, j, i)
    ensures ComparisonCell(ms, i, i) == Finite(0.0)
    ensures i < j ==> ComparisonCell(ms, i, j) == P2Squared(ms[j], ms[i])
  {
  }

  /** What the output holds: the single `rel` value or the comparison matrix. */
  datatype Report = Relative(value: Value) | Full(names: seq<string>, cells: array2<Value>)

  /** Fewer than two input matrices is the only error. */
  datatype CompareError = TooFewMatrices

  /** Iteration `(x, y)` of the nested loops comes before iteration `(i, j)`. */
  predicate Done(i: nat, j: nat, x: nat, y: nat)
  {
    x < i || (x == i && y < j)
  }

  /**
   * Cell `(p, q)` once the iterations before `(i, j)` have run: the value of
   * the later of the two iterations that write the pair, or 0.
   */
  function Written(ms: seq<Matrix>, i: nat, j: nat, p: nat, q: nat): Value
    requires Comparable(ms) && p < |ms| && q < |ms|
  {
    var lo, hi := if p < q then p else q, if p < q then q else p;
    if p == q then Finite(0.0)
    else if Done(i, j, hi, lo) then P2Squared(ms[hi], ms[lo])
    else if Done(i, j, lo, hi) then P2Squared(ms[lo], ms[hi])
    else Finite(0.0)
  }

  /** Iteration `(i, j)` changes only the cells `(i, j)` and `(j, i)`, to the measure of `ms[i]` against `ms[j]`. */
  lemma WrittenStep(ms: seq<Matrix>, i: nat, j: nat, p: nat, q: nat)
    requires Comparable(ms) && i < |ms| && j < |ms| && p < |ms| && q < |ms|
    ensures (p, q) != (i, j) && (p, q) != (j, i) ==> Written(ms, i, j + 1, p, q) == Written(ms, i, j, p, q)
    ensures i != j && ((p, q) == (i, j) || (p, q) == (j, i)) ==> Written(ms, i, j + 1, p, q) == P2Squared(ms[i], ms[j])
    ensures i == j ==> Written(ms, i, j + 1, p, q) == Written(ms, i, j, p, q)
  {
  }

  /** One iteration of the inner loop of full mode. */
  method WritePair(ms: seq<Matrix>, a: array2<Value>, i: nat, j: nat)
    requires Comparable(ms) && a.Length0 == |ms| && a.Length1 == |ms| && i < |ms| && j < |ms|
    requires forall p, q :: 0 <= p < |ms| && 0 <= q < |ms| ==> a[p, q] == Written(ms, i, j, p, q)
    modifies a
    ensures forall p, q :: 0 <= p < |ms| && 0 <= q < |ms| ==> a[p, q] == Written(ms, i, j + 1, p, q)
  {
    if i != j {
      var d := P2Norm(ms[i], ms[j]);
      a[i, j] := d;
      a[j, i] := d;
    }
    forall p, q | 0 <= p < |ms| && 0 <= q < |ms| ensures a[p, q] == Written(ms, i, j + 1, p, q) {
      WrittenStep(ms, i, j, p, q);
    }
  }

  /** The inner loop of full mode for row `i`. */
  method FillComparisonRow(ms: seq<Matrix>, a: array2<Value>, i: nat)
    requires Comparable(ms) && a.Length0 == |ms| && a.Length1 == |ms| && i < |ms|
    requires forall p, q :: 0 <= p < |ms| && 0 <= q < |ms| ==> a[p, q] == Written(ms, i, 0, p, q)
    modifies a
    ensures forall p, q :: 0 <= p < |ms| && 0 <= q < |ms| ==> a[p, q] == Written(ms, i + 1, 0, p, q)
  {
    var size := |ms|;
    for j := 0 to size
      invariant forall p, q :: 0 <= p < size && 0 <= q < size ==> a[p, q] == Written(ms, i, j, p, q)
    {
      WritePair(ms, a, i, j);
    }
  }

  /** The nested loops of full mode, writing `cmpmat(i, j) = cmpmat(j, i)` for every `i != j`. */
  method FillComparison(ms: seq<Matrix>, a: array2<Value>)
    requires Comparable(ms) && a.Length0 == |ms| && a.Length1 == |ms|
    requires forall p, q :: 0 <= p < |ms| && 0 <= q < |ms| ==> a[p, q] == Finite(0.0)
    modifies a
    ensures forall p, q :: 0 <= p < |ms| && 0 <= q < |ms| ==> a[p, q] == ComparisonCell(ms, p, q)
  {
    var size := |ms|;
    for i := 0 to size
      invariant forall p, q :: 0 <= p < size && 0 <= q < size ==> a[p, q] == Written(ms, i, 0, p, q)
    {
      FillComparisonRow(ms, a, i);
    }
  }

  /** `mat_compare`: `rel` of the first two matrices, or with `full` the comparison matrix of all of them. */
  method MatCompareMain(ms: seq<Matrix>, full: bool) returns (r: Result<Report, CompareError>)
    requires |ms| >= 2 && !full ==> Valid(ms[0]) && Valid(ms[1]) && |SelfOrderCommon(ms[0].names, ms[1].names)| >= 1
    requires |ms| >= 2 && full ==> Comparable(ms)
    ensures r.Err? <==> |ms| < 2
    ensures r.Ok? && !full ==> r.value == Relative(Rel(ms[0], ms[1]))
    ensures r.Ok? && full ==> (r.value.Full? && fresh(r.value.cells)
      && r.value.names == ComparisonNames(|ms|)
      && r.value.cells.Length0 == |ms| && r.value.cells.Length1 == |ms|
      && forall p, q :: 0 <= p < |ms| && 0 <= q < |ms| ==> r.value.cells[p, q] == ComparisonCell(ms, p, q))
  {
    if |ms| < 2 {
      return Err(TooFewMatrices);
    }
    if !full {
      var v := RelNorm(ms[0], ms[1]);
      return Ok(Relative(v));
    }
    var size := |ms|;
    var names: seq<string> := [];
    for i := 1 to size + 1
      invariant names == ComparisonNames(i - 1)
    {
      names := names + [MatrixName(i)];
    }
    var a := new Value[size, size]((i, j) => Finite(0.0));
    FillComparison(ms, a);
    r := Ok(Full(names, a));
  }
}

/**
 * The older `mat mantel`: the same test as the current one, but its
 * statistic is the sum of products `Z` rather than a root-mean-square
 * difference, and its `normalize` rewrites the cells in two nested loops.
 * Its lower-triangle iterator is the cursor of `Cursors.LowerCursor`, and its
 * averaging loop is `Mantel.LowerTriangleAvg`.
 */
module MatMantel {
  import opened Wrappers
  import opened Names
  import opened Matrices
  import opened Floats
  import Mantel
  import Compare

  /**
   * `make_random_index_map`: the vector it shuffles is empty, so the shuffle
   * does nothing and the map is built exactly as `make_index_map` builds it.
   */
  method MakeRandomIndexMap(container: seq<string>) returns (m: map<string, nat>)
    ensures m == IndexMap(container)
    ensures forall x :: x in m <==> x in container
    ensures forall x :: x in container ==> m[x] == LastIndex(container, x)
  {
    m := MakeIndexMap(container);
    IndexMapLast(container);
  }

  // ---------------------------------------------------------------------------
  // normalize

  /** Rows below `i` are normalised; the rest still hold the cells of `m`. */
  ghost predicate NormalizedUpTo(m: Matrix, sd: real, a: array2<real>, i: nat, j: nat)
    requires Valid(m) && |m.names| >= 2 && sd != 0.0
    requires a.Length0 == |m.names| && a.Length1 == |m.names|
    reads a
  {
    forall p, q :: 0 <= p < |m.names| && 0 <= q < |m.names| ==>
      a[p, q] == if p < i || (p == i && q < j) then Mantel.Standardized(Entry(m, p, q), Mantel.LowerMean(m).v, sd)
                 else Entry(m, p, q)
  }

  /** The inner loop of `normalize` over row `i`. */
  method NormalizeRow(m: Matrix, sd: real, avg: real, a: array2<real>, i: nat)
    requires Valid(m) && |m.names| >= 2 && sd != 0.0 && avg == Mantel.LowerMean(m).v
    requires a.Length0 == |m.names| && a.Length1 == |m.names| && i < |m.names|
    requires NormalizedUpTo(m, sd, a, i, 0)
    modifies a
    ensures NormalizedUpTo(m, sd, a, i + 1, 0)
  {
    for j := 0 to |m.names|
      invariant NormalizedUpTo(m, sd, a, i, j)
    {
      a[i, j] := (a[i, j] - avg) / sd;
    }
  }

  /**
   * `normalize`: the lower-triangle average, then `ret.entry(i, j) =
   * (ret.entry(i, j) - avg) / sd` for every cell of a copy, diagonal included.
   */
  method NormalizeCells(m: Matrix, sd: real) returns (r: Matrix)
    requires Valid(m) && |m.names| >= 2 && sd != 0.0
    ensures r == Mantel.Normalized(m, sd)
  {
    var mean := Mantel.LowerTriangleAvg(m);
    var avg := mean.v;
    var a := ToCells(m);
    for i := 0 to |m.names|
      invariant NormalizedUpTo(m, sd, a, i, 0)
    {
      NormalizeRow(m, sd, avg, a, i);
    }
    var values := Cells(a);
    r := Matrix(m.names, values, m.coverages);
    MatrixEqual(r, Mantel.Normalized(m, sd));
  }

  // ---------------------------------------------------------------------------
  // Z over the self-ordered common names

  /** `Z`: the sum of products over the pairs of `self`'s names that `other` also has, in `self` order. */
  function ZValue(self: Matrix, other: Matrix): real
    requires Valid(self) && Valid(other) && |SelfOrderCommon(self.names, other.names)| >= 1
  {
    var names := SelfOrderCommon(self.names, other.names);
    Mantel.UpperTotal(Mantel.ProductTerm(self, other, names), |names|)
  }

  /** `Z` as the program computes it: index maps, the filtered names, then the `i < j` loops. */
  method Z(self: Matrix, other: Matrix) returns (dist: real)
    requires Valid(self) && Valid(other) && |SelfOrderCommon(self.names, other.names)| >= 1
    ensures dist == ZValue(self, other)
  {
    var otherMap := MakeIndexMap(other.names);
    var names := CommonInSelfOrder(self.names, otherMap);
    dist := Mantel.SumPairs(Mantel.ProductTerm(self, other, names), |names|);
  }

  /** Keeping the names present in a map that holds them all keeps every name. */
  lemma {:induction false} KeepAll(s: seq<string>, m: map<string, nat>)
    requires forall x :: x in s ==> x in m
    ensures KeepPresent(s, m) == s
  {
    if |s| > 0 {
      var init := s[..|s| - 1];
      assert forall x :: x in init ==> x in s;
      KeepAll(init, m);
      assert init + [s[|s| - 1]] == s;
    }
  }

  /** On two matrices with the same names, the self-ordered intersection is those names. */
  lemma SelfOrderOnSameNames(names: seq<string>)
    ensures SelfOrderCommon(names, names) == names
  {
    IndexMapLast(names);
    KeepAll(names, IndexMap(names));
  }

  /** `Z(m, m)` is a sum of squares, so never negative. */
  lemma ZSelfNonNegative(m: Matrix)
    requires Valid(m) && |m.names| >= 1
    ensures |SelfOrderCommon(m.names, m.names)| >= 1 && ZValue(m, m) >= 0.0
  {
    SelfOrderOnSameNames(m.names);
    var names := m.names;
    var f := Mantel.ProductTerm(m, m, names);
    forall a: nat, b: nat | a < b < |names| ensures f(a, b) >= 0.0 {
      var x := Lookup(m, names[a], names[b]);
      assert f(a, b) == Compare.Sq(x);
    }
    Mantel.PairTotalNonNegative(f, |names|, |names| - 1);
  }

  // ---------------------------------------------------------------------------
  // The trials

  /** The term of a trial: `s(i, j) * o(perm[i], perm[j])` by position. */
  function TrialTerm(s: Matrix, o: Matrix, perm: seq<nat>): (nat, nat) -> real
    requires Valid(s) && Valid(o) && |o.names| == |s.names| && Mantel.IsPermutation(perm, |s.names|)
  {
    var n := |s.names|;
    (i: nat, j: nat) => if i < n && j < n then Entry(s, i, j) * Entry(o, perm[i], perm[j]) else 0.0
  }

  /** A trial statistic: the sum of products under `perm`. */
  function TrialValue(s: Matrix, o: Matrix, perm: seq<nat>): real
    requires Valid(s) && Valid(o) && |o.names| == |s.names| >= 1 && Mantel.IsPermutation(perm, |s.names|)
  {
    Mantel.UpperTotal(TrialTerm(s, o, perm), |s.names|)
  }

  /** With distinct names, the identity permutation reproduces `Z`. */
  lemma IdentityTrial(s: Matrix, o: Matrix)
    requires Valid(s) && Valid(o) && s.names == o.names && |s.names| >= 1 && Unique(s.names)
    ensures |SelfOrderCommon(s.names, o.names)| >= 1
    ensures TrialValue(s, o, Mantel.Identity(|s.names|)) == ZValue(s, o)
  {
    var n := |s.names|;
    SelfOrderOnSameNames(s.names);
    var f := TrialTerm(s, o, Mantel.Identity(n));
    var g := Mantel.ProductTerm(s, o, s.names);
    forall a: nat, b: nat | a < b < n ensures f(a, b) == g(a, b) {
      IdentityTermIsProduct(s, o, a, b);
    }
    Mantel.PairTotalAgree(f, g, n, n - 1);
  }

  /** Under the identity, the trial term of a pair is the product `Z` adds for it. */
  lemma IdentityTermIsProduct(s: Matrix, o: Matrix, a: nat, b: nat)
    requires Valid(s) && Valid(o) && s.names == o.names && Unique(s.names) && a < b < |s.names|
    ensures TrialTerm(s, o, Mantel.Identity(|s.names|))(a, b) == Mantel.ProductTerm(s, o, s.names)(a, b)
  {
    LookupOwnName(s, a, b);
    LookupOwnName(o, a, b);
    assert TrialTerm(s, o, Mantel.Identity(|s.names|))(a, b) == Entry(s, a, b) * Entry(o, a, b);
  }

  /** With distinct names, looking up the names at positions `a` and `b` finds cell `(a, b)`. */
  lemma LookupOwnName(m: Matrix, a: nat, b: nat)
    requires Valid(m) && Unique(m.names) && a < |m.names| && b < |m.names|
    ensures Lookup(m, m.names[a], m.names[b]) == Entry(m, a, b)
  {
    IndexMapLast(m.names);
    IndexMapUnique(m.names, a);
    IndexMapUnique(m.names, b);
  }

  /** The trial values in order of the runs. */
  function TrialValues(s: Matrix, o: Matrix, perms: seq<seq<nat>>): (r: seq<real>)
    requires Valid(s) && Valid(o) && |o.names| == |s.names| >= 1
    requires forall k :: 0 <= k < |perms| ==> Mantel.IsPermutation(perms[k], |s.names|)
    ensures |r| == |perms| && forall k :: 0 <= k < |perms| ==> r[k] == TrialValue(s, o, perms[k])
  {
    seq(|perms|, k requires 0 <= k < |perms| => TrialValue(s, o, perms[k]))
  }

  /** The trial loop: one statistic per index vector, pushed onto `montecarlo` in order. */
  method RunTrials(s: Matrix, o: Matrix, perms: seq<seq<nat>>) returns (montecarlo: seq<real>)
    requires Valid(s) && Valid(o) && |o.names| == |s.names| >= 1
    requires forall k :: 0 <= k < |perms| ==> Mantel.IsPermutation(perms[k], |s.names|)
    ensures montecarlo == TrialValues(s, o, perms)
  {
    montecarlo := [];
    for runs := 0 to |perms|
      invariant |montecarlo| == runs
      invariant forall k :: 0 <= k < runs ==> montecarlo[k] == TrialValue(s, o, perms[k])
    {
      var dist := Mantel.SumPairs(TrialTerm(s, o, perms[runs]), |s.names|);
      montecarlo := montecarlo + [dist];
    }
  }

  // ---------------------------------------------------------------------------
  // A zero standard deviation

  /** The term of `Z` over the normalised cells as doubles: the product of the two entries by name. */
  function FlatProductTerm(s: Matrix, o: Matrix, sdSelf: real, sdOther: real, names: seq<string>): (nat, nat) -> Float
    requires Valid(s) && Valid(o) && |s.names| >= 2 && |o.names| >= 2
    requires forall x :: x in names ==> x in s.names && x in o.names
  {
    (i: nat, j: nat) =>
      if i < |names| && j < |names| then
        Mul(Mantel.NamedCell(s, sdSelf, names[i], names[j]), Mantel.NamedCell(o, sdOther, names[i], names[j]))
      else Finite(0.0)
  }

  /** `Z` over the normalised cells as doubles, over the pairs of `s`'s names that `o` also has. */
  function FlatZValue(s: Matrix, o: Matrix, sdSelf: real, sdOther: real): Float
    requires Valid(s) && Valid(o) && |s.names| >= 2 && |o.names| >= 2 && |SelfOrderCommon(s.names, o.names)| >= 1
  {
    var names := SelfOrderCommon(s.names, o.names);
    UpperSum(FlatProductTerm(s, o, sdSelf, sdOther, names), |names|)
  }

  /** `Z` as the program computes it, over the normalised cells as doubles. */
  method FlatZ(s: Matrix, o: Matrix, sdSelf: real, sdOther: real) returns (dist: Float)
    requires Valid(s) && Valid(o) && |s.names| >= 2 && |o.names| >= 2 && |SelfOrderCommon(s.names, o.names)| >= 1
    ensures dist == FlatZValue(s, o, sdSelf, sdOther)
  {
    var otherMap := MakeIndexMap(o.names);
    var names := CommonInSelfOrder(s.names, otherMap);
    dist := AddPairs(FlatProductTerm(s, o, sdSelf, sdOther, names), |names|);
  }

  /** The term of a trial over the normalised cells as doubles: `s(i, j) * o(perm[i], perm[j])`. */
  function FlatTrialTerm(s: Matrix, o: Matrix, sdSelf: real, sdOther: real, perm: seq<nat>): (nat, nat) -> Float
    requires Valid(s) && Valid(o) && |o.names| == |s.names| >= 2 && Mantel.IsPermutation(perm, |s.names|)
  {
    var n := |s.names|;
    (i: nat, j: nat) =>
      if i < n && j < n then Mul(Mantel.NormalizedCell(s, sdSelf, i, j), Mantel.NormalizedCell(o, sdOther, perm[i], perm[j]))
      else Finite(0.0)
  }

  /** The trial values over the normalised cells as doubles, in order of the runs. */
  function FlatTrialValues(s: Matrix, o: Matrix, sdSelf: real, sdOther: real, perms: seq<seq<nat>>): (r: seq<Float>)
    requires Valid(s) && Valid(o) && |o.names| == |s.names| >= 2
    requires forall k :: 0 <= k < |perms| ==> Mantel.IsPermutation(perms[k], |s.names|)
    ensures |r| == |perms|
    ensures forall k :: 0 <= k < |perms| ==> r[k] == UpperSum(FlatTrialTerm(s, o, sdSelf, sdOther, perms[k]), |s.names|)
  {
    seq(|perms|, k requires 0 <= k < |perms| => UpperSum(FlatTrialTerm(s, o, sdSelf, sdOther, perms[k]), |s.names|))
  }

  /** The trial loop over the normalised cells as doubles. */
  method FlatRunTrials(s: Matrix, o: Matrix, sdSelf: real, sdOther: real, perms: seq<seq<nat>>) returns (montecarlo: seq<Float>)
    requires Valid(s) && Valid(o) && |o.names| == |s.names| >= 2
    requires forall k :: 0 <= k < |perms| ==> Mantel.IsPermutation(perms[k], |s.names|)
    ensures montecarlo == FlatTrialValues(s, o, sdSelf, sdOther, perms)
  {
    montecarlo := [];
    for runs := 0 to |perms|
      invariant |montecarlo| == runs
      invariant forall k :: 0 <= k < runs ==> montecarlo[k] == UpperSum(FlatTrialTerm(s, o, sdSelf, sdOther, perms[k]), |s.names|)
    {
      var dist := AddPairs(FlatTrialTerm(s, o, sdSelf, sdOther, perms[runs]), |s.names|);
      montecarlo := montecarlo + [dist];
    }
  }

  /** Every cell equals its mirror across the diagonal. */
  ghost predicate Symmetric(m: Matrix)
    requires Valid(m)
  {
    forall i, j :: 0 <= i < |m.names| && 0 <= j < |m.names| ==> Entry(m, i, j) == Entry(m, j, i)
  }

  /** Projecting a symmetric matrix onto names it has gives a symmetric matrix. */
  lemma ProjectSymmetric(m: Matrix, names: seq<string>)
    requires Valid(m) && Symmetric(m) && forall x :: x in names ==> x in m.names
    ensures Symmetric(Project(m, names))
  {
    var r := Project(m, names);
    forall i, j | 0 <= i < |names| && 0 <= j < |names| ensures Entry(r, i, j) == Entry(r, j, i) {
      if IsLast(names, i) && IsLast(names, j) {
        var a, b := LastIndex(m.names, names[i]), LastIndex(m.names, names[j]);
        assert Entry(m, a, b) == Entry(m, b, a);
      }
    }
  }

  /**
   * On a symmetric matrix with distinct names whose deviation is 0, every
   * strict-lower and strict-upper cell is the average, so `normalize` makes
   * it `0 / 0`: NaN.
   */
  lemma FlatCellUndefined(m: Matrix, sd: real, i: nat, j: nat)
    requires Valid(m) && |m.names| >= 3 && Symmetric(m) && Mantel.IsStdDev(m, sd) && sd == 0.0
    requires i < |m.names| && j < |m.names| && i != j
    ensures Mantel.NormalizedCell(m, sd, i, j).Undefined?
  {
    Mantel.ZeroDeviationIsConstant(m, sd);
    if i < j {
      assert Entry(m, i, j) == Entry(m, j, i);
    }
  }

  // ---------------------------------------------------------------------------
  // mantel

  /** The p-value `mantel` returns for the index vectors `perms` the shuffles leave. */
  function MantelP(self: Matrix, other: Matrix, donormalize: bool, sdSelf: real, sdOther: real, perms: seq<seq<nat>>): Double
    requires Valid(self) && Valid(other) && Mantel.Ready(self, other, donormalize, sdSelf, sdOther)
    requires forall k :: 0 <= k < |perms| ==> Mantel.IsPermutation(perms[k], |CommonNames(self.names, other.names)|)
  {
    var p := Mantel.Prepared(self, other, donormalize, sdSelf, sdOther);
    SelfOrderOnSameNames(p.0.names);
    if Mantel.Flat(donormalize, sdSelf, sdOther) then
      Share(FlatTrialValues(p.0, p.1, sdSelf, sdOther, perms), FlatZValue(p.0, p.1, sdSelf, sdOther))
    else
      Mantel.PValue(TrialValues(p.0, p.1, perms), ZValue(p.0, p.1))
  }

  /** `sample2` onto the sorted common names, then the nested-loop `normalize` when asked. */
  method Prepare(self: Matrix, other: Matrix, donormalize: bool, sdSelf: real, sdOther: real) returns (s: Matrix, o: Matrix)
    requires Valid(self) && Valid(other) && Mantel.Ready(self, other, donormalize, sdSelf, sdOther)
    ensures (s, o) == Mantel.Prepared(self, other, donormalize, sdSelf, sdOther)
  {
    s, o := Compare.Sampled(self, other);
    if donormalize && !Mantel.Flat(donormalize, sdSelf, sdOther) {
      s := NormalizeCells(s, sdSelf);
      o := NormalizeCells(o, sdOther);
    }
  }

  /**
   * `mantel`: project onto the sorted intersection, optionally normalise,
   * compute `Z`, run the trials with the given index vectors, and return the
   * share of trials at least `Z`.
   */
  method MantelTest(self: Matrix, other: Matrix, donormalize: bool, sdSelf: real, sdOther: real, perms: seq<seq<nat>>)
    returns (p: Double)
    requires Valid(self) && Valid(other) && Mantel.Ready(self, other, donormalize, sdSelf, sdOther)
    requires |perms| == Mantel.Trials
    requires forall k :: 0 <= k < |perms| ==> Mantel.IsPermutation(perms[k], |CommonNames(self.names, other.names)|)
    ensures p == MantelP(self, other, donormalize, sdSelf, sdOther, perms)
    ensures p.Num? && 0.0 <= p.v <= 1.0
  {
    var s, o := Prepare(self, other, donormalize, sdSelf, sdOther);
    SelfOrderOnSameNames(s.names);
    if Mantel.Flat(donormalize, sdSelf, sdOther) {
      var orig := FlatZ(s, o, sdSelf, sdOther);
      var montecarlo := FlatRunTrials(s, o, sdSelf, sdOther, perms);
      // with NaN among the statistics `std::sort` has no order to keep; the
      // share counts the trials that do not compare below the observation
      p := Share(montecarlo, orig);
    } else {
      var orig := Z(s, o);
      var montecarlo := RunTrials(s, o, perms);
      p := Mantel.TailFraction(montecarlo, orig);
    }
  }

  /** With distinct names, trials under the identity all tie with `Z`, so p is 1. */
  lemma IdentityTrialsTie(s: Matrix, o: Matrix, perms: seq<seq<nat>>)
    requires Valid(s) && Valid(o) && s.names == o.names && |s.names| >= 1 && Unique(s.names) && |perms| >= 1
    requires forall k :: 0 <= k < |perms| ==> Mantel.IsPermutation(perms[k], |s.names|) && Mantel.InOrder(perms[k])
    ensures |SelfOrderCommon(s.names, o.names)| >= 1
    ensures Mantel.PValue(TrialValues(s, o, perms), ZValue(s, o)) == Num(1.0)
  {
    IdentityTrial(s, o);
    var trials := TrialValues(s, o, perms);
    forall k | 0 <= k < |perms| ensures trials[k] >= ZValue(s, o) {
      assert perms[k] == Mantel.Identity(|s.names|);
    }
    Mantel.AllReach(trials, ZValue(s, o));
  }

  /** Over the normalised cells as doubles too, trials under the identity all tie with `Z`. */
  lemma FlatIdentityTrialsTie(s: Matrix, o: Matrix, sdSelf: real, sdOther: real, perms: seq<seq<nat>>)
    requires Valid(s) && Valid(o) && s.names == o.names && |s.names| >= 2 && Unique(s.names) && |perms| >= 1
    requires forall k :: 0 <= k < |perms| ==> Mantel.IsPermutation(perms[k], |s.names|) && Mantel.InOrder(perms[k])
    ensures |SelfOrderCommon(s.names, o.names)| >= 1
    ensures Share(FlatTrialValues(s, o, sdSelf, sdOther, perms), FlatZValue(s, o, sdSelf, sdOther)) == Num(1.0)
  {
    FlatIdentityTrial(s, o, sdSelf, sdOther);
    var trials := FlatTrialValues(s, o, sdSelf, sdOther, perms);
    var orig := FlatZValue(s, o, sdSelf, sdOther);
    forall k | 0 <= k < |perms| ensures NotBelow(trials[k], orig) {
      assert perms[k] == Mantel.Identity(|s.names|);
    }
    ShareOfOne(trials, orig);
  }

  /** With distinct names, if every shuffle left the identity then p is 1. */
  lemma IdentityShufflesGiveOne(self: Matrix, other: Matrix, donormalize: bool, sdSelf: real, sdOther: real, perms: seq<seq<nat>>)
    requires Valid(self) && Valid(other) && Mantel.Ready(self, other, donormalize, sdSelf, sdOther)
    requires Unique(self.names) && |perms| >= 1
    requires forall k :: 0 <= k < |perms| ==>
      Mantel.IsPermutation(perms[k], |CommonNames(self.names, other.names)|) && Mantel.InOrder(perms[k])
    ensures MantelP(self, other, donormalize, sdSelf, sdOther, perms) == Num(1.0)
  {
    var p := Mantel.Prepared(self, other, donormalize, sdSelf, sdOther);
    CommonNamesUnique(self.names, other.names);
    if Mantel.Flat(donormalize, sdSelf, sdOther) {
      FlatIdentityTrialsTie(p.0, p.1, sdSelf, sdOther, perms);
    } else {
      IdentityTrialsTie(p.0, p.1, perms);
    }
  }

  /**
   * With a single common name the test is degenerate: no pair is summed, so
   * `Z` and every trial are 0, all trials tie with it, and `mantel` returns 1.
   */
  lemma SingleNameGivesOne(self: Matrix, other: Matrix, donormalize: bool, sdSelf: real, sdOther: real, perms: seq<seq<nat>>)
    requires Valid(self) && Valid(other) && Mantel.Ready(self, other, donormalize, sdSelf, sdOther)
    requires |CommonNames(self.names, other.names)| == 1 && |perms| >= 1
    requires forall k :: 0 <= k < |perms| ==> Mantel.IsPermutation(perms[k], |CommonNames(self.names, other.names)|)
    ensures MantelP(self, other, donormalize, sdSelf, sdOther, perms) == Num(1.0)
  {
    var p := Mantel.Prepared(self, other, donormalize, sdSelf, sdOther);
    SelfOrderOnSameNames(p.0.names);
    var trials := TrialValues(p.0, p.1, perms);
    assert ZValue(p.0, p.1) == 0.0;
    forall k | 0 <= k < |perms| ensures trials[k] >= ZValue(p.0, p.1) {
      assert trials[k] == Mantel.UpperTotal(TrialTerm(p.0, p.1, perms[k]), 1);
    }
    Mantel.AllReach(trials, ZValue(p.0, p.1));
  }

  /** With distinct names, the identity permutation reproduces `Z` over the normalised cells as doubles. */
  lemma FlatIdentityTrial(s: Matrix, o: Matrix, sdSelf: real, sdOther: real)
    requires Valid(s) && Valid(o) && s.names == o.names && |s.names| >= 2 && Unique(s.names)
    ensures |SelfOrderCommon(s.names, o.names)| >= 1
    ensures UpperSum(FlatTrialTerm(s, o, sdSelf, sdOther, Mantel.Identity(|s.names|)), |s.names|) == FlatZValue(s, o, sdSelf, sdOther)
  {
    var n := |s.names|;
    SelfOrderOnSameNames(s.names);
    var f := FlatTrialTerm(s, o, sdSelf, sdOther, Mantel.Identity(n));
    var g := FlatProductTerm(s, o, sdSelf, sdOther, s.names);
    forall a: nat, b: nat | a < b < n ensures f(a, b) == g(a, b) {
      NamedOwnCell(s, sdSelf, a, b);
      NamedOwnCell(o, sdOther, a, b);
    }
    PairFoldAgree(f, g, n, n - 1);
  }

  /**
   * On symmetric matrices with the same distinct names, a zero deviation on
   * either side makes the last pair `Z` adds NaN, and so `Z` itself.
   */
  lemma FlatZUndefined(s: Matrix, o: Matrix, sdSelf: real, sdOther: real)
    requires Valid(s) && Valid(o) && s.names == o.names && |s.names| >= 3 && Unique(s.names)
    requires Symmetric(s) && Symmetric(o) && Mantel.IsStdDev(s, sdSelf) && Mantel.IsStdDev(o, sdOther)
    requires sdSelf == 0.0 || sdOther == 0.0
    ensures |SelfOrderCommon(s.names, o.names)| >= 1 && FlatZValue(s, o, sdSelf, sdOther).Undefined?
  {
    var names, n := s.names, |s.names|;
    SelfOrderOnSameNames(names);
    if sdSelf == 0.0 {
      FlatCellUndefined(s, sdSelf, n - 2, n - 1);
    } else {
      FlatCellUndefined(o, sdOther, n - 2, n - 1);
    }
    NamedOwnCell(s, sdSelf, n - 2, n - 1);
    NamedOwnCell(o, sdOther, n - 2, n - 1);
    var f := FlatProductTerm(s, o, sdSelf, sdOther, names);
    assert f(n - 2, n - 1).Undefined?;
    LastPairUndefined(f, n);
  }

  /** With distinct names, the cell named by the names at positions `a` and `b` is cell `(a, b)`. */
  lemma NamedOwnCell(m: Matrix, sd: real, a: nat, b: nat)
    requires Valid(m) && |m.names| >= 2 && Unique(m.names) && a < |m.names| && b < |m.names|
    ensures Mantel.NamedCell(m, sd, m.names[a], m.names[b]) == Mantel.NormalizedCell(m, sd, a, b)
  {
    IndexMapLast(m.names);
    IndexMapUnique(m.names, a);
    IndexMapUnique(m.names, b);
  }

  /**
   * With distinct names and symmetric matrices, normalising a projection
   * whose lower triangle is constant turns its off-diagonal cells into NaN:
   * `Z` is NaN, nothing compares below it, and `mantel` returns 1.
   */
  lemma FlatSymmetricGivesOne(self: Matrix, other: Matrix, donormalize: bool, sdSelf: real, sdOther: real, perms: seq<seq<nat>>)
    requires Valid(self) && Valid(other) && Mantel.Ready(self, other, donormalize, sdSelf, sdOther)
    requires Mantel.Flat(donormalize, sdSelf, sdOther) && Unique(self.names) && Symmetric(self) && Symmetric(other)
    requires |perms| >= 1
    requires forall k :: 0 <= k < |perms| ==> Mantel.IsPermutation(perms[k], |CommonNames(self.names, other.names)|)
    ensures MantelP(self, other, donormalize, sdSelf, sdOther, perms) == Num(1.0)
  {
    var names := CommonNames(self.names, other.names);
    var p := Mantel.Prepared(self, other, donormalize, sdSelf, sdOther);
    CommonNamesUnique(self.names, other.names);
    ProjectSymmetric(self, names);
    ProjectSymmetric(other, names);
    FlatZUndefined(p.0, p.1, sdSelf, sdOther);
    var trials := FlatTrialValues(p.0, p.1, sdSelf, sdOther, perms);
    var orig := FlatZValue(p.0, p.1, sdSelf, sdOther);
    forall k | 0 <= k < |trials| ensures NotBelow(trials[k], orig) {
      NeverBelow(trials[k], orig);
    }
    ShareOfOne(trials, orig);
  }
}

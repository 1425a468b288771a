/**
 * The older `mat diff`: common names in the first matrix's order, cells read
 * through index maps, and only the upper triangle computed and mirrored.
 */
module MatDiff {
  import opened Wrappers
  import opened Names
  import opened Matrices

  /** Cell `(i, j)` of the result: 0 on the diagonal, otherwise the difference at the pair `i < j` taken in order. */
  function PairCell(self: Matrix, other: Matrix, c: seq<string>, i: nat, j: nat): real
    requires Valid(self) && Valid(other) && i < |c| && j < |c|
    requires forall x :: x in c ==> x in self.names && x in other.names
  {
    if i == j then 0.0
    else
      var lo, hi := if i < j then i else j, if i < j then j else i;
      Lookup(self, c[lo], c[hi]) - Lookup(other, c[lo], c[hi])
  }

  /** `diff(self, other)` of the older command. */
  function PairDifference(self: Matrix, other: Matrix): (r: Matrix)
    requires Valid(self) && Valid(other) && |SelfOrderCommon(self.names, other.names)| >= 1
    ensures Valid(r) && r.names == SelfOrderCommon(self.names, other.names) && r.coverages.None?
    ensures forall i, j :: 0 <= i < |r.names| && 0 <= j < |r.names| ==>
      Entry(r, i, j) == PairCell(self, other, r.names, i, j)
  {
    var c := SelfOrderCommon(self.names, other.names);
    var f := (i: nat, j: nat) => if i < |c| && j < |c| then PairCell(self, other, c, i, j) else 0.0;
    var r := Matrix(c, Tabulate(|c|, f), None);
    forall i, j | 0 <= i < |c| && 0 <= j < |c| ensures Valid(r) && Entry(r, i, j) == f(i, j) {
      EntryTabulate(c, f, None, i, j);
    }
    r
  }

  /**
   * The result is symmetric with a zero diagonal, whatever the inputs; above
   * the diagonal it holds `self(a, b) - other(a, b)` by name.
   */
  lemma PairDifferenceShape(self: Matrix, other: Matrix, i: nat, j: nat)
    requires Valid(self) && Valid(other) && |SelfOrderCommon(self.names, other.names)| >= 1
    requires i < |SelfOrderCommon(self.names, other.names)| && j < |SelfOrderCommon(self.names, other.names)|
    ensures var r := PairDifference(self, other);
      && Entry(r, i, j) == Entry(r, j, i)
      && Entry(r, i, i) == 0.0
      && (i < j ==> Entry(r, i, j) == Lookup(self, r.names[i], r.names[j]) - Lookup(other, r.names[i], r.names[j]))
  {
  }

  /** The filled cells after the rows above `i`, and the columns before `j` of row `i`. */
  ghost predicate FilledUpTo(self: Matrix, other: Matrix, c: seq<string>, a: array2<real>, i: nat, j: nat)
    requires Valid(self) && Valid(other) && a.Length0 == |c| && a.Length1 == |c|
    requires forall x :: x in c ==> x in self.names && x in other.names
    reads a
  {
    forall p, q :: 0 <= p < |c| && 0 <= q < |c| ==>
      a[p, q] == if (p < q && (p < i || (p == i && q < j))) || (q < p && (q < i || (q == i && p < j)))
                 then PairCell(self, other, c, p, q) else 0.0
  }

  /** The inner loop over `j > i`. */
  method FillRow(self: Matrix, other: Matrix, thisMap: map<string, nat>, otherMap: map<string, nat>,
                 c: seq<string>, a: array2<real>, i: nat)
    requires Valid(self) && Valid(other) && a.Length0 == |c| && a.Length1 == |c| && i < |c|
    requires forall x :: x in c ==> x in self.names && x in other.names
    requires thisMap == IndexMap(self.names) && otherMap == IndexMap(other.names)
    requires FilledUpTo(self, other, c, a, i, i + 1)
    modifies a
    ensures FilledUpTo(self, other, c, a, i + 1, i + 2)
  {
    IndexMapLast(self.names);
    IndexMapLast(other.names);
    var name1 := c[i];
    for j := i + 1 to |c|
      invariant FilledUpTo(self, other, c, a, i, j)
    {
      var name2 := c[j];
      var d1 := Entry(self, thisMap[name1], thisMap[name2]);
      var d2 := Entry(other, otherMap[name1], otherMap[name2]);
      assert d1 - d2 == PairCell(self, other, c, i, j);
      SetPair(self, other, c, a, i, j, d1 - d2);
    }
    FilledNextRow(self, other, c, a, i);
  }

  /** `ret.entry(i, j) = ret.entry(j, i) = d1 - d2`. */
  method SetPair(self: Matrix, other: Matrix, c: seq<string>, a: array2<real>, i: nat, j: nat, v: real)
    requires Valid(self) && Valid(other) && a.Length0 == |c| && a.Length1 == |c| && i < j < |c|
    requires forall x :: x in c ==> x in self.names && x in other.names
    requires FilledUpTo(self, other, c, a, i, j) && v == PairCell(self, other, c, i, j)
    modifies a
    ensures FilledUpTo(self, other, c, a, i, j + 1)
  {
    a[i, j] := v;
    a[j, i] := v;
  }

  /** A finished row `i` is the start of row `i + 1`. */
  lemma FilledNextRow(self: Matrix, other: Matrix, c: seq<string>, a: array2<real>, i: nat)
    requires Valid(self) && Valid(other) && a.Length0 == |c| && a.Length1 == |c| && i < |c|
    requires forall x :: x in c ==> x in self.names && x in other.names
    requires FilledUpTo(self, other, c, a, i, |c|)
    ensures FilledUpTo(self, other, c, a, i + 1, i + 2)
  {
  }

  /** `diff` of the older command; the loop bound `size - 1` needs a common name. */
  method DiffInSelfOrder(self: Matrix, other: Matrix) returns (r: Matrix)
    requires Valid(self) && Valid(other) && |SelfOrderCommon(self.names, other.names)| >= 1
    ensures r == PairDifference(self, other)
  {
    var thisMap := MakeIndexMap(self.names);
    var otherMap := MakeIndexMap(other.names);
    var c := CommonInSelfOrder(self.names, otherMap);
    var size := |c|;
    var a := new real[size, size]((i, j) => 0.0);
    for i := 0 to size - 1
      invariant FilledUpTo(self, other, c, a, i, i + 1)
    {
      FillRow(self, other, thisMap, otherMap, c, a, i);
    }
    r := FromCells(c, a);
    MatrixEqual(r, PairDifference(self, other));
  }
}

/**
 * `mat combine`: merge two matrices on their common names (in the first
 * matrix's order), taking per pair the value with the higher coverage when
 * both carry coverages, and the larger value otherwise.
 */
module Combine {
  import opened Wrappers
  import opened Names
  import opened Matrices

  /** `std::max(d1, d2)`: the second argument only when the first is smaller. */
  function Max(d1: real, d2: real): (r: real)
    ensures r >= d1 && r >= d2 && (r == d1 || r == d2)
  {
    if d1 < d2 then d2 else d1
  }

  /** The coverage of the pair `(a, b)`, looked up through the index map. */
  function CovLookup(m: Matrix, a: string, b: string): real
    requires Valid(m) && m.coverages.Some? && a in m.names && b in m.names
  {
    CovEntry(m, LastIndex(m.names, a), LastIndex(m.names, b)).value
  }

  /** The value chosen for the pair `(a, b)`. */
  function Choose(self: Matrix, other: Matrix, a: string, b: string): real
    requires Valid(self) && Valid(other) && a in self.names && b in self.names && a in other.names && b in other.names
  {
    var d1 := Lookup(self, a, b);
    var d2 := Lookup(other, a, b);
    if self.coverages.Some? && other.coverages.Some? then
      if CovLookup(self, a, b) > CovLookup(other, a, b) then d1 else d2
    else Max(d1, d2)
  }

  /** Cell `(i, j)` of the result: 0 on the diagonal, otherwise the choice for the pair taken in index order. */
  function CombinedCell(self: Matrix, other: Matrix, c: seq<string>, i: nat, j: nat): real
    requires Valid(self) && Valid(other) && i < |c| && j < |c|
    requires forall x :: x in c ==> x in self.names && x in other.names
  {
    if i == j then 0.0
    else if i < j then Choose(self, other, c[i], c[j])
    else Choose(self, other, c[j], c[i])
  }

  /** `combine(self, other)`. */
  function Combined(self: Matrix, other: Matrix): (r: Matrix)
    requires Valid(self) && Valid(other) && |SelfOrderCommon(self.names, other.names)| >= 1
    ensures Valid(r) && r.names == SelfOrderCommon(self.names, other.names) && r.coverages.None?
    ensures forall i, j :: 0 <= i < |r.names| && 0 <= j < |r.names| ==>
      Entry(r, i, j) == CombinedCell(self, other, r.names, i, j)
  {
    var c := SelfOrderCommon(self.names, other.names);
    var f := (i: nat, j: nat) => if i < |c| && j < |c| then CombinedCell(self, other, c, i, j) else 0.0;
    var r := Matrix(c, Tabulate(|c|, f), None);
    forall i, j | 0 <= i < |c| && 0 <= j < |c| ensures Valid(r) && Entry(r, i, j) == f(i, j) {
      EntryTabulate(c, f, None, i, j);
    }
    r
  }

  /** The result is symmetric, has a zero diagonal and carries no coverages. */
  lemma CombinedShape(self: Matrix, other: Matrix, i: nat, j: nat)
    requires Valid(self) && Valid(other) && |SelfOrderCommon(self.names, other.names)| >= 1
    requires i < |SelfOrderCommon(self.names, other.names)| && j < |SelfOrderCommon(self.names, other.names)|
    ensures var r := Combined(self, other);
      Entry(r, i, j) == Entry(r, j, i) && Entry(r, i, i) == 0.0 && r.coverages.None?
  {
  }

  /**
   * Above the diagonal: with coverages on both sides the first value wins
   * exactly when its coverage is strictly higher (a tie goes to the second);
   * without, the larger value wins.
   */
  lemma CombinedChoice(self: Matrix, other: Matrix, i: nat, j: nat)
    requires Valid(self) && Valid(other) && |SelfOrderCommon(self.names, other.names)| >= 1
    requires i < j < |SelfOrderCommon(self.names, other.names)|
    ensures var r := Combined(self, other);
      var a, b := r.names[i], r.names[j];
      && (self.coverages.Some? && other.coverages.Some? ==>
            (CovLookup(self, a, b) > CovLookup(other, a, b) ==> Entry(r, i, j) == Lookup(self, a, b))
            && (CovLookup(self, a, b) <= CovLookup(other, a, b) ==> Entry(r, i, j) == Lookup(other, a, b)))
      && (self.coverages.None? || other.coverages.None? ==>
            Entry(r, i, j) >= Lookup(self, a, b) && Entry(r, i, j) >= Lookup(other, a, b)
            && (Entry(r, i, j) == Lookup(self, a, b) || Entry(r, i, j) == Lookup(other, a, b)))
  {
  }

  /** Combining a matrix with itself reproduces its upper triangle, mirrored. */
  lemma CombineSelf(m: Matrix, i: nat, j: nat)
    requires Valid(m) && |SelfOrderCommon(m.names, m.names)| >= 1
    requires i < j < |SelfOrderCommon(m.names, m.names)|
    ensures var r := Combined(m, m);
      Entry(r, i, j) == Entry(r, j, i) == Lookup(m, r.names[i], r.names[j])
  {
  }

  /** The filled cells after the rows above `i`, and the columns before `j` of row `i`. */
  ghost predicate FilledUpTo(self: Matrix, other: Matrix, c: seq<string>, a: array2<real>, i: nat, j: nat)
    requires Valid(self) && Valid(other) && a.Length0 == |c| && a.Length1 == |c|
    requires forall x :: x in c ==> x in self.names && x in other.names
    reads a
  {
    forall p, q :: 0 <= p < |c| && 0 <= q < |c| ==>
      a[p, q] == if (p < q && (p < i || (p == i && q < j))) || (q < p && (q < i || (q == i && p < j)))
                 then CombinedCell(self, other, c, p, q) else 0.0
  }

  /** One pair, read through the index maps. */
  method Pick(self: Matrix, other: Matrix, thisMap: map<string, nat>, otherMap: map<string, nat>, name1: string, name2: string)
    returns (val: real)
    requires Valid(self) && Valid(other)
    requires name1 in self.names && name2 in self.names && name1 in other.names && name2 in other.names
    requires thisMap == IndexMap(self.names) && otherMap == IndexMap(other.names)
    ensures val == Choose(self, other, name1, name2)
  {
    IndexMapLast(self.names);
    IndexMapLast(other.names);
    var d1 := Entry(self, thisMap[name1], thisMap[name2]);
    var d2 := Entry(other, otherMap[name1], otherMap[name2]);
    if self.coverages.Some? && other.coverages.Some? {
      var c1 := CovEntry(self, thisMap[name1], thisMap[name2]).value;
      var c2 := CovEntry(other, otherMap[name1], otherMap[name2]).value;
      val := if c1 > c2 then d1 else d2;
    } else {
      val := Max(d1, d2);
    }
  }

  /** The inner loop over `j > i`. */
  method FillRow(self: Matrix, other: Matrix, thisMap: map<string, nat>, otherMap: map<string, nat>,
                 c: seq<string>, a: array2<real>, i: nat)
    requires Valid(self) && Valid(other) && a.Length0 == |c| && a.Length1 == |c| && i < |c|
    requires forall x :: x in c ==> x in self.names && x in other.names
    requires thisMap == IndexMap(self.names) && otherMap == IndexMap(other.names)
    requires FilledUpTo(self, other, c, a, i, i + 1)
    modifies a
    ensures FilledUpTo(self, other, c, a, i + 1, i + 2)
  {
    var name1 := c[i];
    for j := i + 1 to |c|
      invariant FilledUpTo(self, other, c, a, i, j)
    {
      var name2 := c[j];
      var val := Pick(self, other, thisMap, otherMap, name1, name2);
      a[i, j] := val;
      a[j, i] := val;
    }
  }

  /** `combine`; the loop bound `size - 1` needs a common name. */
  method CombineMatrices(self: Matrix, other: Matrix) returns (r: Matrix)
    requires Valid(self) && Valid(other) && |SelfOrderCommon(self.names, other.names)| >= 1
    ensures r == Combined(self, other)
  {
    var thisMap := MakeIndexMap(self.names);
    var otherMap := MakeIndexMap(other.names);
    var c := CommonInSelfOrder(self.names, otherMap);
    var size := |c|;
    var a := new real[size, size]((i, j) => 0.0);
    for i := 0 to size - 1
      invariant FilledUpTo(self, other, c, a, i, i + 1)
    {
      FillRow(self, other, thisMap, otherMap, c, a, i);
    }
    r := FromCells(c, a);
    MatrixEqual(r, Combined(self, other));
  }
}

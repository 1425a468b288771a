/**
 * `mat diff` (the current version): the cell-wise difference of two matrices
 * on their sorted common names, written by three square cursors moving in
 * lockstep.
 */
module Diff {
  import opened Wrappers
  import opened Names
  import opened Matrices
  import opened Cursors

  /** `diff(self, other)`: both matrices projected onto the sorted common names, then subtracted cell by cell. */
  function Difference(self: Matrix, other: Matrix): (r: Matrix)
    requires Valid(self) && Valid(other)
    ensures Valid(r) && r.names == CommonNames(self.names, other.names) && r.coverages.None?
    ensures forall p, q :: 0 <= p < |r.names| && 0 <= q < |r.names| ==>
      Entry(r, p, q) == Entry(Project(self, r.names), p, q) - Entry(Project(other, r.names), p, q)
  {
    var names := CommonNames(self.names, other.names);
    var s := Project(self, names);
    var o := Project(other, names);
    var f := (p: nat, q: nat) => if p < |names| && q < |names| then Entry(s, p, q) - Entry(o, p, q) else 0.0;
    var r := Matrix(names, Tabulate(|names|, f), None);
    forall p, q | 0 <= p < |names| && 0 <= q < |names| ensures Valid(r) && Entry(r, p, q) == f(p, q) {
      EntryTabulate(names, f, None, p, q);
    }
    r
  }

  /** Every cell of the result, diagonal included, is `self(a, b) - other(a, b)` looked up by name. */
  lemma DifferenceByName(self: Matrix, other: Matrix, a: string, b: string)
    requires Valid(self) && Valid(other)
    ensures var d := Difference(self, other);
      EntryByName(d, a, b).Some? <==> (a in self.names && a in other.names && b in self.names && b in other.names)
    ensures a in self.names && a in other.names && b in self.names && b in other.names ==>
      EntryByName(Difference(self, other), a, b) == Some(Lookup(self, a, b) - Lookup(other, a, b))
  {
    var names := CommonNames(self.names, other.names);
    var d := Difference(self, other);
    assert a in d.names <==> a in self.names && a in other.names;
    assert b in d.names <==> b in self.names && b in other.names;
    if a in names && b in names {
      SubtractedByName(d, self, other, names, a, b);
    }
  }

  /**
   * A matrix named by names both matrices hold, holding the difference of
   * their projections, holds that difference by name too.
   */
  lemma SubtractedByName(d: Matrix, self: Matrix, other: Matrix, names: seq<string>, a: string, b: string)
    requires Valid(d) && Valid(self) && Valid(other) && d.names == names
    requires forall x :: x in names ==> x in self.names && x in other.names
    requires forall p, q :: 0 <= p < |names| && 0 <= q < |names| ==>
      Entry(d, p, q) == Entry(Project(self, names), p, q) - Entry(Project(other, names), p, q)
    requires a in names && b in names
    ensures EntryByName(d, a, b) == Some(Lookup(self, a, b) - Lookup(other, a, b))
  {
    var p, q := LastIndex(names, a), LastIndex(names, b);
    assert IsLast(names, p) && IsLast(names, q);
    assert Entry(Project(self, names), p, q) == Lookup(self, a, b);
    assert Entry(Project(other, names), p, q) == Lookup(other, a, b);
    assert Entry(d, p, q) == Lookup(self, a, b) - Lookup(other, a, b);
  }

  /** A matrix differs from itself by zero everywhere. */
  lemma DifferenceSelf(m: Matrix)
    requires Valid(m)
    ensures var d := Difference(m, m);
      forall p, q :: 0 <= p < |d.names| && 0 <= q < |d.names| ==> Entry(d, p, q) == 0.0
  {
  }

  /** Swapping the arguments negates every cell and keeps the names. */
  lemma DifferenceAntisymmetric(a: Matrix, b: Matrix)
    requires Valid(a) && Valid(b)
    ensures Difference(a, b).names == Difference(b, a).names
    ensures var d, e := Difference(a, b), Difference(b, a);
      forall p, q :: 0 <= p < |d.names| && 0 <= q < |d.names| ==> Entry(d, p, q) == -Entry(e, p, q)
  {
    CommonNamesSymmetric(a.names, b.names);
  }

  /** The three cursors stand on the cell of step `t` of the square walk. */
  ghost predicate InStep(size: nat, t: nat, it: SquareCursor, selfIt: SquareCursor, otherIt: SquareCursor)
    reads it, selfIt, otherIt
  {
    it.size == size && selfIt.size == size && otherIt.size == size
    && Cell(it.row, it.col) == SquareAfter(size, t)
    && Cell(selfIt.row, selfIt.col) == SquareAfter(size, t)
    && Cell(otherIt.row, otherIt.col) == SquareAfter(size, t)
  }

  /** A walk that has not reached `end` has a step left, on a cell inside the matrix. */
  lemma StepLeft(size: nat, t: nat)
    requires t <= Square(size) && SquareAfter(size, t) != Cell(size, 0)
    ensures t < Square(size) && SquareAfter(size, t).row < size && SquareAfter(size, t).col < size
    ensures Pos(size, SquareAfter(size, t).row, SquareAfter(size, t).col) == t
  {
    if size > 0 {
      SquareWalkEnds(size);
    } else {
      SquareEmpty();
    }
    SquareWalk(size, t);
  }

  /** A walk standing on `end` has taken all `size * size` steps. */
  lemma WalkAtEnd(size: nat, t: nat)
    requires t <= Square(size) && SquareAfter(size, t) == Cell(size, 0)
    ensures t == Square(size)
  {
    if t < Square(size) {
      SquareWalk(size, t);
    }
  }

  /** The loop `for (it = begin_square(ret); it != end_square(ret); it++) *it = *self_it++ - *other_it++`. */
  method Subtract(s: Matrix, o: Matrix, a: array2<real>)
    requires Valid(s) && Valid(o) && s.names == o.names
    requires a.Length0 == |s.names| && a.Length1 == |s.names|
    modifies a
    ensures forall p, q :: 0 <= p < |s.names| && 0 <= q < |s.names| ==> a[p, q] == Entry(s, p, q) - Entry(o, p, q)
  {
    var size := |s.names|;
    var it := new SquareCursor.Begin(size);
    var selfIt := new SquareCursor.Begin(size);
    var otherIt := new SquareCursor.Begin(size);
    ghost var t := 0;
    while Cell(it.row, it.col) != Cell(size, 0)
      invariant t <= Square(size) && InStep(size, t, it, selfIt, otherIt)
      invariant forall p, q :: 0 <= p < size && 0 <= q < size && Pos(size, p, q) < t ==>
        a[p, q] == Entry(s, p, q) - Entry(o, p, q)
      decreases Square(size) - t
    {
      StepLeft(size, t);
      forall p, q | 0 <= p < size && 0 <= q < size && Pos(size, p, q) == t ensures p == it.row && q == it.col {
        CellInjective(size, p, q, it.row, it.col);
      }
      a[it.row, it.col] := Entry(s, selfIt.row, selfIt.col) - Entry(o, otherIt.row, otherIt.col);
      selfIt.Next();
      otherIt.Next();
      it.Next();
      t := t + 1;
    }
    WalkAtEnd(size, t);
    forall p, q | 0 <= p < size && 0 <= q < size ensures Pos(size, p, q) < t {
      CellIndex(size, p, q);
    }
  }

  /** `diff`: project both matrices onto the sorted common names, then subtract. */
  method DiffMatrices(self: Matrix, other: Matrix) returns (r: Matrix)
    requires Valid(self) && Valid(other)
    ensures r == Difference(self, other)
  {
    var names := CommonNames(self.names, other.names);
    var s := Sample2(self, names);
    var o := Sample2(other, names);
    var a := new real[|names|, |names|]((i, j) => 0.0);
    Subtract(s.value, o.value, a);
    r := FromCells(names, a);
    MatrixEqual(r, Difference(self, other));
  }
}

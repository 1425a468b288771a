/**
 * The `matrix` value type: `size` names, a row-major `size*size` buffer of
 * distances and optional coverages, looked up by index or by name; and
 * `sample2`, the projection of a matrix onto an ordered list of names.
 *
 * A `double` is modelled as a `real`. Algorithms that fill a buffer cell by
 * cell work on an `array2<real>` and hand back the flat row-major sequence
 * through `Cells`.
 */
module Matrices {
  import opened Wrappers
  import opened Names

  /** A distance matrix. `values[i*size+j]` is the distance from name `i` to name `j`. */
  datatype Matrix = Matrix(names: seq<string>, values: seq<real>, coverages: Option<seq<real>>)

  /**
   * `i * n`, the offset at which row `i` of an `n`-wide buffer starts (what
   * `row(i)` returns). It is written as a recursion so that index arithmetic
   * stays linear; `RowStartIsProduct` ties it to the product.
   */
  function RowStart(n: nat, i: nat): nat
  {
    if i == 0 then 0 else RowStart(n, i - 1) + n
  }

  /** `size * size`, the length of the buffer. */
  function Square(n: nat): nat
  {
    RowStart(n, n)
  }

  lemma {:induction false} RowStartIsProduct(n: nat, i: nat)
    ensures RowStart(n, i) == i * n
  {
    if i > 0 {
      RowStartIsProduct(n, i - 1);
      assert (i - 1) * n + n == i * n;
    }
  }

  /** The row a buffer position falls in (`idx / n`). */
  function RowOf(n: nat, idx: nat): nat
    requires n > 0
    decreases idx
  {
    if idx < n then 0 else 1 + RowOf(n, idx - n)
  }

  /** The sizes the constructors assert: `size*size` values (and coverages, when present). */
  ghost predicate Valid(m: Matrix)
  {
    |m.values| == Square(|m.names|)
    && (m.coverages.Some? ==> |m.coverages.value| == Square(|m.names|))
  }

  lemma {:induction false} RowStartMono(n: nat, i: nat, k: nat)
    requires i < k
    ensures RowStart(n, i) + n <= RowStart(n, k)
    decreases k
  {
    if i < k - 1 {
      RowStartMono(n, i, k - 1);
    }
  }

  /** Row-major position of cell `(i,j)` lies in the buffer. */
  lemma CellIndex(n: nat, i: nat, j: nat)
    requires i < n && j < n
    ensures RowStart(n, i) + j < Square(n)
  {
    RowStartMono(n, i, n);
  }

  /** `i * n + j`: the buffer position of cell `(i, j)`; it lies inside the buffer. */
  function Pos(n: nat, i: nat, j: nat): (p: nat)
    requires i < n && j < n
    ensures p < Square(n)
  {
    CellIndex(n, i, j);
    RowStart(n, i) + j
  }

  /** Distinct cells have distinct positions. */
  lemma CellInjective(n: nat, i: nat, j: nat, i': nat, j': nat)
    requires j < n && j' < n && RowStart(n, i) + j == RowStart(n, i') + j'
    ensures i == i' && j == j'
  {
    if i < i' {
      RowStartMono(n, i, i');
    } else if i' < i {
      RowStartMono(n, i', i);
    }
  }

  /** Every buffer position is the position of one cell, in row `RowOf(n, idx)`. */
  lemma {:induction false} CellOf(n: nat, idx: nat)
    requires idx < Square(n)
    ensures n > 0 && RowOf(n, idx) < n
    ensures RowStart(n, RowOf(n, idx)) <= idx < RowStart(n, RowOf(n, idx)) + n
  {
    RowOfBounds(n, idx);
    if RowOf(n, idx) >= n {
      if RowOf(n, idx) > n {
        RowStartMono(n, n, RowOf(n, idx));
      }
    }
  }

  lemma {:induction false} RowOfBounds(n: nat, idx: nat)
    requires n > 0
    ensures RowStart(n, RowOf(n, idx)) <= idx < RowStart(n, RowOf(n, idx)) + n
    decreases idx
  {
    if idx >= n {
      RowOfBounds(n, idx - n);
    }
  }

  /** Two row-major buffers that agree on every cell are equal. */
  lemma CellsEqual(n: nat, s: seq<real>, t: seq<real>)
    requires |s| == Square(n) && |t| == Square(n)
    requires forall i, j :: 0 <= i < n && 0 <= j < n ==> s[Pos(n, i, j)] == t[Pos(n, i, j)]
    ensures s == t
  {
    forall idx | 0 <= idx < Square(n) ensures s[idx] == t[idx] {
      CellOf(n, idx);
      var i := RowOf(n, idx);
      var j := idx - RowStart(n, i);
      assert s[Pos(n, i, j)] == t[Pos(n, i, j)];
    }
  }

  /** The row-major buffer whose cell `(i,j)` is `f(i,j)`. */
  function Tabulate(n: nat, f: (nat, nat) -> real): (r: seq<real>)
    ensures |r| == Square(n)
    ensures forall i, j :: 0 <= i < n && 0 <= j < n ==> r[Pos(n, i, j)] == f(i, j)
  {
    var r := seq(Square(n), idx requires 0 <= idx < Square(n) =>
      (CellOf(n, idx); f(RowOf(n, idx), idx - RowStart(n, RowOf(n, idx)))));
    forall i, j | 0 <= i < n && 0 <= j < n ensures r[Pos(n, i, j)] == f(i, j) {
      CellIndex(n, i, j);
      var idx := Pos(n, i, j);
      CellOf(n, idx);
      CellInjective(n, i, j, RowOf(n, idx), idx - RowStart(n, RowOf(n, idx)));
    }
    r
  }

  /** `entry(i, j)`: the value at `values[i*size+j]`. */
  function Entry(m: Matrix, i: nat, j: nat): real
    requires Valid(m) && i < |m.names| && j < |m.names|
  {
    CellIndex(|m.names|, i, j);
    m.values[Pos(|m.names|, i, j)]
  }

  /** `row(i)` .. `row_end(i)`: the slice `values[i*size .. (i+1)*size)` holds exactly row `i`. */
  function Row(m: Matrix, i: nat): (r: seq<real>)
    requires Valid(m) && i < |m.names|
    ensures |r| == |m.names|
    ensures forall j :: 0 <= j < |m.names| ==> r[j] == Entry(m, i, j)
  {
    var n := |m.names|;
    CellIndex(n, i, n - 1);
    m.values[RowStart(n, i) .. RowStart(n, i + 1)]
  }

  /** A buffer built by `Tabulate` has `f(i,j)` at `entry(i,j)`. */
  lemma EntryTabulate(names: seq<string>, f: (nat, nat) -> real, cov: Option<seq<real>>, i: nat, j: nat)
    requires i < |names| && j < |names|
    requires cov.Some? ==> |cov.value| == Square(|names|)
    ensures Valid(Matrix(names, Tabulate(|names|, f), cov))
    ensures Entry(Matrix(names, Tabulate(|names|, f), cov), i, j) == f(i, j)
  {
  }

  /** Two valid matrices with the same names, coverages and entries are the same matrix. */
  lemma MatrixEqual(m: Matrix, o: Matrix)
    requires Valid(m) && Valid(o) && m.names == o.names && m.coverages == o.coverages
    requires forall i, j :: 0 <= i < |m.names| && 0 <= j < |m.names| ==> Entry(m, i, j) == Entry(o, i, j)
    ensures m == o
  {
    var n := |m.names|;
    forall i, j | 0 <= i < n && 0 <= j < n ensures m.values[Pos(n, i, j)] == o.values[Pos(n, i, j)] {
      assert Entry(m, i, j) == Entry(o, i, j);
    }
    CellsEqual(n, m.values, o.values);
  }

  /** The two-argument constructor: `size*size` values and no coverages. */
  function NewMatrix(names: seq<string>, values: seq<real>): (m: Matrix)
    requires |values| == Square(|names|)
    ensures Valid(m) && m.names == names && m.coverages.None?
    ensures forall i, j :: 0 <= i < |names| && 0 <= j < |names| ==> Entry(m, i, j) == values[Pos(|names|, i, j)]
  {
    Matrix(names, values, None)
  }

  /** The three-argument constructor: values and coverages, both `size*size`. */
  function NewMatrixWithCoverages(names: seq<string>, values: seq<real>, coverages: seq<real>): (m: Matrix)
    requires |values| == Square(|names|) && |coverages| == Square(|names|)
    ensures Valid(m) && m.names == names && m.coverages == Some(coverages)
    ensures forall i, j :: 0 <= i < |names| && 0 <= j < |names| ==> Entry(m, i, j) == values[Pos(|names|, i, j)]
  {
    Matrix(names, values, Some(coverages))
  }

  /** `cov_entry(i, j)`: throws "no coverages." (here `None`) on a matrix built without them. */
  function CovEntry(m: Matrix, i: nat, j: nat): (r: Option<real>)
    requires Valid(m) && i < |m.names| && j < |m.names|
    ensures r.None? <==> m.coverages.None?
    ensures r.Some? ==> r.value == m.coverages.value[Pos(|m.names|, i, j)]
  {
    if m.coverages.None? then None
    else
      CellIndex(|m.names|, i, j);
      Some(m.coverages.value[Pos(|m.names|, i, j)])
  }

  /**
   * `entry(ni, nj)`: both names go through `name_map.at`, which throws
   * `out_of_range` (here `None`) for an absent name; a name listed twice
   * resolves to its last index.
   */
  function EntryByName(m: Matrix, a: string, b: string): (r: Option<real>)
    requires Valid(m)
    ensures r.Some? <==> a in m.names && b in m.names
    ensures r.Some? ==> r.value == Entry(m, LastIndex(m.names, a), LastIndex(m.names, b))
  {
    var index := IndexMap(m.names);
    IndexMapLast(m.names);
    if a in index && b in index then Some(Entry(m, index[a], index[b])) else None
  }

  /** The value `entry(a, b)` returns when both names are present. */
  function Lookup(m: Matrix, a: string, b: string): real
    requires Valid(m) && a in m.names && b in m.names
  {
    Entry(m, LastIndex(m.names, a), LastIndex(m.names, b))
  }

  /** Reading a cell through the index map of the names is `Lookup`. */
  lemma LookupThroughMap(m: Matrix, index: map<string, nat>, a: string, b: string)
    requires Valid(m) && index == IndexMap(m.names) && a in m.names && b in m.names
    ensures a in index && b in index && index[a] < |m.names| && index[b] < |m.names|
    ensures Entry(m, index[a], index[b]) == Lookup(m, a, b)
  {
    IndexMapLast(m.names);
  }

  /** Position `p` holds the last occurrence of its name. */
  predicate IsLast(s: seq<string>, p: nat)
    requires p < |s|
  {
    LastIndex(s, s[p]) == p
  }

  /**
   * What `sample2(self, list)` returns: a matrix named by `list` (without
   * coverages) whose cell `(p, q)` is `self.entry(list[p], list[q])` when `p` and
   * `q` are the last positions of their names in `list`, and 0 otherwise (the
   * writes go through the new matrix's name map, which keeps the last index).
   */
  function Project(self: Matrix, list: seq<string>): (r: Matrix)
    requires Valid(self) && forall x :: x in list ==> x in self.names
    ensures Valid(r) && r.names == list && r.coverages.None?
    ensures forall p, q :: 0 <= p < |list| && 0 <= q < |list| ==>
      Entry(r, p, q) == if IsLast(list, p) && IsLast(list, q) then Lookup(self, list[p], list[q]) else 0.0
  {
    var k := |list|;
    var f := (p: nat, q: nat) =>
      if p < k && q < k && IsLast(list, p) && IsLast(list, q) then Lookup(self, list[p], list[q]) else 0.0;
    var r := Matrix(list, Tabulate(k, f), None);
    forall p, q | 0 <= p < k && 0 <= q < k
      ensures Entry(r, p, q) == if IsLast(list, p) && IsLast(list, q) then Lookup(self, list[p], list[q]) else 0.0
    {
      EntryTabulate(list, f, None, p, q);
    }
    r
  }

  /** Every pair of listed names reads in the projection what it reads in `self`. */
  lemma ProjectByName(self: Matrix, list: seq<string>, a: string, b: string)
    requires Valid(self) && forall x :: x in list ==> x in self.names
    requires a in list && b in list
    ensures EntryByName(Project(self, list), a, b) == EntryByName(self, a, b)
  {
    var p, q := LastIndex(list, a), LastIndex(list, b);
    assert IsLast(list, p) && IsLast(list, q);
  }

  /** Projecting a matrix onto its own unique names, in their order, gives back the matrix. */
  lemma ProjectOwnNames(m: Matrix)
    requires Valid(m) && Unique(m.names) && m.coverages.None?
    ensures Project(m, m.names) == m
  {
    var r := Project(m, m.names);
    forall i, j | 0 <= i < |m.names| && 0 <= j < |m.names| ensures Entry(r, i, j) == Entry(m, i, j) {
      var li, lj := LastIndex(m.names, m.names[i]), LastIndex(m.names, m.names[j]);
      assert li == i && lj == j;
    }
    MatrixEqual(r, m);
  }

  /** The flat row-major buffer of a square working array. */
  method Cells(a: array2<real>) returns (s: seq<real>)
    requires a.Length0 == a.Length1
    ensures |s| == Square(a.Length0)
    ensures forall i, j :: 0 <= i < a.Length0 && 0 <= j < a.Length0 ==> s[Pos(a.Length0, i, j)] == a[i, j]
  {
    var n := a.Length0;
    s := seq(Square(n), idx requires 0 <= idx < Square(n) reads a =>
      (CellOf(n, idx); a[RowOf(n, idx), idx - RowStart(n, RowOf(n, idx))]));
    forall i, j | 0 <= i < n && 0 <= j < n ensures s[Pos(n, i, j)] == a[i, j] {
      CellIndex(n, i, j);
      var idx := Pos(n, i, j);
      CellOf(n, idx);
      CellInjective(n, i, j, RowOf(n, idx), idx - RowStart(n, RowOf(n, idx)));
    }
  }

  /** A matrix named `names` holding a working array. */
  method FromCells(names: seq<string>, a: array2<real>) returns (m: Matrix)
    requires a.Length0 == |names| && a.Length1 == |names|
    ensures Valid(m) && m.names == names && m.coverages.None?
    ensures forall i, j :: 0 <= i < |names| && 0 <= j < |names| ==> Entry(m, i, j) == a[i, j]
  {
    var s := Cells(a);
    m := Matrix(names, s, None);
  }

  /** A working array holding the cells of `m`. */
  method ToCells(m: Matrix) returns (a: array2<real>)
    requires Valid(m)
    ensures fresh(a) && a.Length0 == |m.names| && a.Length1 == |m.names|
    ensures forall i, j :: 0 <= i < |m.names| && 0 <= j < |m.names| ==> a[i, j] == Entry(m, i, j)
  {
    var n := |m.names|;
    a := new real[n, n]((i: nat, j: nat) => if i < n && j < n then Entry(m, i, j) else 0.0);
  }

  /** `name_map.at(x)` over `self`'s names; absent names yield `None` (`out_of_range`). */
  function At(index: map<string, nat>, x: string): Option<nat>
  {
    if x in index then Some(index[x]) else None
  }

  /** `self.entry(a, b)` where both names are present, 0 otherwise. */
  function Total(self: Matrix, a: string, b: string): real
    requires Valid(self)
  {
    if a in self.names && b in self.names then Lookup(self, a, b) else 0.0
  }

  /**
   * The state of `sample2`'s buffer once the pairs `(list[i'], _)` for `i' < i`
   * and `(list[i], list[j'])` for `j' < j` are written.
   */
  ghost predicate Written(self: Matrix, list: seq<string>, a: array2<real>, i: nat, j: nat)
    requires Valid(self) && a.Length0 == |list| && a.Length1 == |list| && i <= |list| && j <= |list|
    reads a
  {
    forall p, q :: 0 <= p < |list| && 0 <= q < |list| ==> a[p, q] == Expected(self, list, i, j, p, q)
  }

  ghost function Expected(self: Matrix, list: seq<string>, i: nat, j: nat, p: nat, q: nat): real
    requires Valid(self) && i <= |list| && j <= |list| && p < |list| && q < |list|
  {
    if IsLast(list, p) && IsLast(list, q)
       && (FirstIndex(list, list[p]) < i || (i < |list| && list[p] == list[i] && FirstIndex(list, list[q]) < j))
    then Total(self, list[p], list[q])
    else 0.0
  }

  /** `ret.entry(list[i], list[j]) = self.entry(list[i], list[j])`, through `ret`'s name map. */
  method Sample2Cell(self: Matrix, list: seq<string>, a: array2<real>, i: nat, j: nat, p0: nat, q0: nat, v: real)
    requires Valid(self) && i < |list| && j < |list| && a.Length0 == |list| && a.Length1 == |list|
    requires list[i] in self.names && list[j] in self.names && v == Lookup(self, list[i], list[j])
    requires p0 == LastIndex(list, list[i]) && q0 == LastIndex(list, list[j])
    requires Written(self, list, a, i, j)
    modifies a
    ensures Written(self, list, a, i, j + 1)
  {
    label Before:
    a[p0, q0] := v;
    forall p, q | 0 <= p < |list| && 0 <= q < |list| ensures a[p, q] == Expected(self, list, i, j + 1, p, q) {
      if p != p0 || q != q0 {
        assert a[p, q] == old@Before(a[p, q]) == Expected(self, list, i, j, p, q);
      }
    }
  }

  /** A finished row `i` is the start of row `i + 1`. */
  lemma WrittenNextRow(self: Matrix, list: seq<string>, a: array2<real>, i: nat)
    requires Valid(self) && i < |list| && a.Length0 == |list| && a.Length1 == |list|
    requires Written(self, list, a, i, |list|)
    ensures Written(self, list, a, i + 1, 0)
  {
    forall p, q | 0 <= p < |list| && 0 <= q < |list|
      ensures Expected(self, list, i, |list|, p, q) == Expected(self, list, i + 1, 0, p, q)
    {
      var f, g := FirstIndex(list, list[p]), FirstIndex(list, list[q]);
      assert g < |list|;
      assert f < i + 1 <==> (f < i || list[p] == list[i]);
    }
  }

  /** One pass of the inner loop of `sample2`, for `name1 = list[i]`. */
  method Sample2Row(self: Matrix, list: seq<string>, retIndex: map<string, nat>, a: array2<real>, i: nat)
    returns (ok: bool)
    requires Valid(self) && retIndex == IndexMap(list) && i < |list|
    requires a.Length0 == |list| && a.Length1 == |list|
    requires i > 0 ==> forall x :: x in list ==> x in self.names
    requires Written(self, list, a, i, 0)
    modifies a
    ensures ok <==> forall x :: x in list ==> x in self.names
    ensures ok ==> Written(self, list, a, i + 1, 0)
  {
    var k := |list|;
    IndexMapLast(list);
    for j := 0 to k
      invariant i == 0 ==> forall t :: 0 <= t < j ==> list[t] in self.names
      invariant Written(self, list, a, i, j)
    {
      var name1, name2 := list[i], list[j];
      var v := EntryByName(self, name1, name2);
      if v.None? {
        return false;
      }
      Sample2Cell(self, list, a, i, j, retIndex[name1], retIndex[name2], v.value);
    }
    WrittenNextRow(self, list, a, i);
    assert forall x :: x in list ==> x in self.names by {
      if i == 0 {
        forall x | x in list ensures x in self.names {
          var t :| 0 <= t < k && list[t] == x;
        }
      }
    }
    return true;
  }

  /**
   * `sample2(self, first, last)`: a zero matrix named by the list, then for every
   * ordered pair of listed names `ret.entry(n1, n2) = self.entry(n1, n2)`. An
   * absent name makes `self.entry` throw, which is reported as `None`; every
   * absent name is met while the first list name is `name1`.
   */
  method Sample2(self: Matrix, list: seq<string>) returns (r: Option<Matrix>)
    requires Valid(self)
    ensures r.Some? <==> forall x :: x in list ==> x in self.names
    ensures r.Some? ==> r.value == Project(self, list)
  {
    var k := |list|;
    var retIndex := MakeIndexMap(list);
    var a := new real[k, k]((_, _) => 0.0);
    for i := 0 to k
      invariant i > 0 ==> forall x :: x in list ==> x in self.names
      invariant Written(self, list, a, i, 0)
    {
      var ok := Sample2Row(self, list, retIndex, a, i);
      if !ok {
        return None;
      }
    }
    var m := FromCells(list, a);
    MatrixEqual(m, Project(self, list));
    r := Some(m);
  }
}

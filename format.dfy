/**
 * `mat format`: repairing (`fix`) and checking (`validate`) a distance
 * matrix, reordering it by name (`sort`), and reading the separator argument
 * (`unescape`).
 *
 * `PRECISION` is a global the `--precision` option sets; here it is the
 * parameter `p` of every operation that compares entries.
 */
module MatFormat {
  import opened Wrappers
  import opened Names
  import opened Matrices

  // ---------------------------------------------------------------------------
  // close_enough

  /** `close_enough(a, b)`: `b` lies within the relative tolerance `p` around `a`. */
  predicate CloseEnough(p: real, a: real, b: real)
  {
    a * (1.0 - p) <= b && b <= a * (1.0 + p)
  }

  /** With a positive tolerance an entry is close to itself exactly when it is not negative. */
  lemma CloseEnoughSelf(p: real, a: real)
    requires p >= 0.0
    ensures a >= 0.0 ==> CloseEnough(p, a, a)
    ensures p > 0.0 && CloseEnough(p, a, a) ==> a >= 0.0
  {
    if a >= 0.0 {
      assert a * p >= 0.0;
    }
    if p > 0.0 && a < 0.0 {
      assert a * p < 0.0;
    }
  }

  /** The relation is not symmetric: 0.5 is close to 1 at tolerance 0.5, but 1 is not close to 0.5. */
  lemma CloseEnoughNotSymmetric()
    ensures CloseEnough(0.5, 1.0, 0.5) && !CloseEnough(0.5, 0.5, 1.0)
  {
  }

  /** For `0 <= p < 1` only zero itself is close to 0. */
  lemma CloseEnoughZero(p: real, x: real)
    requires 0.0 <= p < 1.0
    ensures CloseEnough(p, x, 0.0) <==> x == 0.0
  {
    if x > 0.0 {
      assert x * (1.0 - p) > 0.0;
    }
    if x < 0.0 {
      assert x * (1.0 + p) < 0.0;
    }
  }

  // ---------------------------------------------------------------------------
  // fix

  /** The first pass: a negative entry becomes 0. */
  function Clamp(x: real): (r: real)
    ensures r >= 0.0 && (x >= 0.0 ==> r == x)
  {
    if x < 0.0 then 0.0 else x
  }

  /** The third pass on one cell of the pair `lower = (i,j)`, `upper = (j,i)`, `i > j`. */
  function Averaged(p: real, lower: real, upper: real, own: real): real
  {
    if CloseEnough(p, lower, upper) then own else (lower + upper) / 2.0
  }

  /** Cell `(i, j)` after the first two passes. */
  function Cleaned(m: Matrix, i: nat, j: nat): (r: real)
    requires Valid(m) && i < |m.names| && j < |m.names|
    ensures r >= 0.0 && (i == j ==> r == 0.0)
  {
    if i == j then 0.0 else Clamp(Entry(m, i, j))
  }

  /** Cell `(i, j)` of `fix(m)`. */
  function FixedCell(m: Matrix, p: real, i: nat, j: nat): real
    requires Valid(m) && i < |m.names| && j < |m.names|
  {
    if i == j then 0.0
    else if j < i then Averaged(p, Cleaned(m, i, j), Cleaned(m, j, i), Cleaned(m, i, j))
    else Averaged(p, Cleaned(m, j, i), Cleaned(m, i, j), Cleaned(m, i, j))
  }

  /** `fix(m)`: names and coverages are kept, every entry is replaced by its fixed value. */
  function Fixed(m: Matrix, p: real): (r: Matrix)
    requires Valid(m)
    ensures Valid(r) && r.names == m.names && r.coverages == m.coverages
    ensures forall i, j :: 0 <= i < |m.names| && 0 <= j < |m.names| ==> Entry(r, i, j) == FixedCell(m, p, i, j)
  {
    var n := |m.names|;
    var r := Matrix(m.names, Tabulate(n, (i: nat, j: nat) => if i < n && j < n then FixedCell(m, p, i, j) else 0.0), m.coverages);
    forall i, j | 0 <= i < n && 0 <= j < n ensures Entry(r, i, j) == FixedCell(m, p, i, j) {
      EntryTabulate(m.names, (i: nat, j: nat) => if i < n && j < n then FixedCell(m, p, i, j) else 0.0, m.coverages, i, j);
    }
    r
  }

  /**
   * A fixed matrix has no negative entry and a zero diagonal; a pair that is
   * close enough keeps its (clamped) entries, any other pair gets their
   * average in both cells.
   */
  lemma FixedEntries(m: Matrix, p: real, i: nat, j: nat)
    requires Valid(m) && i < |m.names| && j < |m.names|
    ensures var f := Fixed(m, p);
      Entry(f, i, j) >= 0.0 && Entry(f, i, i) == 0.0
      && (j < i && CloseEnough(p, Cleaned(m, i, j), Cleaned(m, j, i)) ==>
            Entry(f, i, j) == Clamp(Entry(m, i, j)) && Entry(f, j, i) == Clamp(Entry(m, j, i)))
      && (j < i && !CloseEnough(p, Cleaned(m, i, j), Cleaned(m, j, i)) ==>
            Entry(f, i, j) == Entry(f, j, i) == (Clamp(Entry(m, i, j)) + Clamp(Entry(m, j, i))) / 2.0)
  {
  }

  /** With a non-negative tolerance, fixing a fixed matrix changes nothing. */
  lemma FixIdempotent(m: Matrix, p: real)
    requires Valid(m) && p >= 0.0
    ensures Fixed(Fixed(m, p), p) == Fixed(m, p)
  {
    var f := Fixed(m, p);
    var g := Fixed(f, p);
    forall i, j | 0 <= i < |m.names| && 0 <= j < |m.names| ensures Entry(g, i, j) == Entry(f, i, j) {
      FixedEntries(m, p, i, j);
      FixedEntries(m, p, j, i);
      if i != j {
        var lo, up := if j < i then i else j, if j < i then j else i;
        assert Cleaned(f, lo, up) == Entry(f, lo, up) && Cleaned(f, up, lo) == Entry(f, up, lo);
        if !CloseEnough(p, Cleaned(m, lo, up), Cleaned(m, up, lo)) {
          CloseEnoughSelf(p, Entry(f, lo, up));
        }
      }
    }
    MatrixEqual(g, f);
  }

  /** The first pass of `fix`. */
  method ClampNegatives(a: array2<real>)
    modifies a
    ensures forall i, j :: 0 <= i < a.Length0 && 0 <= j < a.Length1 ==> a[i, j] == Clamp(old(a[i, j]))
  {
    for i := 0 to a.Length0
      invariant forall x, y :: 0 <= x < a.Length0 && 0 <= y < a.Length1 ==>
        a[x, y] == if x < i then Clamp(old(a[x, y])) else old(a[x, y])
    {
      for j := 0 to a.Length1
        invariant forall x, y :: 0 <= x < a.Length0 && 0 <= y < a.Length1 ==>
          a[x, y] == if x < i || (x == i && y < j) then Clamp(old(a[x, y])) else old(a[x, y])
      {
        if a[i, j] < 0.0 {
          a[i, j] := 0.0;
        }
      }
    }
  }

  /** The second pass of `fix`. */
  method ZeroDiagonal(a: array2<real>)
    requires a.Length0 == a.Length1
    modifies a
    ensures forall i, j :: 0 <= i < a.Length0 && 0 <= j < a.Length1 ==> a[i, j] == if i == j then 0.0 else old(a[i, j])
  {
    for i := 0 to a.Length0
      invariant forall x, y :: 0 <= x < a.Length0 && 0 <= y < a.Length1 ==>
        a[x, y] == if x == y && x < i then 0.0 else old(a[x, y])
    {
      if a[i, i] != 0.0 {
        a[i, i] := 0.0;
      }
    }
  }

  /** The value the third pass gives cell `(x, y)` of a matrix whose cells were `b` before it. */
  ghost function Paired(p: real, b: array2<real>, x: nat, y: nat): real
    requires x < b.Length0 && y < b.Length0 && b.Length0 == b.Length1
    reads b
  {
    if x == y then b[x, y]
    else if y < x then Averaged(p, b[x, y], b[y, x], b[x, y])
    else Averaged(p, b[y, x], b[x, y], b[x, y])
  }

  /** The third pass of `fix`: each pair below the diagonal, in row-major order. */
  method AverageAsymmetric(a: array2<real>, p: real)
    requires a.Length0 == a.Length1
    modifies a
    ensures forall x, y :: 0 <= x < a.Length0 && 0 <= y < a.Length1 ==>
      a[x, y] == old(Paired(p, a, x, y))
  {
    for i := 0 to a.Length0
      invariant forall x, y :: 0 <= x < a.Length0 && 0 <= y < a.Length1 ==>
        a[x, y] == if (y < x && x < i) || (x < y && y < i) then old(Paired(p, a, x, y)) else old(a[x, y])
    {
      for j := 0 to i
        invariant forall x, y :: 0 <= x < a.Length0 && 0 <= y < a.Length1 ==>
          a[x, y] == if (y < x && x < i) || (x < y && y < i) || (x == i && y < j) || (y == i && x < j)
                     then old(Paired(p, a, x, y)) else old(a[x, y])
      {
        if !CloseEnough(p, a[i, j], a[j, i]) {
          var avg := (a[i, j] + a[j, i]) / 2.0;
          a[i, j] := avg;
          a[j, i] := avg;
        }
      }
    }
  }

  /** `fix`: the three passes on a copy of the matrix. */
  method Fix(m: Matrix, p: real) returns (r: Matrix)
    requires Valid(m)
    ensures r == Fixed(m, p)
  {
    var a := ToCells(m);
    ClampNegatives(a);
    ZeroDiagonal(a);
    AverageAsymmetric(a, p);
    var values := Cells(a);
    r := Matrix(m.names, values, m.coverages);
    forall i, j | 0 <= i < |m.names| && 0 <= j < |m.names| ensures Entry(r, i, j) == Entry(Fixed(m, p), i, j) {
    }
    MatrixEqual(r, Fixed(m, p));
  }

  // ---------------------------------------------------------------------------
  // validate

  /** The name comparison of `validate`: equality, or equality of the first ten bytes. */
  predicate Same(truncate: bool, a: string, b: string)
  {
    if truncate then Prefix(a, 10) == Prefix(b, 10) else a == b
  }

  /** Two names at different positions compare the same. */
  ghost predicate Clash(s: seq<string>, truncate: bool)
  {
    exists i, j :: 0 <= i < j < |s| && Same(truncate, s[i], s[j])
  }

  /** A non-empty prefix is the first character before the prefix of the rest. */
  lemma PrefixTail(s: string, n: nat)
    requires n > 0 && |s| > 0
    ensures Prefix(s, n) == [s[0]] + Prefix(s[1..], n - 1)
  {
  }

  /** A name sorting between two names with the same prefix has that prefix too. */
  lemma {:induction false} PrefixBetween(a: string, b: string, c: string, n: nat)
    requires Below(a, b) && Below(b, c) && Prefix(a, n) == Prefix(c, n)
    ensures Prefix(b, n) == Prefix(a, n)
    decreases n
  {
    if n > 0 && |a| > 0 {
      assert |c| > 0 && a[0] == Prefix(a, n)[0] == Prefix(c, n)[0] == c[0];
      assert |b| > 0 && a[0] == b[0];
      assert Below(a[1..], b[1..]) && Below(b[1..], c[1..]);
      PrefixTail(a, n);
      PrefixTail(b, n);
      PrefixTail(c, n);
      PrefixBetween(a[1..], b[1..], c[1..], n - 1);
    } else if n > 0 {
      assert |c| == 0;
    }
  }

  /** In a sorted list, a clash shows between two neighbours. */
  lemma SortedClashAdjacent(s: seq<string>, truncate: bool)
    requires Sorted(s) && Clash(s, truncate)
    ensures exists i :: 0 <= i < |s| - 1 && Same(truncate, s[i], s[i + 1])
  {
    var i, j :| 0 <= i < j < |s| && Same(truncate, s[i], s[j]);
    assert Below(s[i], s[i + 1]);
    if i + 1 < j {
      assert Below(s[i + 1], s[j]);
    }
    if truncate {
      BelowReflexive(s[j]);
      PrefixBetween(s[i], s[i + 1], s[j], 10);
    } else if i + 1 < j {
      BelowAntisymmetric(s[i], s[i + 1]) by {
        BelowTransitive(s[i + 1], s[j], s[i]) by {
          BelowReflexive(s[i]);
        }
      }
    }
    assert Same(truncate, s[i], s[i + 1]);
  }

  /** A name that occurs twice occupies two positions. */
  lemma {:induction false} TwoPositions(s: seq<string>, x: string)
    requires multiset(s)[x] >= 2
    ensures exists i, j :: 0 <= i < j < |s| && s[i] == x && s[j] == x
  {
    assert s == [s[0]] + s[1..];
    if s[0] == x {
      assert x in multiset(s[1..]);
      var j :| 0 <= j < |s[1..]| && s[1..][j] == x;
      assert s[0] == x && s[j + 1] == x;
    } else {
      TwoPositions(s[1..], x);
      var i, j :| 0 <= i < j < |s[1..]| && s[1..][i] == x && s[1..][j] == x;
      assert s[i + 1] == x && s[j + 1] == x;
    }
  }

  /** Two distinct members of the multiset of names that compare the same. */
  ghost predicate CountClash(s: seq<string>, truncate: bool)
  {
    exists x, y :: x in multiset(s) && y in multiset(s) - multiset{x} && Same(truncate, x, y)
  }

  /** A clash between two positions shows in the multiset of names. */
  lemma ClashToCount(s: seq<string>, truncate: bool)
    requires Clash(s, truncate)
    ensures CountClash(s, truncate)
  {
    var i, j :| 0 <= i < j < |s| && Same(truncate, s[i], s[j]);
    if s[i] == s[j] {
      TwoOccurrences(s, i, j);
    }
    assert s[i] in multiset(s);
    assert s[j] in multiset(s) - multiset{s[i]};
  }

  /** A clash in the multiset of names shows between two positions. */
  lemma CountToClash(s: seq<string>, truncate: bool)
    requires CountClash(s, truncate)
    ensures Clash(s, truncate)
  {
    var x, y :| x in multiset(s) && y in multiset(s) - multiset{x} && Same(truncate, x, y);
    if x == y {
      TwoPositions(s, x);
      var i, j :| 0 <= i < j < |s| && s[i] == x && s[j] == x;
      assert Same(truncate, s[i], s[j]);
    } else {
      assert y in multiset(s);
      var i :| 0 <= i < |s| && s[i] == x;
      var j :| 0 <= j < |s| && s[j] == y;
      if j < i {
        assert Same(truncate, s[j], s[i]);
      } else {
        assert Same(truncate, s[i], s[j]);
      }
    }
  }

  /** A clash, told by the multiset of names alone. */
  lemma ClashByCount(s: seq<string>, truncate: bool)
    ensures Clash(s, truncate) <==> CountClash(s, truncate)
  {
    if Clash(s, truncate) {
      ClashToCount(s, truncate);
    }
    if CountClash(s, truncate) {
      CountToClash(s, truncate);
    }
  }

  /** Sorting the names neither creates nor hides a clash. */
  lemma SortKeepsClash(s: seq<string>, truncate: bool)
    ensures Clash(Sort(s), truncate) <==> Clash(s, truncate)
  {
    ClashByCount(s, truncate);
    ClashByCount(Sort(s), truncate);
  }

  /** A strict-lower entry close to 0. */
  ghost predicate ZeroBelow(m: Matrix, p: real)
    requires Valid(m)
  {
    exists i, j :: 0 <= j < i < |m.names| && CloseEnough(p, Entry(m, i, j), 0.0)
  }

  /** `d(i,j) > d(i,k) + d(j,k)` and not close enough to it, for `k < j < i`. */
  predicate Violates(m: Matrix, p: real, i: nat, j: nat, k: nat)
    requires Valid(m) && k < j < i < |m.names|
  {
    Entry(m, i, j) > Entry(m, i, k) + Entry(m, j, k) && !CloseEnough(p, Entry(m, i, j), Entry(m, i, k) + Entry(m, j, k))
  }

  ghost predicate TriangleBroken(m: Matrix, p: real)
    requires Valid(m)
  {
    exists i, j, k :: 0 <= k < j < i < |m.names| && Violates(m, p, i, j, k)
  }

  /** Why `validate` aborts. */
  datatype Invalid = DuplicateName(name: string) | ZeroEntry(i: nat, j: nat) | TriangleViolation(i: nat, j: nat, k: nat)

  /** The duplicate-name check: sort a copy of the names and compare neighbours. */
  method CheckNames(names: seq<string>, truncate: bool) returns (dup: Option<string>)
    requires |names| >= 1
    ensures dup.None? <==> !Clash(names, truncate)
    ensures dup.Some? ==> dup.value in names
  {
    var sorted := Sort(names);
    for i := 0 to |sorted| - 1
      invariant forall t :: 0 <= t < i ==> !Same(truncate, sorted[t], sorted[t + 1])
    {
      if Same(truncate, sorted[i], sorted[i + 1]) {
        AdjacentClash(names, truncate, i);
        return Some(sorted[i]);
      }
    }
    NoAdjacentClash(names, truncate);
    return None;
  }

  /** Two clashing neighbours of the sorted names are a clash of the names. */
  lemma AdjacentClash(names: seq<string>, truncate: bool, i: nat)
    requires i + 1 < |Sort(names)| && Same(truncate, Sort(names)[i], Sort(names)[i + 1])
    ensures Clash(names, truncate) && Sort(names)[i] in names
  {
    var sorted := Sort(names);
    assert Clash(sorted, truncate) by {
      assert 0 <= i < i + 1 < |sorted| && Same(truncate, sorted[i], sorted[i + 1]);
    }
    SortKeepsClash(names, truncate);
    SortMembers(names, sorted[i]);
  }

  /** When no two neighbours of the sorted names clash, no two names clash. */
  lemma NoAdjacentClash(names: seq<string>, truncate: bool)
    requires forall t :: 0 <= t < |Sort(names)| - 1 ==> !Same(truncate, Sort(names)[t], Sort(names)[t + 1])
    ensures !Clash(names, truncate)
  {
    SortKeepsClash(names, truncate);
    if Clash(Sort(names), truncate) {
      SortedClashAdjacent(Sort(names), truncate);
    }
  }

  /** The check for entries close to zero below the diagonal, in row-major order. */
  method CheckZeros(m: Matrix, p: real) returns (bad: Option<(nat, nat)>)
    requires Valid(m)
    ensures bad.None? <==> !ZeroBelow(m, p)
    ensures bad.Some? ==> bad.value.1 < bad.value.0 < |m.names| && CloseEnough(p, Entry(m, bad.value.0, bad.value.1), 0.0)
  {
    var size := |m.names|;
    for i := 0 to size
      invariant forall x, y :: 0 <= y < x < i ==> !CloseEnough(p, Entry(m, x, y), 0.0)
    {
      for j := 0 to i
        invariant forall x, y :: 0 <= y < x < i ==> !CloseEnough(p, Entry(m, x, y), 0.0)
        invariant forall y :: 0 <= y < j ==> !CloseEnough(p, Entry(m, i, y), 0.0)
      {
        if CloseEnough(p, Entry(m, i, j), 0.0) {
          return Some((i, j));
        }
      }
    }
    return None;
  }

  /** The triangle-inequality check, over `k < j < i` in lexicographic order. */
  method CheckTriangles(m: Matrix, p: real) returns (bad: Option<(nat, nat, nat)>)
    requires Valid(m)
    ensures bad.None? <==> !TriangleBroken(m, p)
    ensures bad.Some? ==> (bad.value.2 < bad.value.1 < bad.value.0 < |m.names|
      && Violates(m, p, bad.value.0, bad.value.1, bad.value.2))
  {
    var size := |m.names|;
    for i := 0 to size
      invariant forall x, y, z :: 0 <= z < y < x < i ==> !Violates(m, p, x, y, z)
    {
      for j := 0 to i
        invariant forall x, y, z :: 0 <= z < y < x < i ==> !Violates(m, p, x, y, z)
        invariant forall y, z :: 0 <= z < y < j ==> !Violates(m, p, i, y, z)
      {
        for k := 0 to j
          invariant forall x, y, z :: 0 <= z < y < x < i ==> !Violates(m, p, x, y, z)
          invariant forall y, z :: 0 <= z < y < j ==> !Violates(m, p, i, y, z)
          invariant forall z :: 0 <= z < k ==> !Violates(m, p, i, j, z)
        {
          if Violates(m, p, i, j, k) {
            return Some((i, j, k));
          }
        }
      }
    }
    return None;
  }

  /**
   * `validate`: aborts on a duplicate (or, when truncating, duplicate
   * ten-byte) name, on a strict-lower entry close to 0, or on a
   * violated triangle; otherwise returns the matrix unchanged.
   */
  method Validate(m: Matrix, truncate: bool, p: real) returns (r: Result<Matrix, Invalid>)
    requires Valid(m) && |m.names| >= 1
    ensures r.Ok? <==> !Clash(m.names, truncate) && !ZeroBelow(m, p) && !TriangleBroken(m, p)
    ensures r.Ok? ==> r.value == m
    ensures r.Err? && r.error.ZeroEntry? ==>
      r.error.j < r.error.i < |m.names| && CloseEnough(p, Entry(m, r.error.i, r.error.j), 0.0)
    ensures r.Err? && r.error.TriangleViolation? ==>
      r.error.k < r.error.j < r.error.i < |m.names| && Violates(m, p, r.error.i, r.error.j, r.error.k)
  {
    var dup := CheckNames(m.names, truncate);
    if dup.Some? {
      return Err(DuplicateName(dup.value));
    }
    var zero := CheckZeros(m, p);
    if zero.Some? {
      return Err(ZeroEntry(zero.value.0, zero.value.1));
    }
    var triangle := CheckTriangles(m, p);
    if triangle.Some? {
      return Err(TriangleViolation(triangle.value.0, triangle.value.1, triangle.value.2));
    }
    return Ok(m);
  }

  /** With a tolerance in `[0, 1)`, only an exact zero below the diagonal aborts. */
  lemma ZeroBelowExact(m: Matrix, p: real)
    requires Valid(m) && 0.0 <= p < 1.0
    ensures ZeroBelow(m, p) <==> exists i, j :: 0 <= j < i < |m.names| && Entry(m, i, j) == 0.0
  {
    forall i, j | 0 <= j < i < |m.names| ensures CloseEnough(p, Entry(m, i, j), 0.0) <==> Entry(m, i, j) == 0.0 {
      CloseEnoughZero(p, Entry(m, i, j));
    }
  }

  // ---------------------------------------------------------------------------
  // unescape and sort

  /**
   * `unescape`: a first character other than a backslash is returned as it
   * is; a backslash followed by one of `' " \ a b f n r t v` gives that
   * character; anything else gives `?`. The terminating NUL of the C string
   * is the character after the end.
   */
  function Unescape(s: string): (c: char)
    ensures |s| > 0 && s[0] != '\\' ==> c == s[0]
    ensures |s| == 0 ==> c == '\0'
  {
    if |s| == 0 then '\0'
    else if s[0] != '\\' then s[0]
    else if |s| < 2 then '?'
    else match s[1]
      case '\'' => '\''
      case '"' => '"'
      case '\\' => '\\'
      case 'a' => '\U{7}'
      case 'b' => '\U{8}'
      case 'f' => '\U{C}'
      case 'n' => '\n'
      case 'r' => '\r'
      case 't' => '\t'
      case 'v' => '\U{B}'
      case _ => '?'
  }

  /** The escape sequences of C, as a table from the letter after the backslash to the character. */
  const Escapes: map<char, char> := map['\'' := '\'', '"' := '"', '\\' := '\\', 'a' := '\U{7}', 'b' := '\U{8}',
                                        'f' := '\U{C}', 'n' := '\n', 'r' := '\r', 't' := '\t', 'v' := '\U{B}']

  /** A backslash sequence gives the character of the escape table, and `?` for letters not in it. */
  lemma UnescapeTable(x: char, rest: string)
    ensures Unescape(['\\', x] + rest) == if x in Escapes then Escapes[x] else '?'
  {
    var s := ['\\', x] + rest;
    assert s[0] == '\\' && s[1] == x;
  }

  /** `sort`: the matrix sampled by its own names in ascending order. */
  method SortByName(m: Matrix) returns (r: Matrix)
    requires Valid(m)
    ensures Valid(r) && r.names == Sort(m.names) && r.coverages.None?
    ensures forall a, b :: a in m.names && b in m.names ==> EntryByName(r, a, b) == EntryByName(m, a, b)
  {
    var names := Sort(m.names);
    forall x | x in names ensures x in m.names {
      SortMembers(m.names, x);
    }
    var o := Sample2(m, names);
    r := o.value;
    forall a, b | a in m.names && b in m.names ensures EntryByName(r, a, b) == EntryByName(m, a, b) {
      SortMembers(m.names, a);
      SortMembers(m.names, b);
      ProjectByName(m, names, a, b);
    }
  }

  // ---------------------------------------------------------------------------
  // the command

  /**
   * One matrix through `mat format`: `fix` (also switched on by `validate`),
   * then `validate`, then `sort`.
   */
  method FormatOne(m: Matrix, fix: bool, validate: bool, sort: bool, truncate: bool, p: real)
    returns (r: Result<Matrix, Invalid>)
    requires Valid(m) && (validate ==> |m.names| >= 1)
    ensures validate ==> (r.Ok? <==> var f := Fixed(m, p);
      !Clash(f.names, truncate) && !ZeroBelow(f, p) && !TriangleBroken(f, p))
    ensures !validate ==> r.Ok?
    ensures r.Ok? ==> Valid(r.value) && r.value.names == if sort then Sort(m.names) else m.names
    ensures r.Ok? && !sort ==> r.value == if fix || validate then Fixed(m, p) else m
    ensures r.Ok? && sort ==> forall a, b :: a in m.names && b in m.names ==>
      EntryByName(r.value, a, b) == EntryByName(if fix || validate then Fixed(m, p) else m, a, b)
  {
    var cur := m;
    if fix || validate {
      cur := Fix(cur, p);
    }
    if validate {
      var checked := Validate(cur, truncate, p);
      if checked.Err? {
        return checked;
      }
    }
    if sort {
      cur := SortByName(cur);
    }
    return Ok(cur);
  }
}

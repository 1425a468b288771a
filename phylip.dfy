/**
 * The PHYLIP distance-matrix layout: assembling a matrix from its parsed
 * lines (`parse_tolerant_internal`) and the line structure of its text form
 * (`format`, `to_string`).
 *
 * Tokenising is left to the caller: each input line arrives as its name and
 * the numbers that followed it. Rendering a number is a function parameter.
 */
module Phylip {
  import opened Wrappers
  import opened Names
  import opened Matrices

  // ---------------------------------------------------------------------------
  // Assembly

  /** One parsed line: a name and the values after it. */
  datatype Line = Line(name: string, values: seq<real>)

  /** Why a matrix could not be read. */
  datatype LayoutError = EmptyMatrix | TooBig | ParseError(line: nat)

  /** `(1 << ((sizeof(size_t) >> 1) * 4)) - 1` for an 8-byte `size_t`. */
  const MaxSize: nat := 65535

  /** Fewer values than `size` on the first line selects the lower-triangle layout. */
  predicate LowerMode(size: nat, first: seq<real>)
  {
    |first| < size
  }

  /** A lower-triangle first line with exactly one value has the diagonal included. */
  predicate DiagonalMode(size: nat, first: seq<real>)
  {
    LowerMode(size, first) && |first| == 1
  }

  /** How many values line `i` may carry. */
  function Limit(size: nat, first: seq<real>, i: nat): (r: nat)
    ensures 0 < i < size ==> r <= size
    ensures LowerMode(size, first) && 0 < i ==> r == i + (if DiagonalMode(size, first) then 1 else 0)
    ensures !LowerMode(size, first) || i == 0 ==> r == size
  {
    if i == 0 || !LowerMode(size, first) then size
    else i + (if DiagonalMode(size, first) then 1 else 0)
  }

  /** Line `i` is missing, or has more values than it may carry: the parser fails on it. */
  predicate BadLine(size: nat, lines: seq<Line>, i: nat)
  {
    i >= |lines| || |lines[i].values| > Limit(size, lines[0].values, i)
  }

  /** The first bad line among lines `i .. size-1`. */
  function FirstBad(size: nat, lines: seq<Line>, i: nat): (r: Option<nat>)
    ensures r.None? <==> forall k :: i <= k < size ==> !BadLine(size, lines, k)
    ensures r.Some? ==> (i <= r.value < size && BadLine(size, lines, r.value)
      && forall k :: i <= k < r.value ==> !BadLine(size, lines, k))
    decreases size - i
  {
    if i >= size then None
    else if BadLine(size, lines, i) then Some(i)
    else FirstBad(size, lines, i + 1)
  }

  /** Cell `(i, j)` as supplied by line `i`; cells the line does not reach are 0. */
  function Supplied(lines: seq<Line>, i: nat, j: nat): real
    requires i < |lines|
  {
    if j < |lines[i].values| then lines[i].values[j] else 0.0
  }

  /** Cell `(i, j)` of the assembled matrix: in lower-triangle layout the upper triangle mirrors the lower. */
  function Placed(size: nat, lines: seq<Line>, i: nat, j: nat): real
    requires 0 < |lines| && i < |lines| && j < |lines|
  {
    if LowerMode(size, lines[0].values) && i < j then Supplied(lines, j, i) else Supplied(lines, i, j)
  }

  /** The names of the first `size` lines, in input order. */
  function LineNames(lines: seq<Line>, size: nat): (r: seq<string>)
    requires size <= |lines|
    ensures |r| == size && forall k :: 0 <= k < size ==> r[k] == lines[k].name
  {
    seq(size, k requires 0 <= k < size => lines[k].name)
  }

  /** The matrix `parse_tolerant_internal` builds from a declared size and the lines that follow. */
  function Layout(size: nat, lines: seq<Line>): (r: Result<Matrix, LayoutError>)
    ensures r.Ok? ==> Valid(r.value) && |r.value.names| == size && r.value.coverages.None?
  {
    if size == 0 then Err(EmptyMatrix)
    else if size > MaxSize then Err(TooBig)
    else match FirstBad(size, lines, 0)
      case Some(i) => Err(ParseError(i))
      case None =>
        assert !BadLine(size, lines, size - 1);
        var f := (i: nat, j: nat) => if i < size && j < size then Placed(size, lines, i, j) else 0.0;
        EntryTabulate(LineNames(lines, size), f, None, 0, 0);
        Ok(Matrix(LineNames(lines, size), Tabulate(size, f), None))
  }

  /** The entries of an assembled matrix: what the lines supplied, mirrored in lower-triangle layout. */
  lemma LayoutEntries(size: nat, lines: seq<Line>, i: nat, j: nat)
    requires Layout(size, lines).Ok? && i < size && j < size
    ensures |lines| >= size
    ensures Entry(Layout(size, lines).value, i, j) == Placed(size, lines, i, j)
  {
    assert !BadLine(size, lines, size - 1);
    var f := (i: nat, j: nat) => if i < size && j < size then Placed(size, lines, i, j) else 0.0;
    EntryTabulate(LineNames(lines, size), f, None, i, j);
  }

  /** The outcome of reading: the size checks first, then the first line the parser rejects. */
  lemma LayoutOutcome(size: nat, lines: seq<Line>)
    ensures size == 0 ==> Layout(size, lines) == Err(EmptyMatrix)
    ensures 0 < size <= MaxSize && |lines| < size ==> Layout(size, lines).Err? && Layout(size, lines).error.ParseError?
    ensures Layout(size, lines).Ok? <==> 0 < size <= MaxSize && forall k :: 0 <= k < size ==> !BadLine(size, lines, k)
    ensures Layout(size, lines).Ok? ==> Layout(size, lines).value.names == LineNames(lines, size)
  {
    if 0 < size <= MaxSize && |lines| < size {
      assert BadLine(size, lines, |lines|);
    }
  }

  /** In lower-triangle layout the result is symmetric; in full layout it is what the lines say. */
  lemma LayoutShape(size: nat, lines: seq<Line>, i: nat, j: nat)
    requires Layout(size, lines).Ok? && i < size && j < size
    ensures |lines| >= size
    ensures LowerMode(size, lines[0].values) ==>
      Entry(Layout(size, lines).value, i, j) == Entry(Layout(size, lines).value, j, i)
    ensures !LowerMode(size, lines[0].values) ==>
      Entry(Layout(size, lines).value, i, j) == Supplied(lines, i, j)
    ensures j >= i && j < |lines[i].values| && (!LowerMode(size, lines[0].values) || j == i) ==>
      Entry(Layout(size, lines).value, i, j) == lines[i].values[j]
  {
    LayoutEntries(size, lines, i, j);
    LayoutEntries(size, lines, j, i);
  }

  /**
   * Lower-triangle layout with the diagonal left out reads no diagonal cell
   * after the first line: those diagonal entries are 0. The first line may
   * still carry up to `size - 1` values, which land in row 0 from column 0.
   */
  lemma LayoutDiagonal(size: nat, lines: seq<Line>, i: nat)
    requires Layout(size, lines).Ok? && i < size
    ensures |lines| >= size
    ensures LowerMode(size, lines[0].values) && !DiagonalMode(size, lines[0].values) && (i > 0 || |lines[0].values| == 0) ==>
      Entry(Layout(size, lines).value, i, i) == 0.0
  {
    LayoutEntries(size, lines, i, i);
    assert !BadLine(size, lines, i);
  }

  /** Copy one line's values into the start of row `i`. */
  method PlaceRow(a: array2<real>, i: nat, values: seq<real>)
    requires i < a.Length0 && |values| <= a.Length1
    modifies a
    ensures forall x, y :: 0 <= x < a.Length0 && 0 <= y < a.Length1 ==>
      a[x, y] == if x == i && y < |values| then values[y] else old(a[x, y])
  {
    for j := 0 to |values|
      invariant forall x, y :: 0 <= x < a.Length0 && 0 <= y < a.Length1 ==>
        a[x, y] == if x == i && y < j then values[y] else old(a[x, y])
    {
      a[i, j] := values[j];
    }
  }

  /** Mirror the lower triangle into the upper one. */
  method MirrorLower(a: array2<real>)
    requires a.Length0 == a.Length1
    modifies a
    ensures forall x, y :: 0 <= x < a.Length0 && 0 <= y < a.Length1 ==>
      a[x, y] == if x < y then old(a[y, x]) else old(a[x, y])
  {
    for i := 0 to a.Length0
      invariant forall x, y :: 0 <= x < a.Length0 && 0 <= y < a.Length1 ==>
        a[x, y] == if x < y && x < i then old(a[y, x]) else old(a[x, y])
    {
      for j := i + 1 to a.Length1
        invariant forall x, y :: 0 <= x < a.Length0 && 0 <= y < a.Length1 ==>
          a[x, y] == if x < y && (x < i || (x == i && y < j)) then old(a[y, x]) else old(a[x, y])
      {
        a[i, j] := a[j, i];
      }
    }
  }

  /** The line loop: every line's values into its row, names in input order. */
  method PlaceLines(size: nat, lines: seq<Line>, a: array2<real>) returns (names: seq<string>, bad: Option<nat>)
    requires 0 < size && a.Length0 == size && a.Length1 == size
    requires forall x, y :: 0 <= x < size && 0 <= y < size ==> a[x, y] == 0.0
    modifies a
    ensures bad == FirstBad(size, lines, 0)
    ensures bad.None? ==> (size <= |lines| && names == LineNames(lines, size)
      && forall x, y :: 0 <= x < size && 0 <= y < size ==> a[x, y] == Supplied(lines, x, y))
  {
    names := [];
    for i := 0 to size
      invariant FirstBad(size, lines, 0) == FirstBad(size, lines, i)
      invariant i <= |lines| && names == LineNames(lines, i)
      invariant forall x, y :: 0 <= x < size && 0 <= y < size ==>
        a[x, y] == if x < i then Supplied(lines, x, y) else 0.0
    {
      if BadLine(size, lines, i) {
        return names, Some(i);
      }
      PlaceRow(a, i, lines[i].values);
      names := names + [lines[i].name];
    }
    bad := None;
  }

  /** `parse_tolerant_internal` after tokenising. */
  method Assemble(size: nat, lines: seq<Line>) returns (r: Result<Matrix, LayoutError>)
    ensures r == Layout(size, lines)
  {
    if size == 0 {
      return Err(EmptyMatrix);
    }
    if size > MaxSize {
      return Err(TooBig);
    }
    var a := new real[size, size]((i, j) => 0.0);
    var names, bad := PlaceLines(size, lines, a);
    if bad.Some? {
      return Err(ParseError(bad.value));
    }
    if LowerMode(size, lines[0].values) {
      MirrorLower(a);
    }
    var m := FromCells(names, a);
    forall i, j | 0 <= i < size && 0 <= j < size ensures Entry(m, i, j) == Entry(Layout(size, lines).value, i, j) {
      LayoutEntries(size, lines, i, j);
    }
    MatrixEqual(m, Layout(size, lines).value);
    return Ok(m);
  }

  // ---------------------------------------------------------------------------
  // Text form

  /** The decimal digit of `d`. */
  function Digit(d: nat): (c: char)
    requires d < 10
    ensures '0' <= c <= '9'
  {
    ['0', '1', '2', '3', '4', '5', '6', '7', '8', '9'][d]
  }

  /** `std::to_string` of an unsigned size: its decimal digits, no leading zero. */
  function Decimal(n: nat): (s: string)
    ensures |s| >= 1 && (n >= 10 ==> s[0] != '0')
    ensures forall k :: 0 <= k < |s| ==> '0' <= s[k] <= '9'
  {
    if n < 10 then [Digit(n)] else Decimal(n / 10) + [Digit(n % 10)]
  }

  /** The number a string of decimal digits denotes. */
  function DecimalValue(s: string): nat
    requires forall k :: 0 <= k < |s| ==> '0' <= s[k] <= '9'
  {
    if |s| == 0 then 0 else DecimalValue(s[..|s| - 1]) * 10 + (s[|s| - 1] as int - '0' as int)
  }

  /** A digit reads back as its value. */
  lemma DigitValue(d: nat)
    requires d < 10
    ensures Digit(d) as int - '0' as int == d
  {
  }

  /** The size line reads back as the size. */
  lemma {:induction false} DecimalRoundTrip(n: nat)
    ensures DecimalValue(Decimal(n)) == n
  {
    if n >= 10 {
      var s, q, d := Decimal(n), n / 10, n % 10;
      assert s == Decimal(q) + [Digit(d)];
      assert s[..|s| - 1] == Decimal(q);
      DigitValue(d);
      DecimalRoundTrip(q);
      assert DecimalValue(s) == q * 10 + d;
    } else {
      DigitValue(n);
    }
  }

  /** What `snprintf` leaves in a 100-byte buffer: at most 99 bytes. */
  function Buffered(s: string): (r: string)
    ensures |r| <= 99 && r == Prefix(s, 99)
  {
    Prefix(s, 99)
  }

  /** `%-10s`: left-justified, padded with spaces to at least ten bytes. */
  function LeftJustified(s: string): (r: string)
    ensures |r| == if |s| < 10 then 10 else |s|
    ensures r[..|s|] == s && forall k :: |s| <= k < |r| ==> r[k] == ' '
  {
    if |s| < 10 then s + seq(10 - |s|, _ => ' ') else s
  }

  /** The name column: `%-10s`, or `%-10.10s` when truncating, through the buffer. */
  function NameCell(name: string, truncate: bool): (r: string)
    ensures 10 <= |r| <= 99 && (truncate ==> |r| == 10)
    ensures var shown := if truncate then Prefix(name, 10) else Prefix(name, 99);
      |shown| <= |r| && r[..|shown|] == shown && forall k :: |shown| <= k < |r| ==> r[k] == ' '
  {
    var j := LeftJustified(if truncate then Prefix(name, 10) else name);
    var r := Buffered(j);
    ghost var shown := if truncate then Prefix(name, 10) else Prefix(name, 99);
    assert |shown| <= |r| && shown == j[..|shown|] by {
      if truncate {
        assert j[..|shown|] == shown;
      } else {
        assert j[..|name|] == name;
        assert shown == name[..|shown|];
      }
    }
    assert r == j[..|r|];
    r
  }

  /** Cells `0 .. k-1` of row `i`, each after the separator. */
  function RowText(m: Matrix, sep: char, render: real -> string, i: nat, k: nat): string
    requires Valid(m) && i < |m.names| && k <= |m.names|
  {
    if k == 0 then [] else RowText(m, sep, render, i, k - 1) + [sep] + CellText(m, render, i, k - 1)
  }

  /** Row `i` as a line of text. */
  function LineText(m: Matrix, sep: char, render: real -> string, truncate: bool, i: nat): string
    requires Valid(m) && i < |m.names|
  {
    NameCell(m.names[i], truncate) + RowText(m, sep, render, i, |m.names|) + "\n"
  }

  /** Lines `0 .. k-1`. */
  function Body(m: Matrix, sep: char, render: real -> string, truncate: bool, k: nat): string
    requires Valid(m) && k <= |m.names|
  {
    if k == 0 then [] else Body(m, sep, render, truncate, k - 1) + LineText(m, sep, render, truncate, k - 1)
  }

  /** `format(self, separator, format_specifier, truncate_names)`, with the number format as `render`. */
  function Formatted(m: Matrix, sep: char, render: real -> string, truncate: bool): string
    requires Valid(m)
  {
    Decimal(|m.names|) + "\n" + Body(m, sep, render, truncate, |m.names|)
  }

  /** `to_string`: the default separator, number format and full names. */
  function ToText(m: Matrix, render: real -> string): string
    requires Valid(m)
  {
    Formatted(m, ' ', render, false)
  }

  /** The number of occurrences of `c` in `s`. */
  function Count(s: string, c: char): nat
  {
    if |s| == 0 then 0 else Count(s[..|s| - 1], c) + (if s[|s| - 1] == c then 1 else 0)
  }

  lemma {:induction false} CountAppend(a: string, b: string, c: char)
    ensures Count(a + b, c) == Count(a, c) + Count(b, c)
    decreases |b|
  {
    if |b| > 0 {
      assert (a + b)[..|a + b| - 1] == a + b[..|b| - 1];
      CountAppend(a, b[..|b| - 1], c);
    } else {
      assert a + b == a;
    }
  }

  lemma {:induction false} CountZero(s: string, c: char)
    ensures Count(s, c) == 0 <==> c !in s
    decreases |s|
  {
    if |s| > 0 {
      CountZero(s[..|s| - 1], c);
      assert s == s[..|s| - 1] + [s[|s| - 1]];
    }
  }

  /** No rendered number contains the character `c`. */
  ghost predicate Avoids(render: real -> string, c: char)
  {
    forall x: real :: Count(render(x), c) == 0
  }

  /** Cell `j` of row `i` as text. */
  function CellText(m: Matrix, render: real -> string, i: nat, j: nat): string
    requires Valid(m) && i < |m.names| && j < |m.names|
  {
    Buffered(render(Entry(m, i, j)))
  }

  /** Cutting a rendered number short keeps it free of `c`. */
  lemma CellCount(m: Matrix, render: real -> string, i: nat, j: nat, c: char)
    requires Valid(m) && i < |m.names| && j < |m.names| && Avoids(render, c)
    ensures Count(CellText(m, render, i, j), c) == 0
  {
    var s := render(Entry(m, i, j));
    assert s == CellText(m, render, i, j) + s[|CellText(m, render, i, j)|..];
    CountAppend(CellText(m, render, i, j), s[|CellText(m, render, i, j)|..], c);
  }

  /** A row carries exactly one separator per cell, and no newline. */
  lemma {:induction false} RowSeparators(m: Matrix, sep: char, render: real -> string, i: nat, k: nat)
    requires Valid(m) && i < |m.names| && k <= |m.names| && Avoids(render, sep) && Avoids(render, '\n') && sep != '\n'
    ensures Count(RowText(m, sep, render, i, k), sep) == k
    ensures Count(RowText(m, sep, render, i, k), '\n') == 0
  {
    if k > 0 {
      var before := RowText(m, sep, render, i, k - 1);
      var cell := CellText(m, render, i, k - 1);
      RowSeparators(m, sep, render, i, k - 1);
      CellCount(m, render, i, k - 1, sep);
      CellCount(m, render, i, k - 1, '\n');
      assert RowText(m, sep, render, i, k) == before + [sep] + cell;
      CountAppend(before, [sep], sep);
      CountAppend(before, [sep], '\n');
      CountAppend(before + [sep], cell, sep);
      CountAppend(before + [sep], cell, '\n');
      assert Count([sep], sep) == 1 && Count([sep], '\n') == 0 by {
        assert [sep][..0] == [];
      }
    }
  }

  /** A name without `c` gives a name column without `c`, unless `c` is the padding. */
  lemma NameCellCount(name: string, truncate: bool, c: char)
    requires Count(name, c) == 0 && c != ' '
    ensures Count(NameCell(name, truncate), c) == 0
  {
    var r := NameCell(name, truncate);
    var shown := if truncate then Prefix(name, 10) else Prefix(name, 99);
    CountZero(name, c);
    forall k | 0 <= k < |r| ensures r[k] != c {
      if k < |shown| {
        assert r[k] == shown[k] == name[k];
      }
    }
    CountZero(r, c);
  }

  /** One line: a single newline, and one separator per cell. */
  lemma LineCounts(m: Matrix, sep: char, render: real -> string, truncate: bool, i: nat)
    requires Valid(m) && i < |m.names| && Avoids(render, sep) && Avoids(render, '\n') && sep != '\n' && sep != ' '
    requires Count(m.names[i], sep) == 0 && Count(m.names[i], '\n') == 0
    ensures Count(LineText(m, sep, render, truncate, i), '\n') == 1
    ensures Count(LineText(m, sep, render, truncate, i), sep) == |m.names|
  {
    var name := NameCell(m.names[i], truncate);
    var row := RowText(m, sep, render, i, |m.names|);
    RowSeparators(m, sep, render, i, |m.names|);
    NameCellCount(m.names[i], truncate, '\n');
    NameCellCount(m.names[i], truncate, sep);
    CountAppend(name, row, sep);
    CountAppend(name, row, '\n');
    CountAppend(name + row, "\n", sep);
    CountAppend(name + row, "\n", '\n');
    assert Count("\n", sep) == 0 && Count("\n", '\n') == 1 by {
      assert "\n"[..0] == [];
    }
  }

  /** A line holding one newline and `w` separators. */
  ghost predicate Counted(line: string, sep: char, w: nat)
  {
    Count(line, '\n') == 1 && Count(line, sep) == w
  }

  /** Appending a line with one newline and `w` separators to a text. */
  lemma AppendLineCounts(before: string, line: string, sep: char, lines: nat, seps: nat, w: nat)
    requires Count(before, '\n') == lines && Count(before, sep) == seps && Counted(line, sep, w)
    ensures Count(before + line, '\n') == lines + 1 && Count(before + line, sep) == seps + w
  {
    CountAppend(before, line, '\n');
    CountAppend(before, line, sep);
  }

  /** Line `x` holds one newline and one separator per cell. */
  ghost predicate LineCounted(m: Matrix, sep: char, render: real -> string, truncate: bool, x: nat)
    requires Valid(m) && x < |m.names|
  {
    Counted(LineText(m, sep, render, truncate, x), sep, |m.names|)
  }

  /** Every line of the matrix holds one newline and one separator per cell. */
  ghost predicate AllCounted(m: Matrix, sep: char, render: real -> string, truncate: bool)
    requires Valid(m)
  {
    forall x :: 0 <= x < |m.names| ==> LineCounted(m, sep, render, truncate, x)
  }

  /** Lines `0 .. k-1` hold `k` newlines and `k * size` separators when each line holds one and `size`. */
  lemma {:induction false} BodyCounts(m: Matrix, sep: char, render: real -> string, truncate: bool, k: nat)
    requires Valid(m) && k <= |m.names| && AllCounted(m, sep, render, truncate)
    ensures Count(Body(m, sep, render, truncate, k), '\n') == k
    ensures Count(Body(m, sep, render, truncate, k), sep) == RowStart(|m.names|, k)
  {
    if k > 0 {
      var before := Body(m, sep, render, truncate, k - 1);
      var line := LineText(m, sep, render, truncate, k - 1);
      BodyCounts(m, sep, render, truncate, k - 1);
      assert LineCounted(m, sep, render, truncate, k - 1);
      AppendLineCounts(before, line, sep, k - 1, RowStart(|m.names|, k - 1), |m.names|);
    }
  }

  lemma AllLineCounts(m: Matrix, sep: char, render: real -> string, truncate: bool)
    requires Valid(m) && Avoids(render, sep) && Avoids(render, '\n') && sep != '\n' && sep != ' '
    requires forall x :: 0 <= x < |m.names| ==> Count(m.names[x], sep) == 0 && Count(m.names[x], '\n') == 0
    ensures AllCounted(m, sep, render, truncate)
  {
    forall x | 0 <= x < |m.names|
      ensures LineCounted(m, sep, render, truncate, x)
    {
      LineCounts(m, sep, render, truncate, x);
    }
  }

  /**
   * With names and rendered numbers free of newlines and of the separator
   * (itself neither a newline, a space nor a digit), the text is the size
   * line plus exactly `size` lines holding `size` separators each.
   */
  lemma FormattedCounts(m: Matrix, sep: char, render: real -> string, truncate: bool)
    requires Valid(m) && Avoids(render, sep) && Avoids(render, '\n') && sep != '\n' && sep != ' '
    requires '0' > sep || sep > '9'
    requires forall x :: 0 <= x < |m.names| ==> Count(m.names[x], sep) == 0 && Count(m.names[x], '\n') == 0
    ensures Count(Formatted(m, sep, render, truncate), '\n') == |m.names| + 1
    ensures Count(Formatted(m, sep, render, truncate), sep) == Square(|m.names|)
  {
    var n := |m.names|;
    var header := Decimal(n) + "\n";
    var body := Body(m, sep, render, truncate, n);
    AllLineCounts(m, sep, render, truncate);
    BodyCounts(m, sep, render, truncate, n);
    HeaderCounts(n, sep);
    CountAppend(header, body, sep);
    CountAppend(header, body, '\n');
  }

  /** The size line holds one newline and, the separator not being a digit, no separator. */
  lemma HeaderCounts(n: nat, sep: char)
    requires sep != '\n' && ('0' > sep || sep > '9')
    ensures Count(Decimal(n) + "\n", '\n') == 1 && Count(Decimal(n) + "\n", sep) == 0
  {
    var d := Decimal(n);
    CountZero(d, sep);
    CountZero(d, '\n');
    CountAppend(d, "\n", sep);
    CountAppend(d, "\n", '\n');
    assert Count("\n", sep) == 0 && Count("\n", '\n') == 1 by {
      assert "\n"[..0] == [];
    }
  }

  /** Appending to a text that already ends in a prefix. */
  lemma Associative(a: string, b: string, c: string)
    ensures a + b + c == a + (b + c)
  {
  }

  /** Append one row's cells. */
  method AppendRow(m: Matrix, sep: char, render: real -> string, i: nat, prefix: string) returns (ret: string)
    requires Valid(m) && i < |m.names|
    ensures ret == prefix + RowText(m, sep, render, i, |m.names|)
  {
    ret := prefix;
    for j := 0 to |m.names|
      invariant ret == prefix + RowText(m, sep, render, i, j)
    {
      var cell := CellText(m, render, i, j);
      ret := ret + [sep];
      ret := ret + cell;
      Associative(prefix, RowText(m, sep, render, i, j) + [sep], cell);
      Associative(prefix, RowText(m, sep, render, i, j), [sep]);
    }
  }

  /** Append row `i` as a line: the name column, the cells, a newline. */
  method AppendLine(m: Matrix, sep: char, render: real -> string, truncate: bool, i: nat, prefix: string) returns (ret: string)
    requires Valid(m) && i < |m.names|
    ensures ret == prefix + LineText(m, sep, render, truncate, i)
  {
    var name := NameCell(m.names[i], truncate);
    ret := AppendRow(m, sep, render, i, prefix + name);
    ret := ret + "\n";
    Associative(prefix, name, RowText(m, sep, render, i, |m.names|));
    Associative(prefix, name + RowText(m, sep, render, i, |m.names|), "\n");
  }

  /** The line loop of `format`. */
  method AppendBody(m: Matrix, sep: char, render: real -> string, truncate: bool, head: string) returns (ret: string)
    requires Valid(m)
    ensures ret == head + Body(m, sep, render, truncate, |m.names|)
  {
    ret := head;
    for i := 0 to |m.names|
      invariant ret == head + Body(m, sep, render, truncate, i)
    {
      ret := AppendLine(m, sep, render, truncate, i, ret);
      Associative(head, Body(m, sep, render, truncate, i), LineText(m, sep, render, truncate, i));
    }
  }

  /** `format`: the size line, then one line per row. */
  method Format(m: Matrix, sep: char, render: real -> string, truncate: bool) returns (ret: string)
    requires Valid(m)
    ensures ret == Formatted(m, sep, render, truncate)
  {
    ret := AppendBody(m, sep, render, truncate, Decimal(|m.names|) + "\n");
  }
}

/**
 * The cursor state machines behind the matrix iterators: the square helper
 * walks every cell row by row, the strict-lower-triangle helper walks the cells
 * below the diagonal row by row, and iterators compare by (row, col).
 *
 * Each helper is a class with the `row`/`col`/`size` fields the program
 * mutates; the walks they perform are described by the pure functions
 * `SquareAfter` and `LowerAfter`, about which the lemmas speak.
 */
module Cursors {
  import opened Matrices

  /** A cursor position. */
  datatype Cell = Cell(row: nat, col: nat)

  /** `matrix_iterator::operator<`: lexicographic on (row, col). */
  predicate Before(x: Cell, y: Cell)
  {
    x.row < y.row || (x.row == y.row && x.col < y.col)
  }

  lemma BeforeTransitive(x: Cell, y: Cell, z: Cell)
    requires Before(x, y) && Before(y, z)
    ensures Before(x, z)
  {
  }

  /** `Before` is a strict total order on positions. */
  lemma BeforeTrichotomy(x: Cell, y: Cell)
    ensures Before(x, y) || Before(y, x) || x == y
    ensures !(Before(x, y) && Before(y, x)) && !Before(x, x)
  {
  }

  // ---------------------------------------------------------------------------
  // square_iterator_helper

  /** `square_iterator_helper::next`. */
  function SquareNext(size: nat, x: Cell): (y: Cell)
    ensures Before(x, y)
  {
    if x.col + 1 >= size then Cell(x.row + 1, 0) else Cell(x.row, x.col + 1)
  }

  /** `square_iterator_helper::prev` as written: at column 0 it moves to column `size`. */
  function SquarePrev(size: nat, x: Cell): Cell
    requires x.row > 0 || x.col > 0
  {
    if x.col > 0 then Cell(x.row, x.col - 1) else Cell(x.row - 1, size)
  }

  /** `prev` with the last column `size - 1`, as a backward step of a row-major walk needs. */
  function SquarePrevFixed(size: nat, x: Cell): Cell
    requires size > 0 && (x.row > 0 || x.col > 0)
  {
    if x.col > 0 then Cell(x.row, x.col - 1) else Cell(x.row - 1, size - 1)
  }

  /** Where the square walk stands after `k` calls of `next` from `begin` = (0, 0). */
  function SquareAfter(size: nat, k: nat): Cell
  {
    if k == 0 then Cell(0, 0) else SquareNext(size, SquareAfter(size, k - 1))
  }

  /** Step `k` of the square walk is the cell at row-major position `k`. */
  lemma {:induction false} SquareWalk(size: nat, k: nat)
    requires k < Square(size)
    ensures SquareAfter(size, k).row < size && SquareAfter(size, k).col < size
    ensures Pos(size, SquareAfter(size, k).row, SquareAfter(size, k).col) == k
  {
    if k > 0 {
      SquareWalk(size, k - 1);
      var x := SquareAfter(size, k - 1);
      if x.col + 1 >= size && x.row + 1 >= size {
        RowStartMono(size, x.row, size);
      }
    }
  }

  /** The square walk over `size > 0` meets `end` = (size, 0) after exactly `size * size` steps. */
  lemma SquareWalkEnds(size: nat)
    requires size > 0
    ensures SquareAfter(size, Square(size)) == Cell(size, 0)
    ensures forall k :: 0 <= k < Square(size) ==> SquareAfter(size, k) != Cell(size, 0)
  {
    CellIndex(size, size - 1, size - 1);
    var last := Square(size) - 1;
    SquareWalk(size, last);
    var x := SquareAfter(size, last);
    CellOf(size, last);
    CellInjective(size, x.row, x.col, size - 1, size - 1);
    forall k | 0 <= k < Square(size) ensures SquareAfter(size, k) != Cell(size, 0) {
      SquareWalk(size, k);
    }
  }

  /** Over an empty matrix `begin` already equals `end`, so nothing is visited. */
  lemma SquareEmpty()
    ensures SquareAfter(0, 0) == Cell(0, 0) && Square(0) == 0
  {
  }

  /** The square walk is strictly increasing in iterator order, so it never revisits a cell. */
  lemma {:induction false} SquareWalkIncreasing(size: nat, k: nat, k': nat)
    requires k < k'
    ensures Before(SquareAfter(size, k), SquareAfter(size, k'))
    decreases k'
  {
    if k < k' - 1 {
      SquareWalkIncreasing(size, k, k' - 1);
    }
  }

  /** Within a row, `prev` undoes `next`. */
  lemma SquarePrevWithinRow(size: nat, x: Cell)
    requires x.col + 1 < size
    ensures SquarePrev(size, SquareNext(size, x)) == x
  {
  }

  /** Across a row break, `prev` as written lands one column past the last one. */
  lemma SquarePrevOvershoots(size: nat, r: nat)
    requires size > 0
    ensures SquarePrev(size, SquareNext(size, Cell(r, size - 1))) == Cell(r, size)
    ensures SquarePrev(size, SquareNext(size, Cell(r, size - 1))) != Cell(r, size - 1)
  {
  }

  /** The corrected `prev` inverts `next` on every cell of the matrix, and conversely. */
  lemma SquarePrevFixedInverts(size: nat, x: Cell)
    requires x.col < size
    ensures SquarePrevFixed(size, SquareNext(size, x)) == x
    ensures (x.row > 0 || x.col > 0) ==> SquareNext(size, SquarePrevFixed(size, x)) == x
  {
  }

  /** `square_iterator_helper`: the cursor fields that `next` and `prev` update. */
  class SquareCursor {
    var row: nat
    var col: nat
    var size: nat

    /** `square_iterator_helper::begin(size)`. */
    constructor Begin(n: nat)
      ensures row == 0 && col == 0 && size == n
    {
      row, col, size := 0, 0, n;
    }

    /** `square_iterator_helper::end(size)`. */
    constructor End(n: nat)
      ensures row == n && col == 0 && size == n
    {
      row, col, size := n, 0, n;
    }

    method Next()
      modifies this
      ensures Cell(row, col) == SquareNext(size, old(Cell(row, col))) && size == old(size)
    {
      col := col + 1;
      if col >= size {
        col := 0;
        row := row + 1;
      }
    }

    /** As written; stepping back from (0, 0) would wrap the unsigned row, so it is excluded. */
    method Prev()
      requires row > 0 || col > 0
      modifies this
      ensures Cell(row, col) == SquarePrev(size, old(Cell(row, col))) && size == old(size)
    {
      if col > 0 {
        col := col - 1;
      } else {
        row := row - 1;
        col := size;
      }
    }
  }

  // ---------------------------------------------------------------------------
  // ltriangle_iterator_helper (and the identical lower_tr_iterator of mat-mantel)

  /** Number of strict-lower cells in the rows above row `n`: `n * (n - 1) / 2`. */
  function Triangle(n: nat): nat
  {
    if n == 0 then 0 else Triangle(n - 1) + (n - 1)
  }

  lemma {:induction false} TriangleIsHalfProduct(n: nat)
    ensures 2 * Triangle(n) == n * (n - 1)
  {
    if n > 0 {
      TriangleIsHalfProduct(n - 1);
      assert (n - 1) * (n - 2) + 2 * (n - 1) == n * (n - 1);
    }
  }

  lemma {:induction false} TriangleMono(i: nat, k: nat)
    requires i < k
    ensures Triangle(i) + i <= Triangle(k)
    decreases k
  {
    if i < k - 1 {
      TriangleMono(i, k - 1);
    }
  }

  /** `ltriangle_iterator_helper::next`. */
  function LowerNext(x: Cell): (y: Cell)
    ensures Before(x, y)
  {
    if x.col + 1 >= x.row then Cell(x.row + 1, 0) else Cell(x.row, x.col + 1)
  }

  /** `ltriangle_iterator_helper::prev`: row 0 or row 1 would wrap the unsigned cursor. */
  function LowerPrev(x: Cell): Cell
    requires x.col > 0 || x.row >= 2
  {
    if x.col > 0 then Cell(x.row, x.col - 1) else Cell(x.row - 1, x.row - 2)
  }

  /** Where the lower-triangle walk stands after `k` calls of `next` from `begin` = (1, 0). */
  function LowerAfter(k: nat): Cell
  {
    if k == 0 then Cell(1, 0) else LowerNext(LowerAfter(k - 1))
  }

  /** Step `k` of the walk is the `k`-th strict-lower cell in row-major order. */
  lemma {:induction false} LowerWalk(k: nat)
    ensures LowerAfter(k).col < LowerAfter(k).row
    ensures Triangle(LowerAfter(k).row) + LowerAfter(k).col == k
  {
    if k > 0 {
      LowerWalk(k - 1);
    }
  }

  /** Distinct strict-lower cells have distinct walk positions. */
  lemma TrianglePosInjective(r: nat, c: nat, i: nat, j: nat)
    requires c < r && j < i && Triangle(r) + c == Triangle(i) + j
    ensures r == i && c == j
  {
    if r < i {
      TriangleMono(r, i);
    } else if i < r {
      TriangleMono(i, r);
    }
  }

  /** Each strict-lower cell is visited, at step `Triangle(i) + j`. */
  lemma LowerWalkVisits(i: nat, j: nat, k: nat)
    requires j < i && k == Triangle(i) + j
    ensures LowerAfter(k) == Cell(i, j)
  {
    LowerWalk(k);
    TrianglePosInjective(LowerAfter(k).row, LowerAfter(k).col, i, j);
  }

  /**
   * For `size >= 1` the walk visits only cells of the matrix and meets
   * `end` = (size, 0) after exactly `size * (size - 1) / 2` steps.
   */
  lemma LowerWalkEnds(size: nat)
    requires size >= 1
    ensures LowerAfter(Triangle(size)) == Cell(size, 0)
    ensures forall k :: 0 <= k < Triangle(size) ==> LowerAfter(k).row < size
  {
    LowerWalkVisits(size, 0, Triangle(size));
    forall k | 0 <= k < Triangle(size) ensures LowerAfter(k).row < size {
      LowerWalk(k);
      var x := LowerAfter(k);
      if x.row >= size {
        if x.row > size {
          TriangleMono(size, x.row);
        }
      }
    }
  }

  /**
   * For `size == 0`, `end` = (0, 0) lies before `begin` = (1, 0) and the walk
   * never meets it: a loop from `begin` to `end` does not stop.
   */
  lemma LowerWalkMissesEmptyEnd(k: nat)
    ensures LowerAfter(k) != Cell(0, 0)
    ensures Before(Cell(0, 0), LowerAfter(k))
  {
    LowerWalk(k);
  }

  /** The end a loop over an empty triangle needs: `begin` itself when `size < 2`. */
  function LowerEndFixed(size: nat): Cell
  {
    if size == 0 then Cell(1, 0) else Cell(size, 0)
  }

  /** With the corrected end every size, 0 included, takes `size * (size - 1) / 2` steps. */
  lemma LowerWalkEndsFixed(size: nat)
    ensures LowerAfter(Triangle(size)) == LowerEndFixed(size)
    ensures forall k :: 0 <= k < Triangle(size) ==> LowerAfter(k) != LowerEndFixed(size)
  {
    if size > 0 {
      LowerWalkEnds(size);
    }
  }

  /** `prev` undoes `next` on every strict-lower cell. */
  lemma LowerPrevInverts(x: Cell)
    requires x.col < x.row
    ensures LowerPrev(LowerNext(x)) == x
  {
  }

  /** `next` undoes `prev` on every strict-lower cell other than `begin`. */
  lemma LowerNextInverts(x: Cell)
    requires x.col < x.row && x != Cell(1, 0)
    ensures LowerNext(LowerPrev(x)) == x
  {
  }

  /** The walk is strictly increasing in iterator order. */
  lemma {:induction false} LowerWalkIncreasing(k: nat, k': nat)
    requires k < k'
    ensures Before(LowerAfter(k), LowerAfter(k'))
    decreases k'
  {
    if k < k' - 1 {
      LowerWalkIncreasing(k, k' - 1);
    }
  }

  /** `ltriangle_iterator_helper`: the cursor fields that `next` and `prev` update. */
  class LowerCursor {
    var row: nat
    var col: nat
    var size: nat

    /** `ltriangle_iterator_helper::begin(size)`. */
    constructor Begin(n: nat)
      ensures row == 1 && col == 0 && size == n
    {
      row, col, size := 1, 0, n;
    }

    /** `ltriangle_iterator_helper::end(size)`. */
    constructor End(n: nat)
      ensures row == n && col == 0 && size == n
    {
      row, col, size := n, 0, n;
    }

    method Next()
      modifies this
      ensures Cell(row, col) == LowerNext(old(Cell(row, col))) && size == old(size)
    {
      col := col + 1;
      if col >= row {
        col := 0;
        row := row + 1;
      }
    }

    method Prev()
      requires col > 0 || row >= 2
      modifies this
      ensures Cell(row, col) == LowerPrev(old(Cell(row, col))) && size == old(size)
    {
      if col > 0 {
        col := col - 1;
      } else {
        row := row - 1;
        col := row - 1;
      }
    }
  }
}

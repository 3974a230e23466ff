/*
 * The grid as a value: a rectangle of cells, row by row, with the two kinds
 * of write the engine makes to it (an array store `Put` and a store through
 * the status setter `Write`) and the board `Fill` produces. The counting
 * rule is in `Rules`, the sweep of `Live` in `Generation`.
 */
module Boards {
  import opened Cells

  /** `board[i][j]` is the cell in row `i`, column `j`. */
  type Board = seq<seq<Cell>>

  /** A non-empty rectangle: every row is as long as the first. */
  predicate IsGrid(b: Board)
  {
    |b| >= 1 && |b[0]| >= 1 && forall i :: 0 <= i < |b| ==> |b[i]| == |b[0]|
  }

  function Height(b: Board): nat
  {
    |b|
  }

  function Width(b: Board): nat
  {
    if |b| == 0 then 0 else |b[0]|
  }

  predicate SameShape(a: Board, b: Board)
  {
    IsGrid(a) && IsGrid(b) && |a| == |b| && Width(a) == Width(b)
  }

  predicate InGrid(b: Board, p: int, q: int)
  {
    0 <= p < |b| && 0 <= q < |b[p]|
  }

  /** Two boards of one shape that agree on every cell are equal. */
  lemma SameBoard(a: Board, b: Board)
    requires SameShape(a, b)
    requires forall p, q :: InGrid(a, p, q) ==> a[p][q] == b[p][q]
    ensures a == b
  {
    forall p | 0 <= p < |a|
      ensures a[p] == b[p]
    {
      assert forall q :: 0 <= q < |a[p]| ==> InGrid(a, p, q);
    }
  }

  /** Store cell `c` at `(p, q)`: the array write `_cells[p, q] = c`. */
  function Put(b: Board, p: int, q: int, c: Cell): (r: Board)
    requires IsGrid(b) && InGrid(b, p, q)
    ensures SameShape(r, b)
    ensures r[p][q] == c
    ensures forall i, j :: InGrid(b, i, j) && (i != p || j != q) ==> r[i][j] == b[i][j]
  {
    b[p := b[p][q := c]]
  }

  /** Set the status of the cell at `(p, q)` through the setter: `_cells[p, q].Status = v`. */
  function Write(b: Board, p: int, q: int, v: Status): (r: Board)
    requires IsGrid(b) && InGrid(b, p, q)
    ensures SameShape(r, b)
    ensures r[p][q] == Assign(b[p][q], v)
    ensures forall i, j :: InGrid(b, i, j) && (i != p || j != q) ==> r[i][j] == b[i][j]
  {
    Put(b, p, q, Assign(b[p][q], v))
  }

  /** A `rows` by `cols` board whose every cell is a fresh cell assigned `s`. */
  function Filled(rows: nat, cols: nat, s: Status): (r: Board)
    requires rows >= 1 && cols >= 1
    ensures IsGrid(r) && Height(r) == rows && Width(r) == cols
    ensures forall p, q :: InGrid(r, p, q) ==> r[p][q] == FreshCell(s)
  {
    seq(rows, _ => seq(cols, _ => FreshCell(s)))
  }

  /** Filling with `Dead` leaves every cell `Dead`; with `Living` or `Emerging`, every cell `Emerging`. */
  lemma FilledStatuses(rows: nat, cols: nat, s: Status, p: int, q: int)
    requires rows >= 1 && cols >= 1 && 0 <= p < rows && 0 <= q < cols
    ensures s == Dead ==> Filled(rows, cols, s)[p][q] == Cell(Dead, false)
    ensures s == Living ==> Filled(rows, cols, s)[p][q] == Cell(Emerging, true)
    ensures s == Emerging ==> Filled(rows, cols, s)[p][q] == Cell(Emerging, false)
  {
    assert InGrid(Filled(rows, cols, s), p, q);
  }

  ghost predicate NoLiving(b: Board)
  {
    forall p, q :: InGrid(b, p, q) ==> b[p][q].status != Living
  }

  ghost predicate AllDead(b: Board)
  {
    forall p, q :: InGrid(b, p, q) ==> b[p][q].status == Dead
  }
}

/*
 * The seeding painters of the grid, as values: each painter is a loop that
 * sets one cell per iteration to `Living` through the setter (a "stroke"),
 * or, for the random pattern, replaces cells by fresh `Living` cells.
 * `Seeded` is the dispatch of `Seed` over the eleven patterns.
 */
module Patterns {
  import opened Cells
  import opened Boards
  import opened SeedPatterns

  /**
   * `(int)Math.Ceiling(n / 2.0) - 1`, computed on integers: the middle row
   * (or column), the upper of the two middle ones when `n` is even.
   */
  function MiddleIndex(n: nat): (m: int)
    requires n >= 1
    ensures 0 <= m < n
    ensures n <= 2 * (m + 1) <= n + 1
  {
    (n + 1) / 2 - 1
  }

  /** `Math.Min(Cols, Rows)`: the length of the diagonals. */
  function Side(rows: nat, cols: nat): (d: nat)
    ensures d <= rows && d <= cols && (d == rows || d == cols)
  {
    if cols < rows then cols else rows
  }

  /** The single loops the painters are made of. */
  datatype Stroke =
    | MiddleRow     // SeedHorizontalLine
    | MiddleColumn  // SeedVerticalLine
    | MainDiagonal  // SeedDiagonalUpDown
    | AntiDiagonal  // SeedDiagonalReversed
    | ArrowTop      // first loop of SeedRightArrow
    | ArrowBottom   // second loop of SeedRightArrow

  /** The stroke's loop counter runs over `0 <= k < StrokeEnd(...)`. */
  function StrokeEnd(s: Stroke, rows: nat, cols: nat): nat
  {
    match s
    case MiddleRow => cols
    case MiddleColumn => rows
    case MainDiagonal => Side(rows, cols)
    case AntiDiagonal => Side(rows, cols)
    case ArrowTop => Side(rows, cols) / 2
    case ArrowBottom => Side(rows, cols)
  }

  /**
   * Whether iteration `k` writes a cell. Every loop but the second arrow loop
   * always does; that one skips (`continue`) its first half, so its cell
   * `(k, m - k)` is written iff its column is at most one past its row.
   */
  predicate Draws(s: Stroke, rows: nat, cols: nat, k: int): (d: bool)
    ensures s != ArrowBottom ==> d
    ensures s == ArrowBottom ==> (d <==> Side(rows, cols) - 1 - k <= k + 1)
  {
    s != ArrowBottom || k >= (Side(rows, cols) - 1) / 2
  }

  /** The cell iteration `k` writes; every iteration of the loop writes inside the grid. */
  function StrokeCell(s: Stroke, rows: nat, cols: nat, k: int): (c: (int, int))
    requires rows >= 1 && cols >= 1
    ensures 0 <= k < StrokeEnd(s, rows, cols) ==> 0 <= c.0 < rows && 0 <= c.1 < cols
  {
    var m := Side(rows, cols) - 1;
    match s
    case MiddleRow => (MiddleIndex(rows), k)
    case MiddleColumn => (k, MiddleIndex(cols))
    case MainDiagonal => (k, k)
    case AntiDiagonal => (k, m - k)
    case ArrowTop => (k, k)
    case ArrowBottom => (k, m - k)
  }

  /** The cells written by the iterations below `k`, in closed form. */
  predicate DrawnBefore(s: Stroke, rows: nat, cols: nat, k: int, p: int, q: int)
    requires rows >= 1 && cols >= 1
  {
    var m := Side(rows, cols) - 1;
    match s
    case MiddleRow => p == MiddleIndex(rows) && 0 <= q < k
    case MiddleColumn => q == MiddleIndex(cols) && 0 <= p < k
    case MainDiagonal => 0 <= p < k && q == p
    case AntiDiagonal => 0 <= p < k && q == m - p
    case ArrowTop => 0 <= p < k && q == p
    case ArrowBottom => m / 2 <= p < k && q == m - p
  }

  /**
   * The closed form agrees with the loop: iteration `k` adds exactly its own
   * cell (when it writes one), and that cell was not written before, so no
   * stroke sets a cell twice.
   */
  lemma DrawnBeforeStep(s: Stroke, rows: nat, cols: nat, k: nat, p: int, q: int)
    requires rows >= 1 && cols >= 1
    ensures DrawnBefore(s, rows, cols, k + 1, p, q) <==>
              DrawnBefore(s, rows, cols, k, p, q) || (Draws(s, rows, cols, k) && (p, q) == StrokeCell(s, rows, cols, k))
    ensures !DrawnBefore(s, rows, cols, k, StrokeCell(s, rows, cols, k).0, StrokeCell(s, rows, cols, k).1)
  {
  }

  /** The board once the stroke's loop has run the iterations below `k`. */
  function PaintTo(b: Board, s: Stroke, k: int): (r: Board)
    requires IsGrid(b)
    ensures SameShape(r, b)
    ensures forall p, q :: InGrid(b, p, q) ==>
              r[p][q] == if DrawnBefore(s, Height(b), Width(b), k, p, q) then Assign(b[p][q], Living) else b[p][q]
  {
    seq(|b|, p requires 0 <= p < |b| =>
      seq(|b[p]|, q requires 0 <= q < |b[p]| =>
        if DrawnBefore(s, Height(b), Width(b), k, p, q) then Assign(b[p][q], Living) else b[p][q]))
  }

  /** One more iteration of the stroke's loop is one more write through the setter (or, skipped, none). */
  lemma PaintToStep(b: Board, s: Stroke, k: nat)
    requires IsGrid(b) && k < StrokeEnd(s, Height(b), Width(b))
    ensures var c := StrokeCell(s, Height(b), Width(b), k);
            InGrid(b, c.0, c.1) &&
            PaintTo(b, s, k + 1) == if Draws(s, Height(b), Width(b), k) then Write(PaintTo(b, s, k), c.0, c.1, Living)
                                    else PaintTo(b, s, k)
  {
    var rows, cols := Height(b), Width(b);
    var c := StrokeCell(s, rows, cols, k);
    var next := if Draws(s, rows, cols, k) then Write(PaintTo(b, s, k), c.0, c.1, Living) else PaintTo(b, s, k);
    forall p, q | InGrid(b, p, q)
      ensures PaintTo(b, s, k + 1)[p][q] == next[p][q]
    {
      DrawnBeforeStep(s, rows, cols, k, p, q);
    }
    SameBoard(PaintTo(b, s, k + 1), next);
  }

  /** Before the first iteration nothing is painted. */
  lemma PaintToStart(b: Board, s: Stroke)
    requires IsGrid(b)
    ensures PaintTo(b, s, 0) == b
  {
    SameBoard(PaintTo(b, s, 0), b);
  }

  /** The board after the whole stroke. */
  function Paint(b: Board, s: Stroke): (r: Board)
    requires IsGrid(b)
    ensures SameShape(r, b)
  {
    PaintTo(b, s, StrokeEnd(s, Height(b), Width(b)))
  }

  /** Each stroke's cells, in the terms of the grid. */
  predicate OnStroke(s: Stroke, rows: nat, cols: nat, p: int, q: int)
    requires rows >= 1 && cols >= 1
  {
    DrawnBefore(s, rows, cols, StrokeEnd(s, rows, cols), p, q)
  }

  /**
   * The horizontal line is the whole of row `ceil(rows / 2) - 1`, the vertical
   * line the whole of column `ceil(cols / 2) - 1`; with `m = min(rows, cols) - 1`
   * the diagonal is `(i, i)` and the reversed diagonal `(i, m - i)` for
   * `0 <= i <= m`; the arrow's top is `(i, i)` for `i < min(rows, cols) / 2`,
   * its bottom `(j, m - j)` for `m / 2 <= j <= m`.
   */
  lemma StrokeCells(rows: nat, cols: nat, p: int, q: int)
    requires rows >= 1 && cols >= 1 && 0 <= p < rows && 0 <= q < cols
    ensures var m := Side(rows, cols) - 1;
            && (OnStroke(MiddleRow, rows, cols, p, q) <==> p == MiddleIndex(rows))
            && (OnStroke(MiddleColumn, rows, cols, p, q) <==> q == MiddleIndex(cols))
            && (OnStroke(MainDiagonal, rows, cols, p, q) <==> p == q && p <= m)
            && (OnStroke(AntiDiagonal, rows, cols, p, q) <==> p + q == m)
            && (OnStroke(ArrowTop, rows, cols, p, q) <==> p == q && p < Side(rows, cols) / 2)
            && (OnStroke(ArrowBottom, rows, cols, p, q) <==> p + q == m && m / 2 <= p)
  {
  }

  /** Every cell a stroke reaches is set to `Living` through the setter, every other cell is untouched. */
  lemma PaintCell(b: Board, s: Stroke, p: int, q: int)
    requires IsGrid(b) && InGrid(b, p, q)
    ensures Paint(b, s)[p][q] == if OnStroke(s, Height(b), Width(b), p, q) then Assign(b[p][q], Living) else b[p][q]
  {
  }

  // ---------------------------------------------------------------------
  // The random pattern
  // ---------------------------------------------------------------------

  /**
   * The values `Random.Next(n - 1)` can return lie in `[0, DrawLimit(n))`:
   * `Next(max)` draws below `max`, and `Next(0)` returns 0.
   */
  function DrawLimit(n: nat): (d: nat)
    requires n >= 1
    ensures 1 <= d <= n
    ensures n >= 2 ==> d == n - 1
  {
    if n - 1 > 0 then n - 1 else 1
  }

  /** A position `(rd.Next(Rows - 1), rd.Next(Cols - 1))` can produce. */
  predicate Drawable(rows: nat, cols: nat, pos: (int, int))
    requires rows >= 1 && cols >= 1
  {
    0 <= pos.0 < DrawLimit(rows) && 0 <= pos.1 < DrawLimit(cols)
  }

  /** The board after storing a fresh `Living` cell at each of the drawn positions. */
  function RandomCells(b: Board, draws: seq<(int, int)>): (r: Board)
    requires IsGrid(b)
    ensures SameShape(r, b)
    ensures forall p, q :: InGrid(b, p, q) ==> r[p][q] == if (p, q) in draws then FreshCell(Living) else b[p][q]
  {
    seq(|b|, p requires 0 <= p < |b| =>
      seq(|b[p]|, q requires 0 <= q < |b[p]| => if (p, q) in draws then FreshCell(Living) else b[p][q]))
  }

  /** With no draws the board is as it was. */
  lemma RandomCellsNone(b: Board)
    requires IsGrid(b)
    ensures RandomCells(b, []) == b
  {
    SameBoard(RandomCells(b, []), b);
  }

  /** One more draw is one more `_cells[x, y] = new Cell { Status = Living }`. */
  lemma RandomCellsStep(b: Board, draws: seq<(int, int)>, k: nat)
    requires IsGrid(b) && k < |draws| && InGrid(b, draws[k].0, draws[k].1)
    ensures RandomCells(b, draws[..k + 1])
            == Put(RandomCells(b, draws[..k]), draws[k].0, draws[k].1, FreshCell(Living))
  {
    var next := Put(RandomCells(b, draws[..k]), draws[k].0, draws[k].1, FreshCell(Living));
    assert draws[..k + 1] == draws[..k] + [draws[k]];
    forall p, q | InGrid(b, p, q)
      ensures RandomCells(b, draws[..k + 1])[p][q] == next[p][q]
    {
      assert (p, q) in draws[..k + 1] <==> (p, q) in draws[..k] || (p, q) == draws[k];
    }
    SameBoard(RandomCells(b, draws[..k + 1]), next);
  }

  /** The cells in which two boards of one shape differ. */
  function Changed(a: Board, b: Board): set<(int, int)>
  {
    set p, q | 0 <= p < |a| && 0 <= q < |a[p]| && p < |b| && q < |b[p]| && a[p][q] != b[p][q] :: (p, q)
  }

  lemma {:induction false} DistinctDraws(draws: seq<(int, int)>)
    ensures |set k | 0 <= k < |draws| :: draws[k]| <= |draws|
  {
    if draws != [] {
      var init := draws[..|draws| - 1];
      DistinctDraws(init);
      assert (set k | 0 <= k < |draws| :: draws[k])
             == (set k | 0 <= k < |init| :: init[k]) + {draws[|draws| - 1]};
    }
  }

  lemma {:induction false} SubsetSize<T>(a: set<T>, b: set<T>)
    requires a <= b
    ensures |a| <= |b|
    decreases b
  {
    if a != {} {
      var x :| x in a;
      SubsetSize(a - {x}, b - {x});
    }
  }

  /**
   * Seeding `n` random cells changes at most `n` cells (drawn positions may
   * repeat); every changed cell now holds a fresh cell born `Emerging`, and
   * lies below the last row and left of the last column of a grid with more
   * than one row and column.
   */
  lemma RandomCellsChange(b: Board, draws: seq<(int, int)>)
    requires IsGrid(b)
    requires forall k :: 0 <= k < |draws| ==> Drawable(Height(b), Width(b), draws[k])
    ensures |Changed(b, RandomCells(b, draws))| <= |draws|
    ensures forall p, q :: InGrid(b, p, q) && RandomCells(b, draws)[p][q] != b[p][q] ==>
              RandomCells(b, draws)[p][q] == Cell(Emerging, true) && Drawable(Height(b), Width(b), (p, q))
    ensures forall p, q :: InGrid(b, p, q) && ((Height(b) >= 2 && p == Height(b) - 1) || (Width(b) >= 2 && q == Width(b) - 1)) ==>
              RandomCells(b, draws)[p][q] == b[p][q]
  {
    var r := RandomCells(b, draws);
    var drawn := set k | 0 <= k < |draws| :: draws[k];
    forall c | c in Changed(b, r)
      ensures c in drawn
    {
      var p, q := c.0, c.1;
      assert InGrid(b, p, q) && r[p][q] != b[p][q];
      var k :| 0 <= k < |draws| && draws[k] == (p, q);
    }
    DistinctDraws(draws);
    SubsetSize(Changed(b, r), drawn);
    forall p, q | InGrid(b, p, q) && r[p][q] != b[p][q]
      ensures Drawable(Height(b), Width(b), (p, q))
    {
      var k :| 0 <= k < |draws| && draws[k] == (p, q);
    }
  }

  // ---------------------------------------------------------------------
  // Seed
  // ---------------------------------------------------------------------

  /** The board after `Seed(pattern, |draws|)`, the random positions given by `draws`. */
  function Seeded(b: Board, pattern: SeedPattern, draws: seq<(int, int)>): (r: Board)
    requires IsGrid(b)
    ensures SameShape(r, b)
  {
    match pattern
    case Random => RandomCells(b, draws)
    case Plus => Paint(Paint(b, MiddleRow), MiddleColumn)
    case Cross => Paint(Paint(b, MainDiagonal), AntiDiagonal)
    case DiagonalUpDown => Paint(b, MainDiagonal)
    case DiagonalReversed => Paint(b, AntiDiagonal)
    case HorizontalLine => Paint(b, MiddleRow)
    case VerticalLine => Paint(b, MiddleColumn)
    case FilledSquare => b
    case EmptySquare => b
    case RightArrow => Paint(Paint(b, ArrowTop), ArrowBottom)
    case LeftArrow => b
  }

  /** The three reserved patterns leave the grid as it was. */
  lemma ReservedPatternsKeepBoard(b: Board, pattern: SeedPattern, draws: seq<(int, int)>)
    requires IsGrid(b) && pattern in {FilledSquare, EmptySquare, LeftArrow}
    ensures Seeded(b, pattern, draws) == b
  {
  }

  /**
   * Plus is the horizontal line, then the vertical one: the crossing cell is
   * set `Living` twice, so a `Dead` crossing ends `Living` (not `Emerging`),
   * while the other `Dead` cells of the lines are born `Emerging`.
   */
  lemma PlusCells(b: Board, p: int, q: int)
    requires IsGrid(b) && InGrid(b, p, q)
    ensures var r, mr, mc := Seeded(b, Plus, []), MiddleIndex(Height(b)), MiddleIndex(Width(b));
            r[p][q] == if p == mr && q == mc then Assign(Assign(b[p][q], Living), Living)
                       else if p == mr || q == mc then Assign(b[p][q], Living)
                       else b[p][q]
    ensures p == MiddleIndex(Height(b)) && q == MiddleIndex(Width(b)) ==> Seeded(b, Plus, [])[p][q] == Cell(Living, false)
  {
    var h := Paint(b, MiddleRow);
    PaintCell(b, MiddleRow, p, q);
    PaintCell(h, MiddleColumn, p, q);
    StrokeCells(Height(b), Width(b), p, q);
    AssignLivingTwice(b[p][q]);
  }

  /**
   * Cross is the diagonal, then the reversed diagonal; they meet only when
   * `m = min(rows, cols) - 1` is even, in `(m / 2, m / 2)`, which is set
   * `Living` twice and so ends `Living`.
   */
  lemma CrossCells(b: Board, p: int, q: int)
    requires IsGrid(b) && InGrid(b, p, q)
    ensures var r, m := Seeded(b, Cross, []), Side(Height(b), Width(b)) - 1;
            r[p][q] == if p == q && p + q == m then Assign(Assign(b[p][q], Living), Living)
                       else if (p == q && p <= m) || p + q == m then Assign(b[p][q], Living)
                       else b[p][q]
    ensures var m := Side(Height(b), Width(b)) - 1;
            p == q && p + q == m ==> Seeded(b, Cross, [])[p][q] == Cell(Living, false)
  {
    var d := Paint(b, MainDiagonal);
    PaintCell(b, MainDiagonal, p, q);
    PaintCell(d, AntiDiagonal, p, q);
    StrokeCells(Height(b), Width(b), p, q);
    AssignLivingTwice(b[p][q]);
  }

  /**
   * The arrow's two halves never share a cell, so every arrow cell is set
   * `Living` exactly once: a `Dead` one is born `Emerging`.
   */
  lemma RightArrowCells(b: Board, p: int, q: int)
    requires IsGrid(b) && InGrid(b, p, q)
    ensures var r, side := Seeded(b, RightArrow, []), Side(Height(b), Width(b));
            r[p][q] == if (p == q && p < side / 2) || (p + q == side - 1 && (side - 1) / 2 <= p)
                       then Assign(b[p][q], Living) else b[p][q]
  {
    var side := Side(Height(b), Width(b));
    var t := Paint(b, ArrowTop);
    PaintCell(b, ArrowTop, p, q);
    PaintCell(t, ArrowBottom, p, q);
    StrokeCells(Height(b), Width(b), p, q);
    if p == q && p < side / 2 {
      assert !(p + q == side - 1);
    }
  }

  /** A stroke never kills: a cell it leaves `Dead` is one it did not change. */
  lemma PaintNeverKills(b: Board, s: Stroke)
    requires IsGrid(b)
    ensures forall p, q :: InGrid(b, p, q) && Paint(b, s)[p][q].status == Dead ==> Paint(b, s)[p][q] == b[p][q]
  {
  }

  /**
   * Seeding only ever turns cells on: every cell that is `Dead` afterwards is
   * unchanged, so no `Living` or `Emerging` cell becomes `Dead`.
   */
  lemma SeedNeverKills(b: Board, pattern: SeedPattern, draws: seq<(int, int)>)
    requires IsGrid(b)
    ensures forall p, q :: InGrid(b, p, q) && Seeded(b, pattern, draws)[p][q].status == Dead ==>
              Seeded(b, pattern, draws)[p][q] == b[p][q]
  {
    match pattern
    case Plus =>
      PaintNeverKills(b, MiddleRow);
      PaintNeverKills(Paint(b, MiddleRow), MiddleColumn);
    case Cross =>
      PaintNeverKills(b, MainDiagonal);
      PaintNeverKills(Paint(b, MainDiagonal), AntiDiagonal);
    case RightArrow =>
      PaintNeverKills(b, ArrowTop);
      PaintNeverKills(Paint(b, ArrowTop), ArrowBottom);
    case DiagonalUpDown => PaintNeverKills(b, MainDiagonal);
    case DiagonalReversed => PaintNeverKills(b, AntiDiagonal);
    case HorizontalLine => PaintNeverKills(b, MiddleRow);
    case VerticalLine => PaintNeverKills(b, MiddleColumn);
    case _ =>
  }
}

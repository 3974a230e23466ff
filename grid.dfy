/*
 * The grid backend: a fixed `Rows` x `Cols` array of cells that the seeding
 * painters, `Fill` and `Live` update in place, and the row-major read-out the
 * renderer pulls after every step.
 */
module Grid {
  import opened Cells
  import opened SeedPatterns
  import opened Boards
  import opened Rules
  import opened Generation
  import opened Patterns

  /** `a * cols + b`, the row-major position of `(a, b)` in a grid of `cols` columns. */
  function FlatIndex(cols: nat, a: int, b: int): int
  {
    a * cols + b
  }

  lemma FlatIndexOf(rows: nat, cols: nat, a: int, b: int)
    requires 0 <= a < rows && 0 <= b < cols
    ensures 0 <= FlatIndex(cols, a, b) < rows * cols
    ensures FlatIndex(cols, a, b) / cols == a && FlatIndex(cols, a, b) % cols == b
  {
    var k := a * cols + b;
    var d := k / cols - a;
    assert d * cols == b - k % cols;
    assert -(cols as int) < d * cols < cols;
    assert d == 0;
    assert (rows - 1 - a) * cols >= 0;
  }

  /** Every place in the read-out belongs to a position of the grid. */
  lemma FlatPosition(rows: nat, cols: nat, k: int)
    requires 0 <= k < rows * cols
    ensures 0 < cols && 0 <= k / cols < rows && 0 <= k % cols < cols
  {
  }

  /** Every position of the grid has its own place in the read-out. */
  lemma FlatIndices(rows: nat, cols: nat)
    ensures forall a, b :: 0 <= a < rows && 0 <= b < cols ==>
              0 <= FlatIndex(cols, a, b) < rows * cols
              && FlatIndex(cols, a, b) / cols == a && FlatIndex(cols, a, b) % cols == b
  {
    forall a, b | 0 <= a < rows && 0 <= b < cols
      ensures 0 <= FlatIndex(cols, a, b) < rows * cols
              && FlatIndex(cols, a, b) / cols == a && FlatIndex(cols, a, b) % cols == b
    {
      FlatIndexOf(rows, cols, a, b);
    }
  }

  class GridBackend {
    const Rows: nat
    const Cols: nat
    const cells: array2<Cell>
    /** The contents of `cells` as a value. */
    ghost var board: Board

    ghost predicate Valid()
      reads this, cells
    {
      && Rows >= 1 && Cols >= 1
      && cells.Length0 == Rows && cells.Length1 == Cols
      && IsGrid(board) && Height(board) == Rows && Width(board) == Cols
      && forall i, j :: 0 <= i < Rows && 0 <= j < Cols ==> cells[i, j] == board[i][j]
    }

    /** `new Cell[rows, cols]`: every cell is the zero-valued struct, so `Dead`. */
    constructor (rows: nat, cols: nat)
      requires rows >= 1 && cols >= 1
      ensures Valid() && fresh(cells)
      ensures Rows == rows && Cols == cols
      ensures forall i, j :: InGrid(board, i, j) ==> board[i][j] == DefaultCell
    {
      Rows := rows;
      Cols := cols;
      cells := new Cell[rows, cols]((i, j) => DefaultCell);
      board := seq(rows, i => seq(cols, j => DefaultCell));
    }

    /**
     * The flattened, row-major status read-out: one status per cell, the cell
     * in row `i` and column `j` at position `i * Cols + j`.
     */
    function GetCellsStatuses(): (r: seq<Status>)
      reads this, cells
      requires Valid()
      ensures |r| == Rows * Cols
      ensures forall i, j :: 0 <= i < Rows && 0 <= j < Cols ==>
                0 <= FlatIndex(Cols, i, j) < |r| && r[FlatIndex(Cols, i, j)] == cells[i, j].status
    {
      FlatIndices(Rows, Cols);
      seq(Rows * Cols, k requires 0 <= k < Rows * Cols reads cells =>
        FlatPosition(Rows, Cols, k); cells[k / Cols, k % Cols].status)
    }

    /** `_cells[p, q].Status = v`: one write through the setter. */
    method SetStatus(p: int, q: int, v: Status)
      requires Valid() && 0 <= p < Rows && 0 <= q < Cols
      modifies this, cells
      ensures Valid() && board == Write(old(board), p, q, v)
    {
      cells[p, q] := Assign(cells[p, q], v);
      board := Write(board, p, q, v);
    }

    /** `_cells[p, q] = c`: one cell replaced by another. */
    method PutCell(p: int, q: int, c: Cell)
      requires Valid() && 0 <= p < Rows && 0 <= q < Cols
      modifies this, cells
      ensures Valid() && board == Put(old(board), p, q, c)
    {
      cells[p, q] := c;
      board := Put(board, p, q, c);
    }

    /**
     * Seed the grid with one pattern, on top of what it holds. `draws` are the
     * positions the random pattern's generator produces, one per random cell.
     */
    method Seed(pattern: SeedPattern, draws: seq<(int, int)>)
      requires Valid()
      requires forall k :: 0 <= k < |draws| ==> Drawable(Rows, Cols, draws[k])
      modifies this, cells
      ensures Valid() && board == Seeded(old(board), pattern, draws)
    {
      match pattern {
        case Random => SeedRandom(draws);
        case Plus => SeedPlus();
        case Cross => SeedCross();
        case DiagonalUpDown => SeedDiagonalUpDown();
        case DiagonalReversed => SeedDiagonalReversed();
        case HorizontalLine => SeedHorizontalLine();
        case VerticalLine => SeedVerticalLine();
        case FilledSquare =>
        case EmptySquare =>
        case RightArrow => SeedRightArrow();
        case LeftArrow =>
      }
    }

    /**
     * `Seed` called with a raw enumeration value: a value outside the
     * eleven patterns reaches the `default` branch, which reports an
     * invalid pattern and leaves the grid as it was.
     */
    method SeedValue(value: int, draws: seq<(int, int)>) returns (r: Decoded)
      requires Valid()
      requires forall k :: 0 <= k < |draws| ==> Drawable(Rows, Cols, draws[k])
      modifies this, cells
      ensures Valid() && r == Decode(value)
      ensures r.InvalidPattern? ==> board == old(board)
      ensures r.Known? ==> board == Seeded(old(board), r.pattern, draws)
    {
      r := Decode(value);
      if r.Known? {
        Seed(r.pattern, draws);
      }
    }

    /** Store a fresh `Living` cell (born `Emerging`) at each drawn position. */
    method SeedRandom(draws: seq<(int, int)>)
      requires Valid()
      requires forall k :: 0 <= k < |draws| ==> Drawable(Rows, Cols, draws[k])
      modifies this, cells
      ensures Valid() && board == RandomCells(old(board), draws)
    {
      ghost var start := board;
      RandomCellsNone(start);
      assert draws[..0] == [];
      for i := 0 to |draws|
        invariant Valid() && board == RandomCells(start, draws[..i])
      {
        var (x, y) := draws[i];
        RandomCellsStep(start, draws, i);
        PutCell(x, y, FreshCell(Living));
      }
      assert draws[..|draws|] == draws;
    }

    method SeedPlus()
      requires Valid()
      modifies this, cells
      ensures Valid() && board == Paint(Paint(old(board), MiddleRow), MiddleColumn)
    {
      SeedHorizontalLine();
      SeedVerticalLine();
    }

    method SeedHorizontalLine()
      requires Valid()
      modifies this, cells
      ensures Valid() && board == Paint(old(board), MiddleRow)
    {
      ghost var start := board;
      PaintToStart(start, MiddleRow);
      var usedRow := (Rows + 1) / 2 - 1;
      for i := 0 to Cols
        invariant Valid() && board == PaintTo(start, MiddleRow, i)
      {
        PaintToStep(start, MiddleRow, i);
        SetStatus(usedRow, i, Living);
      }
    }

    method SeedVerticalLine()
      requires Valid()
      modifies this, cells
      ensures Valid() && board == Paint(old(board), MiddleColumn)
    {
      ghost var start := board;
      PaintToStart(start, MiddleColumn);
      var usedColumn := (Cols + 1) / 2 - 1;
      for i := 0 to Rows
        invariant Valid() && board == PaintTo(start, MiddleColumn, i)
      {
        PaintToStep(start, MiddleColumn, i);
        SetStatus(i, usedColumn, Living);
      }
    }

    method SeedCross()
      requires Valid()
      modifies this, cells
      ensures Valid() && board == Paint(Paint(old(board), MainDiagonal), AntiDiagonal)
    {
      SeedDiagonalUpDown();
      SeedDiagonalReversed();
    }

    method SeedDiagonalUpDown()
      requires Valid()
      modifies this, cells
      ensures Valid() && board == Paint(old(board), MainDiagonal)
    {
      ghost var start := board;
      PaintToStart(start, MainDiagonal);
      var minCount := if Cols < Rows then Cols else Rows;
      for i := 0 to minCount
        invariant Valid() && board == PaintTo(start, MainDiagonal, i)
      {
        PaintToStep(start, MainDiagonal, i);
        SetStatus(i, i, Living);
      }
    }

    method SeedDiagonalReversed()
      requires Valid()
      modifies this, cells
      ensures Valid() && board == Paint(old(board), AntiDiagonal)
    {
      ghost var start := board;
      PaintToStart(start, AntiDiagonal);
      var minCount := (if Cols < Rows then Cols else Rows) - 1;
      var i := 0;
      while i <= minCount
        invariant 0 <= i <= minCount + 1
        invariant Valid() && board == PaintTo(start, AntiDiagonal, i)
      {
        PaintToStep(start, AntiDiagonal, i);
        SetStatus(i, minCount - i, Living);
        i := i + 1;
      }
    }

    method SeedRightArrow()
      requires Valid()
      modifies this, cells
      ensures Valid() && board == Paint(Paint(old(board), ArrowTop), ArrowBottom)
    {
      SeedArrowTop();
      SeedArrowBottom();
    }

    /** The first loop of `SeedRightArrow`: the top half of the main diagonal. */
    method SeedArrowTop()
      requires Valid()
      modifies this, cells
      ensures Valid() && board == Paint(old(board), ArrowTop)
    {
      ghost var start := board;
      PaintToStart(start, ArrowTop);
      var minCount := (if Cols < Rows then Cols else Rows) / 2;
      for i := 0 to minCount
        invariant Valid() && board == PaintTo(start, ArrowTop, i)
      {
        PaintToStep(start, ArrowTop, i);
        SetStatus(i, i, Living);
      }
    }

    /** The second loop of `SeedRightArrow`: the lower half of the anti-diagonal. */
    method SeedArrowBottom()
      requires Valid()
      modifies this, cells
      ensures Valid() && board == Paint(old(board), ArrowBottom)
    {
      ghost var start := board;
      PaintToStart(start, ArrowBottom);
      var minCount := (if Cols < Rows then Cols else Rows) - 1;
      var j := 0;
      while j <= minCount
        invariant 0 <= j <= minCount + 1
        invariant Valid() && board == PaintTo(start, ArrowBottom, j)
      {
        PaintToStep(start, ArrowBottom, j);
        if j < minCount / 2 {
          j := j + 1;
          continue;
        }
        SetStatus(j, minCount - j, Living);
        j := j + 1;
      }
    }

    /** Replace every cell, row by row, by a fresh cell assigned `s`. */
    method Fill(s: Status)
      requires Valid()
      modifies this, cells
      ensures Valid() && board == Filled(Rows, Cols, s)
    {
      for i := 0 to Rows
        invariant Valid()
        invariant forall p, q :: InGrid(board, p, q) && p < i ==> board[p][q] == FreshCell(s)
      {
        for j := 0 to Cols
          invariant Valid()
          invariant forall p, q :: InGrid(board, p, q) && Before(p, q, i, j) ==> board[p][q] == FreshCell(s)
        {
          PutCell(i, j, FreshCell(s));
        }
      }
      SameBoard(board, Filled(Rows, Cols, s));
    }

    /** One generation: every cell, in row-major order, is set to its next status in place. */
    method Live()
      requires Valid()
      modifies this, cells
      ensures Valid() && board == Sweep(old(board))
    {
      ghost var start := board;
      for i := 0 to Rows
        invariant Valid() && board == SweepTo(start, i, 0)
      {
        for j := 0 to Cols
          invariant Valid() && board == SweepTo(start, i, j)
        {
          var next := GetNextCellStatus(i, j);
          SetStatus(i, j, next);
        }
      }
    }

    /**
     * The 3x3 total of cells whose status is exactly `Living`, the cell itself
     * included, positions off the grid skipped; `Living` for a total of 3,
     * or of 2 when the cell itself is `Living`, and `Dead` otherwise.
     */
    method GetNextCellStatus(x: int, y: int) returns (s: Status)
      requires Valid() && 0 <= x < Rows && 0 <= y < Cols
      ensures s == NextStatus(board, x, y)
    {
      var totalLiving := 0;
      for i := -1 to 2
        invariant totalLiving == BlockCount(board, x, y, i)
      {
        for j := -1 to 2
          invariant totalLiving == BlockCount(board, x, y, i) + RowCount(board, x, y, i, j)
        {
          if 0 <= x - i < Rows && 0 <= y - j < Cols {
            totalLiving := totalLiving + if cells[x - i, y - j].status == Living then 1 else 0;
          }
        }
      }
      s := if totalLiving == 3 || (cells[x, y].status == Living && totalLiving == 2) then Living else Dead;
    }
  }
}

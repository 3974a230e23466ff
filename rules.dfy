/*
 * The per-cell rule of `GetNextCellStatus`: the 3x3 total of cells whose
 * status is exactly `Living`, the cell itself included and positions off the
 * grid skipped, and the status that total selects.
 */
module Rules {
  import opened Cells
  import opened Boards


  /**
   * What `_cells[p, q].Status == Status.Living ? 1 : 0` adds to the total:
   * an out-of-range position throws and the exception is swallowed, so it
   * adds nothing; an `Emerging` cell adds nothing either.
   */
  function LivingAt(b: Board, p: int, q: int): (n: nat)
    ensures n <= 1
  {
    if InGrid(b, p, q) && b[p][q].status == Living then 1 else 0
  }

  /**
   * The total the inner loop (`j` from -1 to 1) has added for row offset `i`
   * once `j` has reached `upTo`: the terms for `(x - i, y - j)` with `j < upTo`.
   */
  function RowCount(b: Board, x: int, y: int, i: int, upTo: int): (n: nat)
    ensures n <= 3
  {
    (if -1 < upTo then LivingAt(b, x - i, y + 1) else 0)
    + (if 0 < upTo then LivingAt(b, x - i, y) else 0)
    + (if 1 < upTo then LivingAt(b, x - i, y - 1) else 0)
  }

  /** The total the outer loop (`i` from -1 to 1) has reached once `i` is `upTo`. */
  function BlockCount(b: Board, x: int, y: int, upTo: int): (n: nat)
    ensures n <= 9
  {
    (if -1 < upTo then RowCount(b, x, y, -1, 2) else 0)
    + (if 0 < upTo then RowCount(b, x, y, 0, 2) else 0)
    + (if 1 < upTo then RowCount(b, x, y, 1, 2) else 0)
  }

  /** `totalLiving`: the 3x3 block around `(x, y)`, the cell itself included. */
  function LivingCount(b: Board, x: int, y: int): (n: nat)
    ensures LivingAt(b, x, y) <= n <= 9
  {
    BlockCount(b, x, y, 2)
  }

  /** The positions of the 3x3 block around `(x, y)` inside the grid whose status is exactly `Living`. */
  function LiveBlock(b: Board, x: int, y: int): set<(int, int)>
  {
    set p, q | x - 1 <= p <= x + 1 && y - 1 <= q <= y + 1 && 0 <= p < |b| && 0 <= q < |b[p]|
                && b[p][q].status == Living :: (p, q)
  }

  /** The living positions of one row of the block. */
  function LiveRow(b: Board, p: int, y: int): set<(int, int)>
  {
    set q | y - 1 <= q <= y + 1 && 0 <= p < |b| && 0 <= q < |b[p]| && b[p][q].status == Living :: (p, q)
  }

  /** The living positions of one row of the block: as many as that row's three terms add up to. */
  lemma LiveRowSize(b: Board, p: int, y: int)
    ensures |LiveRow(b, p, y)| == LivingAt(b, p, y + 1) + LivingAt(b, p, y) + LivingAt(b, p, y - 1)
  {
    var s1 := if LivingAt(b, p, y - 1) == 1 then {(p, y - 1)} else {};
    var s2 := if LivingAt(b, p, y) == 1 then {(p, y)} else {};
    var s3 := if LivingAt(b, p, y + 1) == 1 then {(p, y + 1)} else {};
    forall c | c in LiveRow(b, p, y)
      ensures c in s1 + s2 + s3
    {
      assert c.0 == p && LivingAt(b, p, c.1) == 1;
    }
    assert LiveRow(b, p, y) == s1 + s2 + s3;
    assert |s1 + s2| == |s1| + |s2|;
    assert |s1 + s2 + s3| == |s1 + s2| + |s3|;
  }

  /** The same, in the terms of the inner loop for row offset `i`. */
  lemma RowCountIsLiveRowSize(b: Board, x: int, y: int, i: int)
    ensures |LiveRow(b, x - i, y)| == RowCount(b, x, y, i, 2)
  {
    LiveRowSize(b, x - i, y);
  }

  /** The block splits into its three rows. */
  lemma LiveBlockByRows(b: Board, x: int, y: int)
    ensures LiveBlock(b, x, y) == LiveRow(b, x + 1, y) + LiveRow(b, x, y) + LiveRow(b, x - 1, y)
  {
    forall c | c in LiveBlock(b, x, y)
      ensures c in LiveRow(b, x + 1, y) + LiveRow(b, x, y) + LiveRow(b, x - 1, y)
    {
      if c.0 == x + 1 {
        assert c in LiveRow(b, x + 1, y);
      } else if c.0 == x {
        assert c in LiveRow(b, x, y);
      } else {
        assert c in LiveRow(b, x - 1, y);
      }
    }
  }

  /** Three sets of positions on three different rows: the size of their union is the sum of their sizes. */
  lemma RowsUnionSize(r1: set<(int, int)>, r2: set<(int, int)>, r3: set<(int, int)>, x: int)
    requires forall c :: c in r1 ==> c.0 == x + 1
    requires forall c :: c in r2 ==> c.0 == x
    requires forall c :: c in r3 ==> c.0 == x - 1
    ensures |r1 + r2 + r3| == |r1| + |r2| + |r3|
  {
    assert r1 !! r2 && (r1 + r2) !! r3;
    assert |r1 + r2| == |r1| + |r2|;
  }

  /**
   * The loop's total is the number of living positions in the block: the
   * nine terms count each in-range position once, and nothing else.
   */
  lemma {:induction false} LivingCountIsLiveBlockSize(b: Board, x: int, y: int)
    ensures LivingCount(b, x, y) == |LiveBlock(b, x, y)|
  {
    RowCountIsLiveRowSize(b, x, y, -1);
    RowCountIsLiveRowSize(b, x, y, 0);
    RowCountIsLiveRowSize(b, x, y, 1);
    LiveBlockByRows(b, x, y);
    RowsUnionSize(LiveRow(b, x + 1, y), LiveRow(b, x, y), LiveRow(b, x - 1, y), x);
  }

  /** The status `GetNextCellStatus(x, y)` returns for the board as it stands. */
  function NextStatus(b: Board, x: int, y: int): (s: Status)
    requires InGrid(b, x, y)
    ensures s != Emerging
  {
    var total := LivingCount(b, x, y);
    if total == 3 || (b[x][y].status == Living && total == 2) then Living else Dead
  }

  /** The living cells around `(x, y)`, the cell itself left out. */
  function LivingNeighbours(b: Board, x: int, y: int): set<(int, int)>
  {
    LiveBlock(b, x, y) - {(x, y)}
  }

  /**
   * Because the cell counts itself, the next status (what `GetNextCellStatus`
   * returns) of a `Living` cell is `Living` iff it has one or two living
   * neighbours (not two or three); for any other cell, `Emerging` ones
   * included, it is `Living` iff there are exactly three. (Stored through the
   * setter, that `Living` becomes `Emerging` on a `Dead` cell; see
   * `UpdateTransition`.)
   */
  lemma NextStatusByNeighbours(b: Board, x: int, y: int)
    requires InGrid(b, x, y)
    ensures b[x][y].status == Living ==>
              (NextStatus(b, x, y) == Living <==> 1 <= |LivingNeighbours(b, x, y)| <= 2)
    ensures b[x][y].status != Living ==>
              (NextStatus(b, x, y) == Living <==> |LivingNeighbours(b, x, y)| == 3)
  {
    LivingCountIsLiveBlockSize(b, x, y);
    if b[x][y].status == Living {
      assert (x, y) in LiveBlock(b, x, y);
      assert |LivingNeighbours(b, x, y)| == |LiveBlock(b, x, y)| - 1;
    } else {
      assert (x, y) !in LiveBlock(b, x, y);
      assert LivingNeighbours(b, x, y) == LiveBlock(b, x, y);
    }
  }

  /**
   * The stored result of one update `cell.Status = NextStatus(...)`, as a
   * state machine over the old stored status and the block total: a `Dead`
   * cell with total 3 is born `Emerging`; a `Living` one with total 2 or 3
   * stays `Living`; an `Emerging` one needs total 3 to become `Living`;
   * every other cell ends `Dead`.
   */
  lemma UpdateTransition(b: Board, x: int, y: int)
    requires InGrid(b, x, y)
    ensures var n, c := LivingCount(b, x, y), Assign(b[x][y], NextStatus(b, x, y));
            match b[x][y].status
            case Dead => c.status == (if n == 3 then Emerging else Dead)
            case Living => c.status == (if n == 2 || n == 3 then Living else Dead)
            case Emerging => c.status == (if n == 3 then Living else Dead)
  {
  }
}

/*
 * One generation of the engine, `Live`: a row-major sweep over the grid that
 * writes every cell in place through the setter, so that a cell's next status
 * is computed from a board whose earlier cells already hold their new values.
 */
module Generation {
  import opened Cells
  import opened Boards
  import opened Rules

  /** A rule gives the status to write at `(x, y)`, computed from the board as it stands. */
  type Rule = (Board, int, int) -> Status

  /** `GetNextCellStatus` as a rule; the sweep applies it only inside the grid. */
  function Next(b: Board, x: int, y: int): (s: Status)
    ensures s != Emerging
    ensures !InGrid(b, x, y) ==> s == Dead
  {
    if InGrid(b, x, y) then NextStatus(b, x, y) else Dead
  }

  /** Row-major order: `(p, q)` is visited before `(i, j)`. */
  predicate Before(p: int, q: int, i: int, j: int)
  {
    p < i || (p == i && q < j)
  }

  /** The loop positions of the sweep: a cell, one past the end of a row, or the end of the sweep. */
  predicate SweepPoint(b: Board, i: nat, j: nat)
  {
    IsGrid(b) && ((i < Height(b) && j <= Width(b)) || (i == Height(b) && j == 0))
  }

  /**
   * The board once a row-major sweep that writes `rule` of the current board
   * into each cell, in place, has visited every cell before `(i, j)`.
   */
  function SweepBy(rule: Rule, b: Board, i: nat, j: nat): (r: Board)
    requires SweepPoint(b, i, j)
    ensures SameShape(r, b)
    decreases i, j
  {
    if j == 0 then
      if i == 0 then b else SweepBy(rule, b, i - 1, Width(b))
    else
      var s := SweepBy(rule, b, i, j - 1);
      Write(s, i, j - 1, rule(s, i, j - 1))
  }

  /** The board inside `Live` when its loops have reached `(i, j)`. */
  function SweepTo(b: Board, i: nat, j: nat): (r: Board)
    requires SweepPoint(b, i, j)
    ensures SameShape(r, b)
  {
    SweepBy(Next, b, i, j)
  }

  /** The board after one call to `Live`. */
  function Sweep(b: Board): (r: Board)
    requires IsGrid(b)
    ensures SameShape(r, b)
  {
    SweepTo(b, Height(b), 0)
  }

  /** Cells the sweep has not reached yet still hold their old value. */
  lemma {:induction false} SweepAhead(rule: Rule, b: Board, i: nat, j: nat, p: int, q: int)
    requires SweepPoint(b, i, j) && InGrid(b, p, q) && !Before(p, q, i, j)
    ensures SweepBy(rule, b, i, j)[p][q] == b[p][q]
    decreases i, j
  {
    if j == 0 {
      if i > 0 {
        SweepAhead(rule, b, i - 1, Width(b), p, q);
      }
    } else {
      SweepAhead(rule, b, i, j - 1, p, q);
    }
  }

  /** The cell just visited holds its old value assigned what the rule computed for it. */
  lemma SweepLastWritten(rule: Rule, b: Board, i: nat, j: nat)
    requires SweepPoint(b, i, j) && 0 < j
    ensures SweepBy(rule, b, i, j)[i][j - 1]
            == Assign(b[i][j - 1], rule(SweepBy(rule, b, i, j - 1), i, j - 1))
  {
    SweepAhead(rule, b, i, j - 1, i, j - 1);
  }

  /** A cell the sweep has passed is never written again. */
  lemma {:induction false} SweepSettled(rule: Rule, b: Board, i: nat, j: nat, p: nat, q: nat)
    requires SweepPoint(b, i, j) && InGrid(b, p, q) && Before(p, q, i, j)
    ensures SweepPoint(b, p, q + 1)
    ensures SweepBy(rule, b, i, j)[p][q] == SweepBy(rule, b, p, q + 1)[p][q]
    decreases i, j
  {
    if j == 0 {
      SweepSettled(rule, b, i - 1, Width(b), p, q);
    } else if p != i || q != j - 1 {
      SweepSettled(rule, b, i, j - 1, p, q);
    }
  }

  /**
   * A cell the sweep has passed holds its old value assigned what the rule
   * computed from the board as it stood when the sweep reached the cell.
   */
  lemma SweepBehind(rule: Rule, b: Board, i: nat, j: nat, p: nat, q: nat)
    requires SweepPoint(b, i, j) && InGrid(b, p, q) && Before(p, q, i, j)
    ensures SweepPoint(b, p, q)
    ensures SweepBy(rule, b, i, j)[p][q] == Assign(b[p][q], rule(SweepBy(rule, b, p, q), p, q))
  {
    SweepSettled(rule, b, i, j, p, q);
    SweepLastWritten(rule, b, p, q + 1);
  }

  /**
   * The in-place hazard of `Live`, stated exactly: cell `(p, q)` ends up as its
   * old value assigned `NextStatus` of a board in which every cell before it
   * in row-major order already holds its new value and every other cell its
   * old one.
   */
  lemma SweepInPlace(b: Board, p: nat, q: nat)
    requires IsGrid(b) && InGrid(b, p, q)
    ensures SweepPoint(b, p, q)
    ensures Sweep(b)[p][q] == Assign(b[p][q], NextStatus(SweepTo(b, p, q), p, q))
    ensures forall p', q' :: InGrid(b, p', q') ==>
              SweepTo(b, p, q)[p'][q'] == if Before(p', q', p, q) then Sweep(b)[p'][q'] else b[p'][q']
  {
    SweepBehind(Next, b, Height(b), 0, p, q);
    forall p', q' | InGrid(b, p', q')
      ensures SweepTo(b, p, q)[p'][q'] == if Before(p', q', p, q) then Sweep(b)[p'][q'] else b[p'][q']
    {
      if Before(p', q', p, q) {
        SweepBehind(Next, b, p, q, p', q');
        SweepBehind(Next, b, Height(b), 0, p', q');
      } else {
        SweepAhead(Next, b, p, q, p', q');
      }
    }
  }

  /** A rule that writes `Dead` wherever the board has no `Living` cell. */
  ghost predicate KillsWithoutLiving(rule: Rule)
  {
    forall s, x, y :: IsGrid(s) && NoLiving(s) && InGrid(s, x, y) ==> rule(s, x, y) == Dead
  }

  /** With such a rule the sweep creates no `Living` cell and leaves every cell it visited `Dead`. */
  lemma {:induction false} SweepNoLiving(rule: Rule, b: Board, i: nat, j: nat)
    requires SweepPoint(b, i, j) && NoLiving(b) && KillsWithoutLiving(rule)
    ensures NoLiving(SweepBy(rule, b, i, j))
    ensures forall p, q :: InGrid(b, p, q) && Before(p, q, i, j) ==> SweepBy(rule, b, i, j)[p][q].status == Dead
    decreases i, j
  {
    if j == 0 {
      if i > 0 {
        SweepNoLiving(rule, b, i - 1, Width(b));
      }
    } else {
      SweepNoLiving(rule, b, i, j - 1);
    }
  }

  /** Without a `Living` cell in the block every total is 0, so `GetNextCellStatus` gives `Dead`. */
  lemma NextKillsWithoutLiving()
    ensures KillsWithoutLiving(Next)
  {
    forall s, x, y | IsGrid(s) && NoLiving(s) && InGrid(s, x, y)
      ensures Next(s, x, y) == Dead
    {
      assert LivingCount(s, x, y) == 0;
    }
  }

  /** A board with no `Living` cell (only `Dead` and `Emerging` ones) is all `Dead` after `Live`. */
  lemma SweepKillsWithoutLiving(b: Board)
    requires IsGrid(b) && NoLiving(b)
    ensures AllDead(Sweep(b))
  {
    NextKillsWithoutLiving();
    SweepNoLiving(Next, b, Height(b), 0);
  }

  /** Whatever it is filled with (`Living` gives all `Emerging`), a filled board is all `Dead` after `Live`. */
  lemma FilledThenSweep(rows: nat, cols: nat, s: Status)
    requires rows >= 1 && cols >= 1
    ensures AllDead(Sweep(Filled(rows, cols, s)))
  {
    SweepKillsWithoutLiving(Filled(rows, cols, s));
  }
}

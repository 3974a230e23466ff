# GofL grid backend in Dafny

This project models the simulation engine of GofL, a small Game of Life
application. The engine is the class `GridBackend` (GofL/GridBackend.cs). It
stores a fixed `Rows x Cols` array of `Cell` structs (GofL/Models/Cell.cs). On
that array it offers:

- a row-major read-out of every cell's status;
- `Fill`, which overwrites every cell;
- `Seed`, which paints one of eleven patterns;
- `Live`, which computes one generation.

A cell's `Status` setter holds the birth rule. When `Living` is assigned to a
`Dead` cell, the cell stores `Emerging` and sets its private `_isBorn` flag.

Modules, one concept each:

- `Cells` (cell.dfy): the `Status` and `Cell` values, and the setter as the pure
  function `Assign`. `Cell` is a value-type struct, so an update is a new value.
- `SeedPatterns` (seed_pattern.dfy): the `SeedPattern` enumeration. It also
  decodes a raw enumeration value into a pattern or into the error that the
  `default:` branch of `Seed` raises.
- `Boards` (board.dfy): the grid as a value `seq<seq<Cell>>`. An array write
  (`Put`) and a write through the setter (`Write`) are separate operations.
- `Rules` (rules.dfy): the counting rule of `GetNextCellStatus`, and an
  independent set-based definition of the same count.
- `Generation` (sweep.dfy): the in-place, row-major sweep of `Live` as a
  recursive function, with the lemmas that describe it.
- `Patterns` (patterns.dfy): the painters of `Seed` as strokes. A stroke is a
  loop over `k` that writes one computed cell per iteration. The module states
  each stroke in closed form, and the random pattern over a given sequence of
  drawn positions.
- `Grid` (grid.dfy): `class GridBackend` over an `array2<Cell>`. Its methods
  are written as the source's loops. Each method is proved against the
  functions above through a ghost copy `board` of the array contents.

The model follows what the code does. It does not follow the textbook Game of
Life rules:

- The 3x3 total includes the cell itself. A `Living` cell therefore survives
  with one or two living neighbours.
- Only cells whose status is exactly `Living` are counted. `Emerging` cells are
  not alive for the rule.
- `Live` updates the array in place and in row-major order. Cell `(i, j)` is
  computed from the already-updated cells before it.
- Every write goes through the setter. `Fill(Living)` leaves every cell
  `Emerging`, because each fresh `Dead` cell is "born".

## Model

| member | source | states |
|---|---|---|
| Cells.Assign | GofL/Models/Cell.cs:11-15 | Assigning `Living` to a `Dead` cell stores `Emerging` with the birth flag set. Assigning `Living` to any other cell stores `Living` with the flag clear. Assigning `Dead` or `Emerging` stores that status with the flag clear. |
| Cells.EmergingOnlyFromBirthOrLiteral | GofL/Models/Cell.cs:13-14 | A stored `Emerging` arises exactly from `Living` assigned to `Dead`, or from a literal `Emerging`. |
| Cells.BornMeansEmerging | GofL/Models/Cell.cs:13-14 | The birth flag is set exactly when `Emerging` was stored because `Living` was assigned. |
| Cells.AssignLivingTwice | GofL/Models/Cell.cs:13-14 | Two successive `Living` assignments end `Living` with the flag clear, whatever the cell was. |
| Cells.AssignDeadOnlyFromDead | GofL/Models/Cell.cs:13-14 | An assignment stores `Dead` exactly when `Dead` is assigned. |
| Cells.FreshCell | GofL/GridBackend.cs:184-187 | A fresh default cell assigned `s` is `Dead` for `Dead` and `Emerging` otherwise. Its birth flag is set exactly for `Living`. |
| SeedPatterns.Ordinal | GofL/Models/SeedPattern.cs:6-19 | Each of the eleven members has an underlying value below 11, in declaration order. |
| SeedPatterns.Decode | GofL/GridBackend.cs:47-82 | A raw value reaches a named case exactly when it is in 0..10, and that case has the value as its ordinal. Any other value reaches the rejecting `default` branch, which carries the value. |
| SeedPatterns.DecodeOrdinal | GofL/Models/SeedPattern.cs:6-19 | Every pattern's value decodes back to that pattern. |
| Boards.Put | GofL/GridBackend.cs:94 | An array store changes exactly the one cell and keeps the grid's shape. |
| Boards.Write | GofL/GridBackend.cs:112 | A store through the setter leaves the cell holding its old value assigned `v`. Every other cell is unchanged. |
| Boards.Filled | GofL/GridBackend.cs:178-190 | The filled grid has the given shape, and every cell is a fresh cell assigned `s`. |
| Boards.FilledStatuses | GofL/GridBackend.cs:178-190 | `Fill(Dead)` gives all `Dead`. `Fill(Living)` gives all `Emerging` with the birth flag set. `Fill(Emerging)` gives all `Emerging` with the flag clear. |
| Rules.RowCount | GofL/GridBackend.cs:218-228 | The inner loop's partial total for row offset `i`, once `j` has reached `upTo`, is at most 3. It is the inner loop's invariant in `GetNextCellStatus`. |
| Rules.BlockCount | GofL/GridBackend.cs:216-229 | The outer loop's partial total once `i` has reached `upTo` is at most 9. It is the outer loop's invariant. |
| Rules.LivingCount | GofL/GridBackend.cs:215-229 | `totalLiving` includes the cell's own term and is at most 9. |
| Rules.LivingAt | GofL/GridBackend.cs:220-227 | One term of the total is at most 1. Off-grid positions contribute 0. |
| Rules.LivingCountIsLiveBlockSize | GofL/GridBackend.cs:215-229 | The loop's nine-term total equals the number of in-grid positions of the 3x3 block, the centre included, whose status is exactly `Living`. |
| Rules.NextStatus | GofL/GridBackend.cs:231-233 | The next status is never `Emerging`. It is `Living` for a total of 3, or for a total of 2 when the cell is `Living`. |
| Rules.NextStatusByNeighbours | GofL/GridBackend.cs:213-234 | In terms of neighbours, the centre excluded. For a `Living` cell, the next status (what `GetNextCellStatus` returns) is `Living` iff it has 1 or 2 living neighbours. For a `Dead` or `Emerging` cell it is `Living` iff it has exactly 3. Stored through the setter, that `Living` becomes `Emerging` on a `Dead` cell (`UpdateTransition`). |
| Rules.UpdateTransition | GofL/GridBackend.cs:201 | The stored result of one update, by old status and total `n`. `Dead` becomes `Emerging` iff `n = 3`. `Living` stays `Living` iff `n` is 2 or 3. `Emerging` becomes `Living` iff `n = 3`. Every other case ends `Dead`. |
| Generation.Next | GofL/GridBackend.cs:201 | The status `Live` writes is never `Emerging`, and is `Dead` off the grid. Inside the grid it is `NextStatus` by definition. |
| Generation.SweepBy | GofL/GridBackend.cs:197-203 | The row-major in-place sweep of any rule, up to loop position `(i, j)`, keeps the grid's shape. The sweep lemmas below state its cells. |
| Generation.SweepTo | GofL/GridBackend.cs:197-203 | The board inside `Live` when its loops have reached `(i, j)` keeps the grid's shape. It is `Live`'s loop invariant. |
| Generation.Sweep | GofL/GridBackend.cs:195-204 | The board after `Live` keeps the grid's shape. `SweepInPlace` states its cells. |
| Generation.SweepAhead | GofL/GridBackend.cs:197-203 | Cells the sweep has not reached still hold their old values. |
| Generation.SweepSettled | GofL/GridBackend.cs:197-203 | Once the sweep has passed a cell, that cell is never written again. |
| Generation.SweepBehind | GofL/GridBackend.cs:197-203 | A passed cell holds its old value assigned the rule's result on the board as it stood when the sweep reached the cell. |
| Generation.SweepInPlace | GofL/GridBackend.cs:195-204 | After `Live`, cell `(p, q)` is its old value assigned `NextStatus` of a board whose cells before `(p, q)` in row-major order already hold their new values and whose other cells hold their old ones. |
| Generation.SweepNoLiving | GofL/GridBackend.cs:197-203 | A rule that gives `Dead` on every board without a `Living` cell never creates one during the sweep. Every visited cell ends `Dead`. |
| Generation.NextKillsWithoutLiving | GofL/GridBackend.cs:231-233 | With no `Living` cell on the board every total is 0, so the next status is `Dead`. |
| Generation.SweepKillsWithoutLiving | GofL/GridBackend.cs:195-234 | A grid with no `Living` cell is all `Dead` after `Live`, including one full of `Emerging` cells. |
| Generation.FilledThenSweep | GofL/GridBackend.cs:178-204 | A filled grid, whatever it was filled with, is all `Dead` after one `Live`. |
| Patterns.MiddleIndex | GofL/GridBackend.cs:109 | `ceil(n / 2) - 1` is a valid index of a dimension of size `n`. |
| Patterns.Side | GofL/GridBackend.cs:133 | `Math.Min(Cols, Rows)` (also at :142 and :152) is at most both dimensions and equal to one of them. |
| Patterns.Draws | GofL/GridBackend.cs:159-165 | Every painter loop writes on every iteration except the second arrow loop. Because of its `continue`, that loop writes its cell `(k, m - k)` iff the column is at most one past the row. |
| Patterns.PaintTo | GofL/GridBackend.cs:107-167 | After a painter loop's first `k` iterations, every cell those iterations drew holds its old value assigned `Living`. Every other cell is unchanged, and the shape is kept. |
| Patterns.Paint | GofL/GridBackend.cs:107-167 | The whole painter loop keeps the grid's shape. `PaintCell` states its cells. |
| Patterns.StrokeCell | GofL/GridBackend.cs:107-167 | Every index a painter's loop writes is in bounds. |
| Patterns.DrawnBeforeStep | GofL/GridBackend.cs:107-167 | Each iteration adds exactly its own cell to the cells drawn so far, or none when the arrow's `continue` skips. That cell was not drawn before. |
| Patterns.PaintToStep | GofL/GridBackend.cs:110-165 | One more iteration of a painter's loop is one more write of `Living` through the setter at the iteration's cell, or no write when skipped. |
| Patterns.StrokeCells | GofL/GridBackend.cs:107-167 | In closed form, with `m = min(Rows, Cols) - 1`: the horizontal line is row `ceil(Rows/2)-1` and the vertical line column `ceil(Cols/2)-1`. The diagonal is `(i, i)` for `i <= m` and the reversed diagonal `(i, m-i)`. The arrow's top is `(i, i)` for `i < min/2`, and its bottom is `(j, m-j)` for `m/2 <= j <= m`. |
| Patterns.PaintCell | GofL/GridBackend.cs:107-167 | Every cell on a stroke is assigned `Living` through the setter, and every other cell is unchanged. |
| Patterns.DrawLimit | GofL/GridBackend.cs:93 | `Random.Next(n - 1)` draws from `[0, n - 1)`, or returns 0 when `n = 1`. |
| Patterns.RandomCells | GofL/GridBackend.cs:88-99 | The board after the random loop holds a fresh `Living` cell at each drawn position and the old cell elsewhere, with the same shape. |
| Patterns.RandomCellsStep | GofL/GridBackend.cs:91-98 | One more draw is one more store of a fresh `Living` cell at the drawn position. |
| Patterns.RandomCellsChange | GofL/GridBackend.cs:88-99 | `n` draws change at most `n` cells. Each changed cell is a fresh cell born `Emerging`, with row in `[0, Rows-1)` and column in `[0, Cols-1)`. The last row and the last column of a grid with more than one row and column are never touched. |
| Patterns.Seeded | GofL/GridBackend.cs:45-83 | The board after the `Seed` switch keeps the grid's shape. Each pattern selects its painter, pair of painters, the random cells, or no change. |
| Patterns.ReservedPatternsKeepBoard | GofL/GridBackend.cs:70-78 | `FilledSquare`, `EmptySquare` and `LeftArrow` leave the grid unchanged. |
| Patterns.PlusCells | GofL/GridBackend.cs:101-105 | Plus is the horizontal line then the vertical one. Their crossing is assigned `Living` twice, so a `Dead` crossing ends `Living`, not `Emerging`. |
| Patterns.CrossCells | GofL/GridBackend.cs:125-129 | Cross is the diagonal then the reversed diagonal. A shared centre is assigned twice and ends `Living`. |
| Patterns.RightArrowCells | GofL/GridBackend.cs:149-167 | The arrow's halves are disjoint, so each arrow cell is assigned `Living` once. Every other cell is unchanged. |
| Patterns.PaintNeverKills | GofL/GridBackend.cs:107-167 | A cell that is `Dead` after a stroke was not changed by it. |
| Patterns.SeedNeverKills | GofL/GridBackend.cs:45-167 | Seeding with any pattern never makes a cell `Dead`. Every cell that is `Dead` afterwards is unchanged. |
| Grid.FlatIndices | GofL/GridBackend.cs:36 | Row-major positions `i * Cols + j` are distinct, in range, and decode back to `(i, j)`. |
| Grid.GridBackend.constructor | GofL/GridBackend.cs:22-27 | A new backend has the given dimensions and a fresh array. Every cell is the default, `Dead`, cell. |
| Grid.GridBackend.GetCellsStatuses | GofL/GridBackend.cs:34-37 | The read-out has exactly `Rows * Cols` statuses, with cell `(i, j)` at index `i * Cols + j`. As a function it changes no cell. |
| Grid.GridBackend.SetStatus | GofL/GridBackend.cs:201 | `_cells[p, q].Status = v` changes exactly that cell, to its old value assigned `v`. |
| Grid.GridBackend.PutCell | GofL/GridBackend.cs:94 | `_cells[p, q] = c` changes exactly that cell, to `c`. |
| Grid.GridBackend.Seed | GofL/GridBackend.cs:45-83 | The new grid is `Seeded` of the old one: the painter, or pair of painters, that the pattern selects, or the unchanged grid for the three reserved patterns. |
| Grid.GridBackend.SeedValue | GofL/GridBackend.cs:45-83 | A raw value outside the enumeration is reported as an invalid pattern and leaves the grid unchanged. A valid value seeds its pattern. |
| Grid.GridBackend.SeedRandom | GofL/GridBackend.cs:88-99 | The new grid holds a fresh `Living` cell at each drawn position, and the old cell everywhere else. |
| Grid.GridBackend.SeedPlus | GofL/GridBackend.cs:101-105 | The horizontal line, then the vertical line. |
| Grid.GridBackend.SeedHorizontalLine | GofL/GridBackend.cs:107-114 | Every column of row `ceil(Rows/2)-1` is assigned `Living`. Nothing else changes. |
| Grid.GridBackend.SeedVerticalLine | GofL/GridBackend.cs:116-123 | Every row of column `ceil(Cols/2)-1` is assigned `Living`. Nothing else changes. |
| Grid.GridBackend.SeedCross | GofL/GridBackend.cs:125-129 | The diagonal, then the reversed diagonal. |
| Grid.GridBackend.SeedDiagonalUpDown | GofL/GridBackend.cs:131-138 | `(i, i)` is assigned `Living` for `i < min(Rows, Cols)`. Nothing else changes. |
| Grid.GridBackend.SeedDiagonalReversed | GofL/GridBackend.cs:140-147 | `(i, m - i)` is assigned `Living` for `0 <= i <= m`. Nothing else changes. |
| Grid.GridBackend.SeedRightArrow | GofL/GridBackend.cs:149-167 | The arrow's top stroke, then its bottom stroke. |
| Grid.GridBackend.SeedArrowTop | GofL/GridBackend.cs:151-156 | `(i, i)` is assigned `Living` for `i < min(Rows, Cols) / 2`. Nothing else changes. |
| Grid.GridBackend.SeedArrowBottom | GofL/GridBackend.cs:157-166 | `(j, m - j)` is assigned `Living` for `m/2 <= j <= m`. Earlier iterations `continue`. Nothing else changes. |
| Grid.GridBackend.Fill | GofL/GridBackend.cs:178-190 | The new grid is `Filled(Rows, Cols, s)`: every cell is a fresh cell assigned `s`. |
| Grid.GridBackend.Live | GofL/GridBackend.cs:195-204 | The new grid is `Sweep` of the old one, the in-place row-major sweep whose properties the `Generation` lemmas state. |
| Grid.GridBackend.GetNextCellStatus | GofL/GridBackend.cs:213-234 | The nested loop's count, with off-grid positions skipped, gives exactly `NextStatus` of the current grid. The method reads and changes nothing else. |

## Left out

- The WPF front end (GofL/MainWindow.xaml.cs) and the exception dialog (GofL/App.xaml.cs) are presentation only: timer cadence, painting, message boxes and parsing of combobox text.
- `System.Random` is not modelled. The positions that `rd.Next(Rows - 1)` and `rd.Next(Cols - 1)` produce are the `draws` parameter. Its precondition states the range the generator can return.
- Grid.GridBackend.SeedRandom: the count `numberOfRandomCells` is the length of `draws`, and its default of 10 is not modelled. A negative count runs no iteration in the source, which is the empty `draws`.
- Grid.GridBackend.constructor: requires at least one row and one column. The source also accepts an empty `0 x n` array, and a negative dimension throws there.
- `Math.Ceiling` on doubles at GofL/GridBackend.cs:109 and :118 is the integer `(n + 1) / 2`, which is equal for every positive `n`.
- The `try`/`catch` that swallows out-of-range reads in `GetNextCellStatus` is an explicit bounds test.
- The message text of the `default:` exception (`Resources.GridBackend_Seed_Invalid_pattern`) is not modelled. `SeedValue` returns the offending value as the error instead of throwing.
- The lazy evaluation of the LINQ query in `GetCellsStatuses` is not modelled. The read-out is a sequence value taken at the time of the call.
- `SeedLeftArrow` (GofL/GridBackend.cs:169-172) is empty and never called, so there is nothing to model. The `LeftArrow` case of `Seed` leaves the grid unchanged.
- The declaration of `Status` is not part of this model's sources, so its declaration order is unknown. Its three values are taken from their use in GofL/MainWindow.xaml.cs:24-26, which lists `Living` first. That `Dead` is the zero value, and so the status of a default cell, is an assumption of this model. The results that depend on it are `FreshCell(Living)`, `Fill(Living)` and the `Emerging` cells of `SeedRandom`, which are `Emerging` only because the fresh cell starts `Dead`. The same holds for the all-`Dead` grid of the constructor.
- 32-bit `int` overflow of `Rows * Cols` and of the index arithmetic is not modelled. The sizes used are far below the limit.
- Grid.GridBackend.SeedRightArrow: its two loops are two helper methods, `SeedArrowTop` and `SeedArrowBottom`, called in the source's order. They keep each proof small. The combined effect is the same.

/*
 * A single grid position of the automaton: the value type `Cell` with its
 * `Status` property. The property's setter carries the birth-detection rule:
 * a cell that was `Dead` and is set to `Living` stores `Emerging` instead and
 * remembers that it was just born.
 */
module Cells {

  /** The three statuses a cell can report; `Dead` is taken to be the zero value (first in declaration order). */
  datatype Status = Dead | Living | Emerging

  /**
   * The stored state of a cell: the status the getter returns and the
   * private birth flag the setter records.
   */
  datatype Cell = Cell(status: Status, isBorn: bool)

  /** The zero value of the struct: both fields at their defaults. */
  const DefaultCell: Cell := Cell(Dead, false)

  /**
   * The setter `cell.Status = v`: the new birth flag is "v is Living and the
   * old status was Dead"; a birth stores `Emerging`, anything else stores `v`.
   */
  function Assign(c: Cell, v: Status): (r: Cell)
    ensures v == Living && c.status == Dead ==> r == Cell(Emerging, true)
    ensures v == Living && c.status != Dead ==> r == Cell(Living, false)
    ensures v != Living ==> r == Cell(v, false)
  {
    var born := v == Living && c.status == Dead;
    Cell(if born && v == Living then Emerging else v, born)
  }

  /**
   * `new Cell() { Status = s }`: a zero-valued cell assigned `s` through the
   * setter. Only `Dead` stays `Dead`; `Living` is reported as a birth.
   */
  function FreshCell(s: Status): (c: Cell)
    ensures c.status == (if s == Dead then Dead else Emerging)
    ensures c.isBorn <==> s == Living
  {
    Assign(DefaultCell, s)
  }

  /** A stored `Emerging` comes only from a birth or from assigning `Emerging` itself. */
  lemma EmergingOnlyFromBirthOrLiteral(c: Cell, v: Status)
    ensures Assign(c, v).status == Emerging <==> (v == Living && c.status == Dead) || v == Emerging
  {
  }

  /** The birth flag is set exactly when `Emerging` was stored because of a birth. */
  lemma BornMeansEmerging(c: Cell, v: Status)
    ensures Assign(c, v).isBorn <==> Assign(c, v).status == Emerging && v == Living
  {
  }

  /** Setting `Living` twice in a row ends `Living`, whatever the cell was. */
  lemma AssignLivingTwice(c: Cell)
    ensures Assign(Assign(c, Living), Living) == Cell(Living, false)
  {
  }

  /** An assignment never produces `Dead` unless `Dead` was assigned. */
  lemma AssignDeadOnlyFromDead(c: Cell, v: Status)
    ensures Assign(c, v).status == Dead <==> v == Dead
  {
  }
}

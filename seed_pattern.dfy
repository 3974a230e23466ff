/*
 * The seeding patterns the grid understands, and the decoding of a raw
 * enumeration value (a C# enum can hold any integer) into one of them.
 */
module SeedPatterns {

  /** The eleven named patterns, in declaration order. */
  datatype SeedPattern =
    | Random
    | Plus
    | Cross
    | DiagonalUpDown
    | DiagonalReversed
    | HorizontalLine
    | VerticalLine
    | FilledSquare
    | EmptySquare
    | RightArrow
    | LeftArrow

  /** A decoded raw value: a known pattern, or the error that carries the offending value. */
  datatype Decoded = Known(pattern: SeedPattern) | InvalidPattern(value: int)

  /** The underlying integer of each enum member (declaration order, from 0). */
  function Ordinal(p: SeedPattern): (n: nat)
    ensures n < 11
  {
    match p
    case Random => 0
    case Plus => 1
    case Cross => 2
    case DiagonalUpDown => 3
    case DiagonalReversed => 4
    case HorizontalLine => 5
    case VerticalLine => 6
    case FilledSquare => 7
    case EmptySquare => 8
    case RightArrow => 9
    case LeftArrow => 10
  }

  /**
   * Which case of the `switch` a raw value reaches: one of the eleven named
   * cases, or the `default` branch that rejects the value.
   */
  function Decode(v: int): (r: Decoded)
    ensures r.Known? <==> 0 <= v < 11
    ensures r.Known? ==> Ordinal(r.pattern) == v
    ensures r.InvalidPattern? ==> r.value == v
  {
    if v == 0 then Known(Random)
    else if v == 1 then Known(Plus)
    else if v == 2 then Known(Cross)
    else if v == 3 then Known(DiagonalUpDown)
    else if v == 4 then Known(DiagonalReversed)
    else if v == 5 then Known(HorizontalLine)
    else if v == 6 then Known(VerticalLine)
    else if v == 7 then Known(FilledSquare)
    else if v == 8 then Known(EmptySquare)
    else if v == 9 then Known(RightArrow)
    else if v == 10 then Known(LeftArrow)
    else InvalidPattern(v)
  }

  /** Every named pattern's value decodes back to that pattern. */
  lemma DecodeOrdinal(p: SeedPattern)
    ensures Decode(Ordinal(p)) == Known(p)
  {
  }
}

/** The engine's error table: every failure is reported as one of these values. */
module Errors {

  datatype Error =
    | PuzzleFieldMissing
    | RequiredFieldsMissing
    | InvalidPuzzleCharacters
    | InvalidPuzzleLength
    | CannotBeSolved
    | InvalidCoordinate
    | InvalidValue

  /** The exact message text the engine reports for each error. */
  function Message(e: Error): (m: string)
    ensures |m| > 0
  {
    match e
    case PuzzleFieldMissing => "Required field missing"
    case RequiredFieldsMissing => "Required field(s) missing"
    case InvalidPuzzleCharacters => "Invalid characters in puzzle"
    case InvalidPuzzleLength => "Expected puzzle to be 81 characters long"
    case CannotBeSolved => "Puzzle cannot be solved"
    case InvalidCoordinate => "Invalid coordinate"
    case InvalidValue => "Invalid value"
  }

  /** Distinct errors carry distinct messages, so a caller can tell them apart by text. */
  lemma MessageInjective(e1: Error, e2: Error)
    ensures Message(e1) == Message(e2) ==> e1 == e2
  {
  }
}

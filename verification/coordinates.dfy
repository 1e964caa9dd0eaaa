/**
  Translation between the human-facing addressing scheme (row letter A-I,
  column digit 1-9) and zero-based row and column indices.
  A one-character JavaScript string is modelled as a `char`.
*/
module Coordinates {

  predicate IsRowLetter(ch: char)
  {
    'A' <= ch <= 'I'
  }

  /** A digit 1-9: a column coordinate or a filled cell's value. */
  predicate IsDigit(ch: char)
  {
    '1' <= ch <= '9'
  }

  /** The letter whose character code is `index + 65`. */
  function RowIndexToCoordinate(index: int): (letter: char)
    requires 0 <= index < 9
    ensures IsRowLetter(letter)
    ensures RowCoordinateToIndex(letter) == index
  {
    (index + 65) as char
  }

  /** The decimal rendering of `index + 1`, a single digit for indices 0-8. */
  function ColumnIndexToCoordinate(index: int): (digit: char)
    requires 0 <= index < 9
    ensures IsDigit(digit)
    ensures ColumnCoordinateToIndex(digit) == index
  {
    ('0' as int + index + 1) as char
  }

  /** The letter's character code minus 65. */
  function RowCoordinateToIndex(letter: char): (index: int)
    requires IsRowLetter(letter)
    ensures 0 <= index < 9
  {
    letter as int - 65
  }

  /** The digit parsed in base 10, minus one. */
  function ColumnCoordinateToIndex(digit: char): (index: int)
    requires IsDigit(digit)
    ensures 0 <= index < 9
  {
    (digit as int - '0' as int) - 1
  }

  lemma RowLetterRoundTrip(letter: char)
    requires IsRowLetter(letter)
    ensures RowIndexToCoordinate(RowCoordinateToIndex(letter)) == letter
  {
  }

  lemma ColumnDigitRoundTrip(digit: char)
    requires IsDigit(digit)
    ensures ColumnIndexToCoordinate(ColumnCoordinateToIndex(digit)) == digit
  {
  }
}

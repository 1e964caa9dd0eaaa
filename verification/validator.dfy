/**
  The puzzle validator: characters first, then length, then every filled cell
  through the three axis checks with its own value as the candidate.
*/
module Validator {
  import opened Coordinates
  import opened Grid
  import opened Checks
  import opened Errors

  datatype Validation = Valid | Invalid(error: Error)

  predicate IsLegalChar(ch: char)
  {
    ch == '.' || IsDigit(ch)
  }

  /** Some symbol is neither a digit 1-9 nor the blank marker `.`. */
  predicate HasIllegalChar(p: string)
  {
    exists i :: 0 <= i < |p| && !IsLegalChar(p[i])
  }

  /** A blank cell, or a filled one whose value passes all three axis checks. */
  predicate FilledCellOk(p: string, r: int, c: int)
    requires |p| == 81 && 0 <= r < 9 && 0 <= c < 9
  {
    At(p, r, c) != '.' ==> Allowed(p, r, c, At(p, r, c))
  }

  predicate Consistent(p: string)
    requires |p| == 81
  {
    forall r, c :: 0 <= r < 9 && 0 <= c < 9 ==> FilledCellOk(p, r, c)
  }

  /** The outcome of validation, with its errors in the order the engine tests them. */
  function Validity(p: string): Validation
  {
    if HasIllegalChar(p) then Invalid(InvalidPuzzleCharacters)
    else if |p| != 81 then Invalid(InvalidPuzzleLength)
    else if Consistent(p) then Valid
    else Invalid(CannotBeSolved)
  }

  method Validate(p: string) returns (result: Validation)
    ensures result == Validity(p)
    ensures HasIllegalChar(p) ==> result == Invalid(InvalidPuzzleCharacters)
    ensures !HasIllegalChar(p) && |p| != 81 ==> result == Invalid(InvalidPuzzleLength)
    ensures !HasIllegalChar(p) && |p| == 81 ==> (result == Valid <==> Consistent(p))
    ensures result != Valid ==> result.error in {InvalidPuzzleCharacters, InvalidPuzzleLength, CannotBeSolved}
  {
    if HasIllegalChar(p) {
      return Invalid(InvalidPuzzleCharacters);
    }
    if |p| != 81 {
      return Invalid(InvalidPuzzleLength);
    }

    var index := 0;
    var row := 0;
    while row < 9
      invariant 0 <= row <= 9 && index == 9 * row
      invariant forall rr, cc :: 0 <= rr < row && 0 <= cc < 9 ==> FilledCellOk(p, rr, cc)
    {
      var col := 0;
      while col < 9
        invariant 0 <= col <= 9 && index == 9 * row + col
        invariant forall rr, cc :: 0 <= rr < 9 && 0 <= cc < 9 && (rr < row || (rr == row && cc < col)) ==>
          FilledCellOk(p, rr, cc)
      {
        var value := p[index];
        if value != '.' {
          var rowPoint := RowIndexToCoordinate(row);
          var colPoint := ColumnIndexToCoordinate(col);
          var rowIsValid := CheckRowPlacement(p, rowPoint, colPoint, value);
          var colIsValid := CheckColPlacement(p, rowPoint, colPoint, value);
          var regionIsValid := CheckRegionPlacement(p, rowPoint, colPoint, value);
          if !rowIsValid || !colIsValid || !regionIsValid {
            assert !FilledCellOk(p, row, col);
            return Invalid(CannotBeSolved);
          }
        }
        index := index + 1;
        col := col + 1;
      }
      row := row + 1;
    }
    return Valid;
  }

  /** Two distinct cells that share a row, a column or a region. */
  predicate Peers(r1: int, c1: int, r2: int, c2: int)
  {
    (r1 != r2 || c1 != c2) && (r1 == r2 || c1 == c2 || (r1 / 3 == r2 / 3 && c1 / 3 == c2 / 3))
  }

  /** The Sudoku rule: no digit occurs twice on any row, column or region. */
  predicate NoRepeatedDigit(p: string)
    requires |p| == 81
  {
    forall r1, c1, r2, c2 ::
      (0 <= r1 < 9 && 0 <= c1 < 9 && 0 <= r2 < 9 && 0 <= c2 < 9 && Peers(r1, c1, r2, c2) && At(p, r1, c1) != '.')
      ==> At(p, r1, c1) != At(p, r2, c2)
  }

  /** Sweeping every filled cell through the axis checks decides exactly the Sudoku rule. */
  lemma ConsistentIffNoRepeatedDigit(p: string)
    requires |p| == 81
    ensures Consistent(p) <==> NoRepeatedDigit(p)
  {
    if Consistent(p) {
      forall r1, c1, r2, c2 | 0 <= r1 < 9 && 0 <= c1 < 9 && 0 <= r2 < 9 && 0 <= c2 < 9 &&
        Peers(r1, c1, r2, c2) && At(p, r1, c1) != '.'
        ensures At(p, r1, c1) != At(p, r2, c2)
      {
        assert FilledCellOk(p, r1, c1);
        var v := At(p, r1, c1);
        if r1 == r2 {
          assert RowFree(p, r1, c1, v);
        } else if c1 == c2 {
          assert ColumnFree(p, r1, c1, v);
        } else {
          assert RegionFree(p, r1, c1, v);
        }
      }
    }
    if NoRepeatedDigit(p) {
      forall r, c | 0 <= r < 9 && 0 <= c < 9
        ensures FilledCellOk(p, r, c)
      {
        if At(p, r, c) != '.' {
          var v := At(p, r, c);
          forall k | 0 <= k < 9 && k != c ensures At(p, r, k) != v {
            assert Peers(r, c, r, k);
          }
          forall k | 0 <= k < 9 && k != r ensures At(p, k, c) != v {
            assert Peers(r, c, k, c);
          }
          forall rr, cc | 0 <= rr < 9 && 0 <= cc < 9 && rr / 3 == r / 3 && cc / 3 == c / 3 && (rr != r || cc != c)
            ensures At(p, rr, cc) != v
          {
            assert Peers(r, c, rr, cc);
          }
        }
      }
    }
  }

  /** A puzzle passes validation exactly when it is well formed and obeys the Sudoku rule. */
  lemma ValidIffSudokuRule(p: string)
    ensures Validity(p) == Valid <==> |p| == 81 && !HasIllegalChar(p) && NoRepeatedDigit(p)
  {
    if |p| == 81 {
      ConsistentIffNoRepeatedDigit(p);
    }
  }
}

/**
  The placement service: validates a puzzle, a coordinate and a value, then
  reports which axes a hypothetical placement would conflict on, without
  changing the puzzle and without consulting the validator.
*/
module Placement {
  import opened Wrappers
  import opened Coordinates
  import opened Grid
  import opened Checks
  import opened Errors
  import opened Validator

  datatype Axis = Row | Column | Region

  /** The name an axis is reported under. */
  function AxisName(a: Axis): string
  {
    match a
    case Row => "row"
    case Column => "column"
    case Region => "region"
  }

  /** Position of an axis in the fixed report order row, column, region. */
  function Rank(a: Axis): (n: nat)
    ensures n < 3
  {
    match a
    case Row => 0
    case Column => 1
    case Region => 2
  }

  /** `{valid: true}`, `{valid: false, conflicts}` or `{error}`. */
  datatype PlacementResult = Placeable | Conflicting(conflicts: seq<Axis>) | Rejected(error: Error)

  /** A row letter A-I followed by a column digit 1-9, and nothing else. */
  predicate IsCoordinate(s: string)
  {
    |s| == 2 && IsRowLetter(s[0]) && IsDigit(s[1])
  }

  /** A single digit 1-9. */
  predicate IsValue(s: string)
  {
    |s| == 1 && IsDigit(s[0])
  }

  /** The accepted coordinates are exactly the 81 cell names the index translators produce. */
  lemma CoordinateNamesCell(s: string)
    ensures IsCoordinate(s) <==>
      exists r, c :: 0 <= r < 9 && 0 <= c < 9 && s == [RowIndexToCoordinate(r), ColumnIndexToCoordinate(c)]
  {
    if IsCoordinate(s) {
      var r, c := RowCoordinateToIndex(s[0]), ColumnCoordinateToIndex(s[1]);
      RowLetterRoundTrip(s[0]);
      ColumnDigitRoundTrip(s[1]);
      assert s == [RowIndexToCoordinate(r), ColumnIndexToCoordinate(c)];
    }
  }

  /** The accepted values are exactly the renderings of the numbers 1-9. */
  lemma ValueNamesDigit(s: string)
    ensures IsValue(s) <==> exists c :: 0 <= c < 9 && s == [ColumnIndexToCoordinate(c)]
  {
    if IsValue(s) {
      var c := ColumnCoordinateToIndex(s[0]);
      ColumnDigitRoundTrip(s[0]);
      assert s == [ColumnIndexToCoordinate(c)];
    }
  }

  /** The axis check for axis `a` passes for `value` at (r, c). */
  predicate AxisFree(p: string, a: Axis, r: int, c: int, value: char)
    requires |p| == 81 && 0 <= r < 9 && 0 <= c < 9
  {
    match a
    case Row => RowFree(p, r, c, value)
    case Column => ColumnFree(p, r, c, value)
    case Region => RegionFree(p, r, c, value)
  }

  /** Strictly increasing in the report order (so also free of repeats). */
  predicate InAxisOrder(axes: seq<Axis>)
  {
    forall i, j :: 0 <= i < j < |axes| ==> Rank(axes[i]) < Rank(axes[j])
  }

  /** The outcome of the check on axis `a`, given the outcomes of the three checks. */
  function AxisOutcome(a: Axis, rowOk: bool, colOk: bool, regionOk: bool): bool
  {
    match a
    case Row => rowOk
    case Column => colOk
    case Region => regionOk
  }

  /** The axes whose check failed, pushed in the order row, column, region. */
  function ConflictList(rowOk: bool, colOk: bool, regionOk: bool): (axes: seq<Axis>)
    ensures InAxisOrder(axes)
    ensures |axes| == 0 <==> rowOk && colOk && regionOk
    ensures forall a :: a in axes <==> !AxisOutcome(a, rowOk, colOk, regionOk)
  {
    var axes := (if rowOk then [] else [Row]) + (if colOk then [] else [Column]) + (if regionOk then [] else [Region]);
    assert forall a :: a in axes <==> (!rowOk && a == Row) || (!colOk && a == Column) || (!regionOk && a == Region);
    axes
  }

  /** With every check failing, the report names the axes "row", "column", "region" in that order, and no two axes share a name. */
  lemma ReportedAxisNames()
    ensures var axes := ConflictList(false, false, false);
      |axes| == 3 && AxisName(axes[0]) == "row" && AxisName(axes[1]) == "column" && AxisName(axes[2]) == "region"
    ensures forall a, b :: AxisName(a) == AxisName(b) ==> a == b
  {
    var axes := ConflictList(false, false, false);
    assert axes == [Row, Column, Region];
  }

  /** None of the three fields is missing. */
  predicate Present(puzzle: Option<string>, coordinate: Option<string>, value: Option<string>)
  {
    !Missing(puzzle) && !Missing(coordinate) && !Missing(value)
  }

  /** All three fields present and well formed. */
  predicate WellFormed(puzzle: Option<string>, coordinate: Option<string>, value: Option<string>)
  {
    Present(puzzle, coordinate, value) &&
    |puzzle.value| == 81 && !HasIllegalChar(puzzle.value) &&
    IsCoordinate(coordinate.value) && IsValue(value.value)
  }

  method CheckPlacementService(puzzle: Option<string>, coordinate: Option<string>, value: Option<string>)
    returns (result: PlacementResult)
    // input errors, in the order they are tested
    ensures Missing(puzzle) || Missing(coordinate) || Missing(value) ==> result == Rejected(RequiredFieldsMissing)
    ensures (Present(puzzle, coordinate, value) && |puzzle.value| != 81) ==> result == Rejected(InvalidPuzzleLength)
    ensures (Present(puzzle, coordinate, value) && |puzzle.value| == 81 && HasIllegalChar(puzzle.value))
      ==> result == Rejected(InvalidPuzzleCharacters)
    ensures (Present(puzzle, coordinate, value) && |puzzle.value| == 81 && !HasIllegalChar(puzzle.value) &&
             !IsCoordinate(coordinate.value))
      ==> result == Rejected(InvalidCoordinate)
    ensures (Present(puzzle, coordinate, value) && |puzzle.value| == 81 && !HasIllegalChar(puzzle.value) &&
             IsCoordinate(coordinate.value) && !IsValue(value.value))
      ==> result == Rejected(InvalidValue)
    // well-formed input: the conflict report
    ensures WellFormed(puzzle, coordinate, value) ==> !result.Rejected?
    ensures WellFormed(puzzle, coordinate, value) ==>
      var r := RowCoordinateToIndex(coordinate.value[0]);
      var c := ColumnCoordinateToIndex(coordinate.value[1]);
      (result == Placeable <==> Allowed(puzzle.value, r, c, value.value[0])) &&
      (result.Conflicting? ==>
        |result.conflicts| > 0 && InAxisOrder(result.conflicts) &&
        forall a :: a in result.conflicts <==> !AxisFree(puzzle.value, a, r, c, value.value[0]))
  {
    if Missing(puzzle) || Missing(coordinate) || Missing(value) {
      return Rejected(RequiredFieldsMissing);
    }
    var p, coord, v := puzzle.value, coordinate.value, value.value;
    if |p| != 81 {
      return Rejected(InvalidPuzzleLength);
    }
    if HasIllegalChar(p) {
      return Rejected(InvalidPuzzleCharacters);
    }
    if !IsCoordinate(coord) {
      return Rejected(InvalidCoordinate);
    }
    if !IsValue(v) {
      return Rejected(InvalidValue);
    }

    var row, col := coord[0], coord[1];
    var conflicts: seq<Axis> := [];
    var isRowValid := CheckRowPlacement(p, row, col, v[0]);
    var isColValid := CheckColPlacement(p, row, col, v[0]);
    var isRegionValid := CheckRegionPlacement(p, row, col, v[0]);
    if !isRowValid {
      conflicts := conflicts + [Row];
    }
    if !isColValid {
      conflicts := conflicts + [Column];
    }
    if !isRegionValid {
      conflicts := conflicts + [Region];
    }

    assert conflicts == ConflictList(isRowValid, isColValid, isRegionValid);
    assert forall a :: AxisOutcome(a, isRowValid, isColValid, isRegionValid) == AxisFree(p, a, RowCoordinateToIndex(row), ColumnCoordinateToIndex(col), v[0]);
    if |conflicts| > 0 {
      return Conflicting(conflicts);
    }
    return Placeable;
  }
}

/** A worked example of the axis checks on a concrete grid. */
module PlacementExample {
  import opened Grid
  import opened Checks
  import opened Placement

  /** A solved grid with its top-left cell blanked. */
  const Blanked: string :=
    ".34678912" + "672195348" + "198342567" + "859761423" + "426853791" +
    "713924856" + "961537284" + "287419635" + "345286179"

  /** No cell of the row, column or region of A1 other than A1 itself holds 5. */
  lemma FiveFitsTopLeft()
    ensures Allowed(Blanked, 0, 0, '5')
  {
    assert |Blanked| == 81;
    forall k | 0 <= k < 9 && k != 0 ensures At(Blanked, 0, k) != '5' && At(Blanked, k, 0) != '5' {
      assert Blanked[k] != '5' && Blanked[9 * k] != '5';
    }
    forall rr, cc | 0 <= rr < 9 && 0 <= cc < 9 && rr / 3 == 0 && cc / 3 == 0 && (rr != 0 || cc != 0)
      ensures At(Blanked, rr, cc) != '5'
    {
      assert 9 * rr + cc in {1, 2, 9, 10, 11, 18, 19, 20};
    }
  }

  /**
    At A1 of `Blanked`, 5 passes every axis check, while 3 fails all three:
    it is at A2 (row and region) and at I1 (column).
  */
  lemma TopLeftPlacements()
    ensures Allowed(Blanked, 0, 0, '5')
    ensures forall a :: !AxisFree(Blanked, a, 0, 0, '3')
  {
    FiveFitsTopLeft();
    assert |Blanked| == 81;
    assert At(Blanked, 0, 1) == '3' && At(Blanked, 8, 0) == '3';
  }
}

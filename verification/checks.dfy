/**
  The constraint checker: would `value` at zero-based cell (r, c) repeat a symbol
  already on the cell's row, column or 3x3 region? The target cell itself is
  never compared with, so a filled cell does not conflict with its own value.
*/
module Checks {
  import opened Coordinates
  import opened Grid

  /** No other cell of row `r` holds `value`. */
  predicate RowFree(p: string, r: int, c: int, value: char)
    requires |p| == 81 && 0 <= r < 9 && 0 <= c < 9
  {
    forall k :: 0 <= k < 9 && k != c ==> At(p, r, k) != value
  }

  /** No other cell of column `c` holds `value`. */
  predicate ColumnFree(p: string, r: int, c: int, value: char)
    requires |p| == 81 && 0 <= r < 9 && 0 <= c < 9
  {
    forall k :: 0 <= k < 9 && k != r ==> At(p, k, c) != value
  }

  /** No other cell of the region holding (r, c) holds `value`. */
  predicate RegionFree(p: string, r: int, c: int, value: char)
    requires |p| == 81 && 0 <= r < 9 && 0 <= c < 9
  {
    forall rr, cc :: 0 <= rr < 9 && 0 <= cc < 9 && rr / 3 == r / 3 && cc / 3 == c / 3 && (rr != r || cc != c) ==>
      At(p, rr, cc) != value
  }

  /** `value` passes all three axis checks at (r, c). */
  predicate Allowed(p: string, r: int, c: int, value: char)
    requires |p| == 81 && 0 <= r < 9 && 0 <= c < 9
  {
    RowFree(p, r, c, value) && ColumnFree(p, r, c, value) && RegionFree(p, r, c, value)
  }

  /** Removing slot `k` leaves `v` in the sequence exactly when some other slot holds `v`. */
  lemma SpliceMembership(cells: seq<char>, k: int, v: char)
    requires 0 <= k < |cells|
    ensures v in cells[..k] + cells[k + 1..] <==> exists j :: 0 <= j < |cells| && j != k && cells[j] == v
  {
    var rest := cells[..k] + cells[k + 1..];
    if v in rest {
      var i :| 0 <= i < |rest| && rest[i] == v;
      if i < k {
        assert cells[i] == v;
      } else {
        assert cells[i + 1] == v;
      }
    }
    if j :| 0 <= j < |cells| && j != k && cells[j] == v {
      if j < k {
        assert rest[j] == v;
      } else {
        assert rest[j - 1] == v;
      }
    }
  }

  method CheckRowPlacement(p: string, row: char, column: char, value: char) returns (ok: bool)
    requires |p| == 81 && IsRowLetter(row) && IsDigit(column)
    ensures ok <==> RowFree(p, RowCoordinateToIndex(row), ColumnCoordinateToIndex(column), value)
  {
    var rowCells := GetRowCellsOfCoord(p, row);
    var colIndex := ColumnCoordinateToIndex(column);
    SpliceMembership(rowCells, colIndex, value);
    rowCells := rowCells[..colIndex] + rowCells[colIndex + 1..];
    if value in rowCells {
      return false;
    }
    return true;
  }

  method CheckColPlacement(p: string, row: char, column: char, value: char) returns (ok: bool)
    requires |p| == 81 && IsRowLetter(row) && IsDigit(column)
    ensures ok <==> ColumnFree(p, RowCoordinateToIndex(row), ColumnCoordinateToIndex(column), value)
  {
    var colCells := GetColumnCellsOfCoord(p, column);
    var rowIndex := RowCoordinateToIndex(row);
    SpliceMembership(colCells, rowIndex, value);
    colCells := colCells[..rowIndex] + colCells[rowIndex + 1..];
    if value in colCells {
      return false;
    }
    return true;
  }

  /**
    Slot `k` of the region accessor's result is the cell (rr, cc) of the region
    exactly when `k` is the cell's local index `(rr % 3) * 3 + cc % 3`.
  */
  lemma RegionSlot(r: int, c: int, rr: int, cc: int)
    requires 0 <= r < 9 && 0 <= c < 9 && 0 <= rr < 9 && 0 <= cc < 9
    requires rr / 3 == r / 3 && cc / 3 == c / 3
    ensures var k := (rr % 3) * 3 + cc % 3;
      0 <= k < 9 && RegionBase(r) + k / 3 == rr && RegionBase(c) + k % 3 == cc
  {
  }

  /**
    Slot `j` of the region accessor's result is a cell of the region of (r, c),
    and it is (r, c) itself exactly at the local index `(r % 3) * 3 + c % 3`.
  */
  lemma SlotCell(r: int, c: int, j: int)
    requires 0 <= r < 9 && 0 <= c < 9 && 0 <= j < 9
    ensures var rr, cc := RegionBase(r) + j / 3, RegionBase(c) + j % 3;
      0 <= rr < 9 && 0 <= cc < 9 && rr / 3 == r / 3 && cc / 3 == c / 3 &&
      (j == (r % 3) * 3 + c % 3 <==> rr == r && cc == c)
  {
  }

  /** A region-accessor slot other than the target's that holds `value` is another region cell holding it. */
  lemma SlotWitnessConflicts(p: string, r: int, c: int, cells: seq<char>, value: char, j: int)
    requires |p| == 81 && 0 <= r < 9 && 0 <= c < 9 && |cells| == 9
    requires forall k :: 0 <= k < 9 ==> cells[k] == At(p, RegionBase(r) + k / 3, RegionBase(c) + k % 3)
    requires 0 <= j < 9 && j != (r % 3) * 3 + c % 3 && cells[j] == value
    ensures !RegionFree(p, r, c, value)
  {
    SlotCell(r, c, j);
    var rr, cc := RegionBase(r) + j / 3, RegionBase(c) + j % 3;
    assert At(p, rr, cc) == value;
  }

  /** Another region cell holding `value` sits in a region-accessor slot other than the target's. */
  lemma ConflictHasSlot(p: string, r: int, c: int, cells: seq<char>, value: char, rr: int, cc: int)
    requires |p| == 81 && 0 <= r < 9 && 0 <= c < 9 && |cells| == 9
    requires forall k :: 0 <= k < 9 ==> cells[k] == At(p, RegionBase(r) + k / 3, RegionBase(c) + k % 3)
    requires 0 <= rr < 9 && 0 <= cc < 9 && rr / 3 == r / 3 && cc / 3 == c / 3 && (rr != r || cc != c)
    requires At(p, rr, cc) == value
    ensures var j := (rr % 3) * 3 + cc % 3; 0 <= j < 9 && j != (r % 3) * 3 + c % 3 && cells[j] == value
  {
    RegionSlot(r, c, rr, cc);
    var j := (rr % 3) * 3 + cc % 3;
    assert cells[j] == At(p, rr, cc);
    SlotCell(r, c, j);
  }

  /** The region accessor's result holds `value` outside the target's local slot exactly when the region check fails. */
  lemma RegionMembership(p: string, r: int, c: int, cells: seq<char>, value: char)
    requires |p| == 81 && 0 <= r < 9 && 0 <= c < 9 && |cells| == 9
    requires forall k :: 0 <= k < 9 ==> cells[k] == At(p, RegionBase(r) + k / 3, RegionBase(c) + k % 3)
    ensures (exists j :: 0 <= j < 9 && j != (r % 3) * 3 + c % 3 && cells[j] == value) <==> !RegionFree(p, r, c, value)
  {
    var slot := (r % 3) * 3 + c % 3;
    if j :| 0 <= j < 9 && j != slot && cells[j] == value {
      SlotWitnessConflicts(p, r, c, cells, value, j);
    }
    if !RegionFree(p, r, c, value) {
      var rr, cc :| 0 <= rr < 9 && 0 <= cc < 9 && rr / 3 == r / 3 && cc / 3 == c / 3 && (rr != r || cc != c) &&
        At(p, rr, cc) == value;
      ConflictHasSlot(p, r, c, cells, value, rr, cc);
    }
  }

  /** The code's reduction of a zero-based index to its position within its band or stack. */
  lemma LocalIndex(i: int)
    requires 0 <= i < 9
    ensures (if i > 2 then (if i < 6 then i - 3 else i - 6) else i) == i % 3
  {
  }

  method CheckRegionPlacement(p: string, row: char, column: char, value: char) returns (ok: bool)
    requires |p| == 81 && IsRowLetter(row) && IsDigit(column)
    ensures ok <==> RegionFree(p, RowCoordinateToIndex(row), ColumnCoordinateToIndex(column), value)
  {
    var regionCells := GetRegionCellsOfCoord(p, row, column);
    var rowIndex := RowCoordinateToIndex(row);
    var colIndex := ColumnCoordinateToIndex(column);
    ghost var r, c := rowIndex, colIndex;

    if rowIndex > 2 {
      rowIndex := if rowIndex < 6 then rowIndex - 3 else rowIndex - 6;
    }
    if colIndex > 2 {
      colIndex := if colIndex < 6 then colIndex - 3 else colIndex - 6;
    }
    var regionCellIndex := (rowIndex * 3) + colIndex;
    LocalIndex(r);
    LocalIndex(c);

    SpliceMembership(regionCells, regionCellIndex, value);
    RegionMembership(p, r, c, regionCells, value);
    regionCells := regionCells[..regionCellIndex] + regionCells[regionCellIndex + 1..];
    if value in regionCells {
      return false;
    }
    return true;
  }
}

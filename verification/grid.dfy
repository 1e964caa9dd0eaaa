/**
  The puzzle grid: 81 symbols laid out row-major from A1 to I9, and the
  accessors that extract the 9 symbols of a row, a column or a 3x3 region.
*/
module Grid {
  import opened Coordinates

  /** The symbol at zero-based row `r` and column `c`. */
  function At(p: string, r: int, c: int): char
    requires |p| == 81 && 0 <= r < 9 && 0 <= c < 9
  {
    p[9 * r + c]
  }

  /** First row (or column) index of the band (or stack) holding index `i`. */
  function RegionBase(i: int): (base: int)
    requires 0 <= i < 9
    ensures base <= i < base + 3 && base % 3 == 0
  {
    3 * (i / 3)
  }

  /** Quotient and remainder of `3 * q + m` by 3. */
  lemma DivMod3(q: int, m: int)
    requires 0 <= q && 0 <= m < 3
    ensures (3 * q + m) / 3 == q && (3 * q + m) % 3 == m
  {
  }

  /** The row's 9 symbols, a slice of the flat string. */
  function GetRowCellsOfCoord(p: string, rowPoint: char): (cells: seq<char>)
    requires |p| == 81 && IsRowLetter(rowPoint)
    ensures |cells| == 9
    ensures forall k :: 0 <= k < 9 ==> cells[k] == At(p, RowCoordinateToIndex(rowPoint), k)
  {
    var startIndex := RowCoordinateToIndex(rowPoint) * 9;
    p[startIndex..startIndex + 9]
  }

  /** Slot `k` of a region whose top-left cell is (`br`, `bc`), in row-major order. */
  function RegionSlotCell(p: string, br: int, bc: int, k: int): char
    requires |p| == 81 && 0 <= br <= 6 && 0 <= bc <= 6 && 0 <= k < 9
  {
    At(p, br + k / 3, bc + k % 3)
  }

  /** The column's 9 symbols, collected every ninth position from the column index. */
  method GetColumnCellsOfCoord(p: string, colPoint: char) returns (cells: seq<char>)
    requires |p| == 81 && IsDigit(colPoint)
    ensures |cells| == 9
    ensures forall k :: 0 <= k < 9 ==> cells[k] == At(p, k, ColumnCoordinateToIndex(colPoint))
  {
    var startIndex := ColumnCoordinateToIndex(colPoint);
    cells := [];
    var idx := startIndex;
    while idx < 81
      invariant idx == startIndex + 9 * |cells| && |cells| <= 9
      invariant forall k :: 0 <= k < |cells| ==> cells[k] == At(p, k, startIndex)
    {
      cells := cells + [p[idx]];
      idx := idx + 9;
    }
  }

  /** The first row of the band holding the row letter: 0 for A-C, 3 for D-F, 6 for G-I. */
  function MinRowIndex(row: char): (m: int)
    requires IsRowLetter(row)
    ensures m == RegionBase(RowCoordinateToIndex(row))
  {
    if 'A' <= row <= 'C' then 0
    else if 'D' <= row <= 'F' then 3
    else 6
  }

  /** The first column of the stack holding the column digit: 0 for 1-3, 3 for 4-6, 6 for 7-9. */
  function MinColIndex(col: char): (m: int)
    requires IsDigit(col)
    ensures m == RegionBase(ColumnCoordinateToIndex(col))
  {
    if '1' <= col <= '3' then 0
    else if '4' <= col <= '6' then 3
    else 6
  }

  /** The region's 9 symbols in row-major order, starting from the region's top-left cell. */
  method GetRegionCellsOfCoord(p: string, row: char, col: char) returns (cells: seq<char>)
    requires |p| == 81 && IsRowLetter(row) && IsDigit(col)
    ensures |cells| == 9
    ensures forall k :: 0 <= k < 9 ==>
      cells[k] == At(p, RegionBase(RowCoordinateToIndex(row)) + k / 3,
                        RegionBase(ColumnCoordinateToIndex(col)) + k % 3)
  {
    var minRowIndex := MinRowIndex(row);
    var minColIndex := MinColIndex(col);

    cells := [];
    var r := minRowIndex;
    while r < minRowIndex + 3
      invariant minRowIndex <= r <= minRowIndex + 3
      invariant |cells| == 3 * (r - minRowIndex)
      invariant forall k :: 0 <= k < |cells| ==> cells[k] == RegionSlotCell(p, minRowIndex, minColIndex, k)
    {
      var c := minColIndex;
      while c < minColIndex + 3
        invariant minColIndex <= c <= minColIndex + 3
        invariant |cells| == 3 * (r - minRowIndex) + (c - minColIndex)
        invariant forall k :: 0 <= k < |cells| ==> cells[k] == RegionSlotCell(p, minRowIndex, minColIndex, k)
      {
        DivMod3(r - minRowIndex, c - minColIndex);
        assert minRowIndex + |cells| / 3 == r && minColIndex + |cells| % 3 == c;
        var idx := (r * 9) + c;
        assert p[idx] == RegionSlotCell(p, minRowIndex, minColIndex, |cells|);
        cells := cells + [p[idx]];
        c := c + 1;
      }
      r := r + 1;
    }
    assert forall k :: 0 <= k < 9 ==> cells[k] == RegionSlotCell(p, minRowIndex, minColIndex, k);
  }
}

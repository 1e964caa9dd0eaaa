# Sudoku validation and naked-single solver, in Dafny

This project models the engine of a small Sudoku service: the `SudokuSolver`
class in `controllers/sudoku-solver.js`. A puzzle is an 81-character string
laid out row-major from A1 to I9, with `.` for a blank cell. The engine

- translates coordinates: row letter A-I and column digit 1-9 to zero-based indices, and back;
- extracts the 9 cells of a row, a column or a 3x3 region;
- checks whether a value already occurs elsewhere on a cell's row, column or
  region, never comparing the cell with itself;
- validates a whole puzzle: characters first, then length, then every filled
  cell through the three checks;
- answers a placement query, `checkPlacementService`. It validates the fields
  in a fixed order, then reports the conflicting axes in the order row,
  column, region;
- solves by naked-single propagation. Each pass fills every blank that has
  exactly one legal digit, judged against the string the pass started from.
  Passes repeat until the grid is complete. The solver fails when a pass
  changes nothing.

Modules, leaves first:

- `Wrappers` holds an optional field and the JavaScript notion of "missing", which is absent or empty.
- `Errors` holds the error table and its exact messages.
- `Coordinates` holds the four translators.
- `Grid` holds `At(p, r, c)`, the band and stack starts chosen by the letter and digit tests, and the three accessors.
- `Checks` holds the axis predicates `RowFree`, `ColumnFree` and `RegionFree`. They are stated by index formula. The three check methods follow the code (accessor, splice, `includes`) and are proved equal to those predicates.
- `Validator` holds the specification function `Validity` and the nested-loop method `Validate`.
- `Placement` holds `CheckPlacementService` and `ConflictList`, which specifies the pushed conflict axes. `PlacementExample` adds one worked example.
- `Solver` holds the specification function `SolveFrom`, which recurses on a pass's result and decreases the blank count. It also holds the methods `SolvePass` (updates a local array in place, as `puzzleArray` is updated) and `Solve` (the tail recursion as a loop).
- `RegexState` models the stateful illegal-character test as written (see Findings).

One-character JavaScript strings are modelled as `char`: the row letter, the column digit and the cell value.

Error precedence follows the code:

- `validate` and `solve` test characters before length. A puzzle with an illegal character gets INVALID_PUZZLE_CHARACTERS whatever its length (controllers/sudoku-solver.js:158-171).
- `solve` on an empty string gets PUZZLE_FIELD_MISSING (lines 101-106).
- `checkPlacementService` tests length before characters (lines 40-52).

## Model

| member | source | states |
|---|---|---|
| Errors.Message | controllers/sudoku-solver.js:20-28 | each error has its exact, non-empty message text |
| Errors.MessageInjective | controllers/sudoku-solver.js:20-28 | distinct errors have distinct messages |
| Coordinates.RowIndexToCoordinate | controllers/sudoku-solver.js:301-304 | index 0-8 maps to a letter A-I that translates back to the same index |
| Coordinates.ColumnIndexToCoordinate | controllers/sudoku-solver.js:306-309 | index 0-8 maps to a digit 1-9 that translates back to the same index |
| Coordinates.RowCoordinateToIndex | controllers/sudoku-solver.js:311-314 | a letter A-I maps to an index in 0-8 |
| Coordinates.ColumnCoordinateToIndex | controllers/sudoku-solver.js:316-319 | a digit 1-9 maps to an index in 0-8 |
| Coordinates.RowLetterRoundTrip | controllers/sudoku-solver.js:301-314 | letter to index to letter is the identity on A-I |
| Coordinates.ColumnDigitRoundTrip | controllers/sudoku-solver.js:306-319 | digit to index to digit is the identity on 1-9 |
| Wrappers.MissingIffFalsy | controllers/sudoku-solver.js:101-106 | `Missing`, the model of `!field` here and at line 33, holds exactly for an absent field and the empty string |
| Grid.RegionBase | controllers/sudoku-solver.js:275-289 | the band/stack start is the multiple of 3 at or below the index, within 3 of it |
| Grid.MinRowIndex | controllers/sudoku-solver.js:275-281 | the letter tests A-C, D-F, G-I give the first row of the letter's band |
| Grid.MinColIndex | controllers/sudoku-solver.js:283-289 | the digit tests 1-3, 4-6, 7-9 give the first column of the digit's stack |
| Grid.GetRowCellsOfCoord | controllers/sudoku-solver.js:250-256 | exactly 9 cells; cell k is the row's cell in column k |
| Grid.GetColumnCellsOfCoord | controllers/sudoku-solver.js:258-267 | exactly 9 cells; cell k is the column's cell in row k, i.e. position c + 9k |
| Grid.GetRegionCellsOfCoord | controllers/sudoku-solver.js:269-299 | exactly 9 cells; cell k is at (3*(r/3) + k/3, 3*(c/3) + k%3), so row-major within the region |
| Checks.SpliceMembership | controllers/sudoku-solver.js:202-203 | after removing slot k, the value is present iff some other slot holds it |
| Checks.CheckRowPlacement | controllers/sudoku-solver.js:199-209 | true iff no other cell of the row (column index excluded) holds the value |
| Checks.CheckColPlacement | controllers/sudoku-solver.js:211-221 | true iff no other cell of the column (row index excluded) holds the value |
| Checks.RegionSlot | controllers/sudoku-solver.js:228-240 | a region cell sits at local slot (r%3)*3 + c%3 of the region accessor's result |
| Checks.SlotCell | controllers/sudoku-solver.js:240-241 | slot j of the region result is a cell of the same region, and it is the target cell exactly at the spliced slot |
| Checks.LocalIndex | controllers/sudoku-solver.js:228-238 | the code's conditional subtraction of 3 or 6 reduces an index 0-8 to its remainder by 3 |
| Checks.RegionMembership | controllers/sudoku-solver.js:223-248 | the region result holds the value outside the target's slot iff another region cell holds it |
| Checks.CheckRegionPlacement | controllers/sudoku-solver.js:223-248 | true iff no other cell of the 3x3 region holds the value |
| Validator.Validate | controllers/sudoku-solver.js:158-197 | illegal characters first, then length, then valid iff every filled cell passes all three checks, else CANNOT_BE_SOLVED |
| Validator.ConsistentIffNoRepeatedDigit | controllers/sudoku-solver.js:173-194 | the filled-cell sweep succeeds iff no digit repeats on any row, column or region |
| Validator.ValidIffSudokuRule | controllers/sudoku-solver.js:158-197 | validation succeeds iff the string has 81 legal symbols and obeys the Sudoku rule |
| Placement.Rank | controllers/sudoku-solver.js:77-85 | defines the report order: row at 0, column at 1, region at 2, the order of the pushes (all positions below 3) |
| Placement.ReportedAxisNames | controllers/sudoku-solver.js:77-85 | `AxisName` gives the pushed strings "row", "column", "region" in push order, and no two axes share a name |
| Placement.ConflictList | controllers/sudoku-solver.js:71-85 | the pushed axes are in order row, column, region, empty iff all three checks pass, and contain exactly the failing axes |
| Placement.CoordinateNamesCell | controllers/sudoku-solver.js:17 | `IsCoordinate`, the model of COORDINATE_REGEX, accepts exactly the 81 names A1-I9 that the index translators produce |
| Placement.ValueNamesDigit | controllers/sudoku-solver.js:18 | `IsValue`, the model of VALUE_REGEX, accepts exactly the one-symbol renderings of 1-9 |
| Placement.CheckPlacementService | controllers/sudoku-solver.js:32-98 | error precedence missing, length, characters, coordinate, value; then valid iff all three checks pass, else the failing axes, non-empty and in order row, column, region |
| PlacementExample.FiveFitsTopLeft | controllers/sudoku-solver.js:199-248 | on a solved grid with A1 blanked, 5 occurs nowhere else on A1's row, column or region |
| PlacementExample.TopLeftPlacements | controllers/sudoku-solver.js:32-98 | on a solved grid with A1 blanked, 5 passes all checks at A1 and 3 fails all three |
| Solver.DigitChar | controllers/sudoku-solver.js:129-135 | value 1-9 renders as the digit character of that value |
| Solver.Blanks | controllers/sudoku-solver.js:146-155 | the blank count is at most the length, and zero iff no cell is blank |
| Solver.CompleteIffNoBlank | controllers/sudoku-solver.js:114-115 | `Complete`, the model of `^[1-9]{81}$`, holds exactly for 81 legal symbols with no blank |
| Solver.CandidatesUpTo | controllers/sudoku-solver.js:128-137 | the collected values are exactly the digits up to n passing all three checks, strictly increasing |
| Solver.CandidatesStep | controllers/sudoku-solver.js:129-136 | one turn of the value loop appends the value exactly when all three checks pass |
| Solver.SoleEntry | controllers/sudoku-solver.js:139-141 | an increasing list of the legal digits has one entry iff exactly one digit is legal, and then it is that digit |
| Solver.SingleCandidate | controllers/sudoku-solver.js:128-141 | the cell has one collected value iff exactly one digit passes all checks, and that value is the digit |
| Solver.PassCellOfBlank | controllers/sudoku-solver.js:122-141 | a blank cell becomes the sole collected value when there is exactly one, and stays blank otherwise |
| Solver.Pass | controllers/sudoku-solver.js:120-146 | a pass keeps 81 cells and changes a cell only from blank to a digit |
| Solver.PassCellMeaning | controllers/sudoku-solver.js:121-143 | filled cells are unchanged; a blank is filled iff it has a sole candidate against the pass's input; a changed cell gets that sole legal digit |
| Solver.PassFixedPoint | controllers/sudoku-solver.js:146-153 | a pass changes nothing iff no blank cell has a sole candidate |
| Solver.FillingShrinks | controllers/sudoku-solver.js:146-155 | filling blanks never raises the blank count and strictly lowers it when anything changed |
| Solver.SolveFrom | controllers/sudoku-solver.js:108-155 | a validation error is returned verbatim; a valid complete grid is returned unchanged; any solution is complete, valid and keeps every originally filled cell; failures are only character, length or CANNOT_BE_SOLVED errors |
| Solver.CollectValidValues | controllers/sudoku-solver.js:123-137 | the candidate loop collects exactly the candidate list of the cell |
| Solver.SolvePass | controllers/sudoku-solver.js:120-146 | the in-place pass over the array yields exactly `Pass` of its input |
| Solver.Solve | controllers/sudoku-solver.js:100-156 | a missing puzzle gives PUZZLE_FIELD_MISSING; otherwise the loop yields `SolveFrom`, so any solution is complete, valid and agrees with the input on filled cells |
| Solver.SolutionObeysSudokuRule | controllers/sudoku-solver.js:108-117 | every returned solution has 81 cells and repeats no digit on any row, column or region |
| Solver.SolveIdempotent | controllers/sudoku-solver.js:114-117 | solving a returned solution returns it unchanged |
| RegexState.FirstIllegalFrom | controllers/sudoku-solver.js:16 | the first symbol outside 1-9 and `.` at or after the start, or none |
| RegexState.GlobalRegexTest | controllers/sudoku-solver.js:16 | the global-flag test finds an illegal symbol at or after lastIndex, and leaves lastIndex just past the first such symbol, or 0 |
| RegexState.FreshTestIsStateless | controllers/sudoku-solver.js:16 | `HasIllegalChar`, the stateless reading of ILLEGAL_CHAR_REGEX, agrees with the global-flag test started from lastIndex 0 |
| RegexState.ValidityAsWritten | controllers/sudoku-solver.js:158-197 | starting from lastIndex 0, the as-written validator agrees with `Validity` |
| RegexState.StaleLastIndexAcceptsIllegalPuzzle | controllers/sudoku-solver.js:159 | validating "X" + 80 blanks twice rejects it, then accepts it |

## Left out

- HTTP: the request layer in routes/api.js is not modelled. This covers reading the body fields, JSON serialisation, and wrapping a solution as `{solution: ...}`.
- The test fixtures in `controllers/puzzle-strings` are not part of this model, so the concrete test puzzles are not reproduced.
- The full solve of the worked grid is not proved. This means `solve` of the solved grid with A1 blanked giving back the solved grid. Only the placement checks at A1 are. The reason is cost: validating a concrete grid unfolds all 81 cells against their 20 peers, once before and once after the pass, which is far more than the placement lemma's three axes at one cell.
- Dynamic typing: non-string field values and JavaScript truthiness beyond "absent or empty" are not modelled.
- Coordinates.RowCoordinateToIndex, Coordinates.ColumnCoordinateToIndex, the accessors and the check methods require a well-formed coordinate and an 81-symbol puzzle. Every caller in the source guarantees this. What the JavaScript would compute on other input (NaN indices, `undefined` region bounds) is not modelled.
- Validator.Validate, Placement.CheckPlacementService and Solver.Solve use the stateless illegal-character predicate. They do not carry the regular expression's `lastIndex` between calls; that state is modelled separately in `RegexState`.
- Placement.CheckPlacementService: `|p|` counts Unicode scalar values, while JavaScript's `length` (line 40) counts UTF-16 code units, so a symbol outside the Basic Multilingual Plane counts 1 here and 2 there. 79 `.` plus one emoji is length 81 in JavaScript, which gives INVALID_PUZZLE_CHARACTERS, but the model gives InvalidPuzzleLength. 80 `.` plus one emoji gives the reverse. Lone surrogates cannot be represented at all. `validate` and `solve` are unaffected, because they test characters first.
- `solve`'s recursive call is a loop, and its missing-field check is done once. The check could never fire on a later pass, because the updated string always has 81 symbols.
- Performance: the code re-splits the string on every check and re-validates on every pass. The model keeps the re-validation (each loop turn calls `Validate`) but has no notion of cost.
- Solving power: the model does not claim the solver finds a solution whenever one exists, because it never backtracks. It also does not claim a single pass preserves consistency. Two blanks on one axis can both receive the same sole candidate, and the next validation catches that.

## Findings

| source | as written | input that shows it | evidently intended | confidence | as-written member | corrected member |
|---|---|---|---|---|---|---|
| controllers/sudoku-solver.js:16 | `ILLEGAL_CHAR_REGEX` has the global flag, so `test` (lines 47 and 159) starts at the `lastIndex` left by the previous call and misses illegal symbols before it | `validate` twice on "X" followed by 80 `.`: the first call rejects it and leaves lastIndex 1; the second starts after the `X` and returns valid | every call tests the whole string for a symbol outside 1-9 and `.` | high; not executed | RegexState.StaleLastIndexAcceptsIllegalPuzzle | Validator.ValidIffSudokuRule |

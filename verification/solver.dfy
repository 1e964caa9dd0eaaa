/**
  The solver: naked-single propagation. Each pass fills every blank cell that
  has exactly one legal digit, judged against the string the pass started
  from; passes repeat until the grid is complete, and the solver gives up when
  a pass changes nothing. Every pass is preceded by a fresh validation.
*/
module Solver {
  import opened Wrappers
  import opened Coordinates
  import opened Grid
  import opened Checks
  import opened Errors
  import opened Validator

  /** A solution string, or `{error}`. */
  datatype Solution = Solved(solution: string) | Failed(error: Error)

  /** The decimal rendering of a value 1-9. */
  function DigitChar(n: int): (d: char)
    requires 1 <= n <= 9
    ensures IsDigit(d) && d as int - '0' as int == n
  {
    ('0' as int + n) as char
  }

  /** Exactly 81 digits 1-9: the already-solved shape. */
  predicate Complete(p: string)
  {
    |p| == 81 && forall i :: 0 <= i < |p| ==> IsDigit(p[i])
  }

  /** Number of blank cells. */
  function Blanks(s: string): (n: nat)
    ensures n <= |s|
    ensures n == 0 <==> forall i :: 0 <= i < |s| ==> s[i] != '.'
  {
    if s == [] then 0 else (if s[0] == '.' then 1 else 0) + Blanks(s[1..])
  }

  /** A grid is solved exactly when it has 81 legal symbols and no blank. */
  lemma CompleteIffNoBlank(p: string)
    ensures Complete(p) <==> |p| == 81 && !HasIllegalChar(p) && Blanks(p) == 0
  {
    if |p| == 81 && !HasIllegalChar(p) && Blanks(p) == 0 {
      assert forall i :: 0 <= i < |p| ==> IsLegalChar(p[i]) && p[i] != '.';
    }
  }

  /** `s` has the same length as `p` and keeps every filled cell of `p`. */
  predicate AgreesOnFilled(p: string, s: string)
  {
    |s| == |p| && forall i :: 0 <= i < |p| && p[i] != '.' ==> s[i] == p[i]
  }

  /** Appending a digit larger than every entry keeps a list increasing and adds just that digit. */
  lemma AppendLarger(earlier: seq<char>, d: char, take: bool)
    requires forall i :: 0 <= i < |earlier| ==> earlier[i] < d
    requires forall i, j :: 0 <= i < j < |earlier| ==> earlier[i] < earlier[j]
    ensures var ds := earlier + (if take then [d] else []);
      (forall i, j :: 0 <= i < j < |ds| ==> ds[i] < ds[j]) &&
      (forall x :: x in ds <==> x in earlier || (take && x == d))
  {
  }

  /**
    The legal digits among 1..n for cell (r, c), in increasing order, as the
    candidate loop collects them.
  */
  function CandidatesUpTo(p: string, r: int, c: int, n: nat): (cands: seq<char>)
    requires |p| == 81 && 0 <= r < 9 && 0 <= c < 9 && n <= 9
    ensures forall d :: d in cands <==> IsDigit(d) && d as int - '0' as int <= n && Allowed(p, r, c, d)
    ensures forall i, j :: 0 <= i < j < |cands| ==> cands[i] < cands[j]
  {
    if n == 0 then []
    else
      var d := DigitChar(n);
      var earlier := CandidatesUpTo(p, r, c, n - 1);
      assert forall i :: 0 <= i < |earlier| ==> earlier[i] in earlier;
      AppendLarger(earlier, d, Allowed(p, r, c, d));
      earlier + (if Allowed(p, r, c, d) then [d] else [])
  }

  /** The candidate values of cell (r, c): the digits 1-9 passing all three checks, in increasing order. */
  function Candidates(p: string, r: int, c: int): seq<char>
    requires |p| == 81 && 0 <= r < 9 && 0 <= c < 9
  {
    CandidatesUpTo(p, r, c, 9)
  }

  /** Exactly one digit passes all three axis checks at (r, c). */
  predicate HasSoleCandidate(p: string, r: int, c: int)
    requires |p| == 81 && 0 <= r < 9 && 0 <= c < 9
  {
    exists d :: IsDigit(d) && Allowed(p, r, c, d) && forall e :: IsDigit(e) && Allowed(p, r, c, e) ==> e == d
  }

  /** Cell `i` after one pass over `p`. */
  function PassCell(p: string, i: int): char
    requires |p| == 81 && 0 <= i < 81
  {
    var cands := Candidates(p, i / 9, i % 9);
    if p[i] == '.' && |cands| == 1 then cands[0] else p[i]
  }

  /** One pass: every blank with a single candidate (against `p` itself) receives it. */
  function Pass(p: string): (q: string)
    requires |p| == 81
    ensures |q| == 81
    ensures forall i :: 0 <= i < 81 ==> q[i] == p[i] || (p[i] == '.' && IsDigit(q[i]))
  {
    seq(81, i requires 0 <= i < 81 => PassCell(p, i))
  }

  /**
    An increasing list of exactly the digits satisfying `ok` has one entry
    exactly when one digit satisfies `ok`.
  */
  lemma SoleEntry(cands: seq<char>, ok: char -> bool)
    requires forall d :: d in cands <==> IsDigit(d) && ok(d)
    requires forall i, j :: 0 <= i < j < |cands| ==> cands[i] < cands[j]
    ensures |cands| == 1 <==> exists d :: IsDigit(d) && ok(d) && forall e :: IsDigit(e) && ok(e) ==> e == d
    ensures |cands| == 1 ==> IsDigit(cands[0]) && ok(cands[0]) && forall e :: IsDigit(e) && ok(e) ==> e == cands[0]
  {
    if |cands| == 1 {
      assert cands[0] in cands;
      forall e | IsDigit(e) && ok(e) ensures e == cands[0] {
        assert e in cands;
      }
    } else if |cands| == 0 {
      assert forall d :: d !in cands;
    } else {
      var d0, d1 := cands[0], cands[1];
      assert d0 in cands && d1 in cands && d0 != d1;
    }
  }

  /** The candidate list has one entry exactly when the cell has a sole candidate, and then it is that digit. */
  lemma SingleCandidate(p: string, r: int, c: int)
    requires |p| == 81 && 0 <= r < 9 && 0 <= c < 9
    ensures |Candidates(p, r, c)| == 1 <==> HasSoleCandidate(p, r, c)
    ensures |Candidates(p, r, c)| == 1 ==>
      var d := Candidates(p, r, c)[0];
      IsDigit(d) && Allowed(p, r, c, d) && forall e :: IsDigit(e) && Allowed(p, r, c, e) ==> e == d
  {
    SoleEntry(Candidates(p, r, c), d => Allowed(p, r, c, d));
  }

  /** What one pass does to cell `i`. */
  lemma PassCellMeaning(p: string, i: int)
    requires |p| == 81 && 0 <= i < 81
    ensures p[i] != '.' ==> Pass(p)[i] == p[i]
    ensures p[i] == '.' ==> (Pass(p)[i] != '.' <==> HasSoleCandidate(p, i / 9, i % 9))
    ensures Pass(p)[i] != p[i] ==>
      var d := Pass(p)[i];
      IsDigit(d) && Allowed(p, i / 9, i % 9, d) && forall e :: IsDigit(e) && Allowed(p, i / 9, i % 9, e) ==> e == d
  {
    SingleCandidate(p, i / 9, i % 9);
    assert Pass(p)[i] == PassCell(p, i);
  }

  /** A pass changes nothing exactly when no blank cell has a sole candidate. */
  lemma PassFixedPoint(p: string)
    requires |p| == 81
    ensures Pass(p) == p <==> forall i :: 0 <= i < 81 && p[i] == '.' ==> !HasSoleCandidate(p, i / 9, i % 9)
  {
    forall i | 0 <= i < 81 {
      PassCellMeaning(p, i);
    }
    if Pass(p) != p {
      var i :| 0 <= i < 81 && Pass(p)[i] != p[i];
      assert p[i] == '.';
    }
  }

  /** Filling blanks, and nothing else, lowers the blank count unless nothing changed. */
  lemma {:induction false} FillingShrinks(p: string, q: string)
    requires |q| == |p|
    requires forall i :: 0 <= i < |p| ==> q[i] == p[i] || (p[i] == '.' && q[i] != '.')
    ensures Blanks(q) <= Blanks(p)
    ensures q != p ==> Blanks(q) < Blanks(p)
  {
    if p != [] {
      FillingShrinks(p[1..], q[1..]);
      if q != p && q[0] == p[0] {
        assert q == [q[0]] + q[1..] && p == [p[0]] + p[1..];
        assert q[1..] != p[1..];
      }
    }
  }

  /**
    The solver's outcome on a present puzzle string: validate, stop on a complete
    grid, otherwise run a pass and start over on its result, or fail when the
    pass changed nothing.
  */
  function SolveFrom(p: string): (r: Solution)
    decreases Blanks(p)
    ensures Validity(p).Invalid? ==> r == Failed(Validity(p).error)
    ensures Validity(p) == Valid && Complete(p) ==> r == Solved(p)
    ensures r.Solved? ==> Complete(r.solution) && Validity(r.solution) == Valid && AgreesOnFilled(p, r.solution)
    ensures r.Failed? ==> r.error in {InvalidPuzzleCharacters, InvalidPuzzleLength, CannotBeSolved}
  {
    match Validity(p)
    case Invalid(e) => Failed(e)
    case Valid =>
      if Complete(p) then Solved(p)
      else
        var q := Pass(p);
        if q == p then Failed(CannotBeSolved)
        else
          FillingShrinks(p, q);
          SolveFrom(q)
  }

  /** One more digit considered: it is appended exactly when it passes the checks. */
  lemma CandidatesStep(p: string, r: int, c: int, n: int, ok: bool)
    requires |p| == 81 && 0 <= r < 9 && 0 <= c < 9 && 1 <= n <= 9
    requires ok == Allowed(p, r, c, DigitChar(n))
    ensures CandidatesUpTo(p, r, c, n) == CandidatesUpTo(p, r, c, n - 1) + (if ok then [DigitChar(n)] else [])
  {
  }

  /** The digits 1-9, in increasing order, that pass all three axis checks at cell `cellIndex`. */
  method CollectValidValues(puzzleString: string, cellIndex: int) returns (validValues: seq<char>)
    requires |puzzleString| == 81 && 0 <= cellIndex < 81
    ensures validValues == Candidates(puzzleString, cellIndex / 9, cellIndex % 9)
  {
    var rowIndex := cellIndex / 9;
    var colIndex := cellIndex % 9;
    var rowPoint := RowIndexToCoordinate(rowIndex);
    var colPoint := ColumnIndexToCoordinate(colIndex);
    validValues := [];
    var value := 1;
    while value <= 9
      invariant 1 <= value <= 10
      invariant validValues == CandidatesUpTo(puzzleString, rowIndex, colIndex, value - 1)
    {
      var d := DigitChar(value);
      var ok := CheckRowPlacement(puzzleString, rowPoint, colPoint, d);
      if ok {
        ok := CheckColPlacement(puzzleString, rowPoint, colPoint, d);
      }
      if ok {
        ok := CheckRegionPlacement(puzzleString, rowPoint, colPoint, d);
      }
      CandidatesStep(puzzleString, rowIndex, colIndex, value, ok);
      if ok {
        validValues := validValues + [d];
      }
      value := value + 1;
    }
  }

  /** A blank cell after a pass, in terms of its collected candidate values. */
  lemma PassCellOfBlank(p: string, i: int, validValues: seq<char>)
    requires |p| == 81 && 0 <= i < 81 && p[i] == '.'
    requires validValues == Candidates(p, i / 9, i % 9)
    ensures PassCell(p, i) == if |validValues| == 1 then validValues[0] else '.'
  {
  }

  /** One pass, updating a working copy of the cells in place. */
  method SolvePass(puzzleString: string) returns (updated: string)
    requires |puzzleString| == 81
    ensures updated == Pass(puzzleString)
  {
    var puzzleArray := new char[81](i requires 0 <= i < 81 => puzzleString[i]);
    var cellIndex := 0;
    while cellIndex < puzzleArray.Length
      invariant 0 <= cellIndex <= 81 == puzzleArray.Length
      invariant forall j :: 0 <= j < cellIndex ==> puzzleArray[j] == PassCell(puzzleString, j)
      invariant forall j :: cellIndex <= j < 81 ==> puzzleArray[j] == puzzleString[j]
    {
      if puzzleArray[cellIndex] == '.' {
        var validValues := CollectValidValues(puzzleString, cellIndex);
        if |validValues| == 1 {
          puzzleArray[cellIndex] := validValues[0];
        }
        PassCellOfBlank(puzzleString, cellIndex, validValues);
      }
      cellIndex := cellIndex + 1;
    }
    updated := puzzleArray[..];
    assert forall j :: 0 <= j < 81 ==> updated[j] == Pass(puzzleString)[j];
  }

  /** The whole solver, with the recursion on the updated string run as a loop. */
  method Solve(puzzle: Option<string>) returns (result: Solution)
    ensures Missing(puzzle) ==> result == Failed(PuzzleFieldMissing)
    ensures !Missing(puzzle) ==> result == SolveFrom(puzzle.value)
    ensures result.Solved? ==>
      !Missing(puzzle) && Complete(result.solution) && Validity(result.solution) == Valid &&
      AgreesOnFilled(puzzle.value, result.solution)
  {
    if Missing(puzzle) {
      return Failed(PuzzleFieldMissing);
    }
    var puzzleString := puzzle.value;
    while true
      invariant SolveFrom(puzzleString) == SolveFrom(puzzle.value)
      decreases Blanks(puzzleString)
    {
      var validationResult := Validate(puzzleString);
      if validationResult.Invalid? {
        return Failed(validationResult.error);
      }
      if Complete(puzzleString) {
        return Solved(puzzleString);
      }
      var updatedPuzzleString := SolvePass(puzzleString);
      if puzzleString == updatedPuzzleString {
        return Failed(CannotBeSolved);
      }
      FillingShrinks(puzzleString, updatedPuzzleString);
      puzzleString := updatedPuzzleString;
    }
  }

  /** Any solution the solver returns is a full grid that obeys the Sudoku rule. */
  lemma SolutionObeysSudokuRule(p: string)
    ensures SolveFrom(p).Solved? ==> |SolveFrom(p).solution| == 81 && NoRepeatedDigit(SolveFrom(p).solution)
  {
    if SolveFrom(p).Solved? {
      ValidIffSudokuRule(SolveFrom(p).solution);
    }
  }

  /** Solving a solver's output returns it unchanged. */
  lemma SolveIdempotent(p: string)
    ensures SolveFrom(p).Solved? ==> SolveFrom(SolveFrom(p).solution) == SolveFrom(p)
  {
  }
}

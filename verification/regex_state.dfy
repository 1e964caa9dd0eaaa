/**
  The illegal-character test as written: a regular expression carrying the
  global flag, whose `test` resumes from the `lastIndex` left by the previous
  call (on any string) and stores where it stopped.
*/
module RegexState {
  import opened Errors
  import opened Validator

  /** Index of the first illegal symbol at or after `from`, or -1 when there is none. */
  function FirstIllegalFrom(p: string, from: nat): (i: int)
    requires from <= |p|
    decreases |p| - from
    ensures i == -1 || (from <= i < |p| && !IsLegalChar(p[i]))
    ensures forall j :: from <= j < |p| && (i == -1 || j < i) ==> IsLegalChar(p[j])
  {
    if from == |p| then -1
    else if !IsLegalChar(p[from]) then from
    else FirstIllegalFrom(p, from + 1)
  }

  /**
    `test` on a global regular expression that matches one illegal symbol:
    the verdict and the `lastIndex` it leaves behind.
  */
  function GlobalRegexTest(p: string, lastIndex: nat): (r: (bool, nat))
    ensures r.0 <==> exists i :: lastIndex <= i < |p| && !IsLegalChar(p[i])
    ensures r.0 ==> lastIndex < r.1 <= |p| && !IsLegalChar(p[r.1 - 1])
    ensures r.0 ==> forall j :: lastIndex <= j < r.1 - 1 ==> IsLegalChar(p[j])
    ensures !r.0 ==> r.1 == 0
  {
    if lastIndex > |p| then (false, 0)
    else
      var i := FirstIllegalFrom(p, lastIndex);
      if i == -1 then (false, 0) else (true, i + 1)
  }

  /** From `lastIndex` 0 the global-flag test says exactly what the stateless predicate says. */
  lemma FreshTestIsStateless(p: string)
    ensures GlobalRegexTest(p, 0).0 <==> HasIllegalChar(p)
  {
  }

  /** The validator as written: its outcome and the `lastIndex` it leaves for the next call. */
  function ValidityAsWritten(p: string, lastIndex: nat): (r: (Validation, nat))
    ensures lastIndex == 0 ==> r.0 == Validity(p)
  {
    var (illegal, next) := GlobalRegexTest(p, lastIndex);
    if illegal then (Invalid(InvalidPuzzleCharacters), next)
    else if |p| != 81 then (Invalid(InvalidPuzzleLength), next)
    else if Consistent(p) then (Valid, next)
    else (Invalid(CannotBeSolved), next)
  }

  /**
    Validating a puzzle whose first symbol is `X` twice in a row: the first call
    rejects it and leaves `lastIndex` at 1, so the second call starts its search
    after the `X` and accepts the puzzle.
  */
  lemma StaleLastIndexAcceptsIllegalPuzzle()
    ensures var x := ['X'] + seq(80, _ => '.');
      ValidityAsWritten(x, 0) == (Invalid(InvalidPuzzleCharacters), 1) &&
      ValidityAsWritten(x, 1).0 == Valid &&
      Validity(x) == Invalid(InvalidPuzzleCharacters)
  {
    var x := ['X'] + seq(80, _ => '.');
    assert !IsLegalChar(x[0]);
    assert forall i :: 1 <= i < |x| ==> x[i] == '.';
    assert Consistent(x);
  }
}

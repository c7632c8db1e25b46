/**
 * The backtracking search of solveSudoku.  `Solve` and `TryAll` give the
 * outcome the search computes from a field: select a cell, try its
 * candidates in ascending order, keep the first branch that succeeds.
 * `SolveSudoku` is the in-place method (assign, recurse, write 0 back) and
 * is proved to produce exactly that outcome, or to restore the field.
 */
module Search {
  import opened SudokuField
  import opened CandidateScan
  import opened Selection

  /** The outcome of solveSudoku on g: the solved field, or None when it returns false. */
  function Solve(g: Field): Option<Field>
    requires WellFormed(g)
    decreases EmptyCount(g), 1, 0
  {
    match Select(g)
    case None => Some(g)
    case Some((x, y)) =>
      TryAll(g, x, y, Candidates(g, x, y))
  }

  /** Writes each of cs into the empty cell (x, y) in turn and keeps the first solved branch. */
  function TryAll(g: Field, x: int, y: int, cs: seq<int>): Option<Field>
    requires WellFormed(g) && 0 <= x < 9 && 0 <= y < 9 && g[x][y] == 0
    requires forall k :: 0 <= k < |cs| ==> 1 <= cs[k] <= 9
    decreases EmptyCount(g), 0, |cs|
  {
    if cs == [] then None
    else
      PlaceDecreasesEmptyCount(g, x, y, cs[0]);
      match Solve(Place(g, x, y, cs[0]))
      case Some(s) => Some(s)
      case None => TryAll(g, x, y, cs[1..])
  }

  /** Filling an empty cell with a free value keeps a consistent field consistent. */
  lemma PlaceFreeKeepsConsistent(g: Field, x: int, y: int, v: int)
    requires WellFormed(g) && 0 <= x < 9 && 0 <= y < 9 && g[x][y] == 0
    requires Free(g, x, y, v) && Consistent(g)
    ensures WellFormed(Place(g, x, y, v)) && Consistent(Place(g, x, y, v))
  {
    var g' := Place(g, x, y, v);
    FreeIffNoPeerHolds(g, x, y, v);
    forall r, c, r', c' |
      0 <= r < 9 && 0 <= c < 9 && 0 <= r' < 9 && 0 <= c' < 9 && Peers(r, c, r', c') && g'[r][c] != 0
      ensures g'[r][c] != g'[r'][c']
    {
      if (r, c) == (x, y) {
        assert g'[r'][c'] == g[r'][c'];
      } else if (r', c') == (x, y) {
        assert Peers(x, y, r, c);
      } else {
        assert g'[r][c] == g[r][c] && g'[r'][c'] == g[r'][c'];
      }
    }
  }

  /**
   * Soundness of the search: a solved field is well-formed, has no empty
   * cell, keeps every given, and is consistent when the input was.
   */
  lemma {:induction false} SolveSound(g: Field)
    requires WellFormed(g)
    ensures Solve(g).Some? ==>
      var s := Solve(g).value;
      WellFormed(s) && Complete(s) && Extends(g, s) && (Consistent(g) ==> Consistent(s))
    decreases EmptyCount(g), 1, 0
  {
    SelectIsFirstMin(g);
    match Select(g)
    case None =>
    case Some((x, y)) =>
      var cs := Candidates(g, x, y);
      assert forall k :: 0 <= k < |cs| ==> cs[k] in cs && Free(g, x, y, cs[k]);
      TryAllSound(g, x, y, cs);
  }

  lemma {:induction false} TryAllSound(g: Field, x: int, y: int, cs: seq<int>)
    requires WellFormed(g) && 0 <= x < 9 && 0 <= y < 9 && g[x][y] == 0
    requires forall k :: 0 <= k < |cs| ==> 1 <= cs[k] <= 9 && Free(g, x, y, cs[k])
    ensures TryAll(g, x, y, cs).Some? ==>
      var s := TryAll(g, x, y, cs).value;
      WellFormed(s) && Complete(s) && Extends(g, s) && (Consistent(g) ==> Consistent(s))
    decreases EmptyCount(g), 0, |cs| + 1
  {
    if cs != [] {
      BranchSound(g, x, y, cs[0]);
      TryAllSound(g, x, y, cs[1..]);
    }
  }

  /** One branch of the candidate loop: what the recursion returns for g with v placed is a solution for g. */
  lemma {:induction false} BranchSound(g: Field, x: int, y: int, v: int)
    requires WellFormed(g) && 0 <= x < 9 && 0 <= y < 9 && g[x][y] == 0 && Free(g, x, y, v)
    ensures WellFormed(Place(g, x, y, v))
    ensures Solve(Place(g, x, y, v)).Some? ==>
      var s := Solve(Place(g, x, y, v)).value;
      WellFormed(s) && Complete(s) && Extends(g, s) && (Consistent(g) ==> Consistent(s))
    decreases EmptyCount(g), 0, 0
  {
    var g' := Place(g, x, y, v);
    PlaceDecreasesEmptyCount(g, x, y, v);
    SolveSound(g');
    if Consistent(g) {
      PlaceFreeKeepsConsistent(g, x, y, v);
    }
  }

  /** If v is among cs and the branch for v succeeds, some branch succeeds. */
  lemma {:induction false} TryAllReaches(g: Field, x: int, y: int, cs: seq<int>, v: int)
    requires WellFormed(g) && 0 <= x < 9 && 0 <= y < 9 && g[x][y] == 0
    requires forall k :: 0 <= k < |cs| ==> 1 <= cs[k] <= 9
    requires v in cs && Solve(Place(g, x, y, v)).Some?
    ensures TryAll(g, x, y, cs).Some?
    decreases |cs|
  {
    if cs[0] != v {
      TryAllReaches(g, x, y, cs[1..], v);
    }
  }

  /**
   * Completeness of the search: when some solved Sudoku keeps the givens of
   * g, solveSudoku returns true.  So false means that g has no solution.
   */
  lemma {:induction false} SolveComplete(g: Field, s: Field)
    requires WellFormed(g) && IsSolutionOf(g, s)
    ensures Solve(g).Some?
    decreases EmptyCount(g)
  {
    SelectIsFirstMin(g);
    match Select(g)
    case None =>
    case Some((x, y)) =>
      var v := s[x][y];
      SolutionValueIsCandidate(g, s, x, y);
      PlaceDecreasesEmptyCount(g, x, y, v);
      SolveComplete(Place(g, x, y, v), s);
      TryAllReaches(g, x, y, Candidates(g, x, y), v);
  }

  /**
   * The value a solution holds in an empty cell is one of the cell's
   * candidates, and the solution also solves the field with that value placed.
   */
  lemma SolutionValueIsCandidate(g: Field, s: Field, x: int, y: int)
    requires WellFormed(g) && IsSolutionOf(g, s) && 0 <= x < 9 && 0 <= y < 9 && g[x][y] == 0
    ensures s[x][y] in Candidates(g, x, y)
    ensures WellFormed(Place(g, x, y, s[x][y])) && IsSolutionOf(Place(g, x, y, s[x][y]), s)
  {
    var v := s[x][y];
    FreeIffNoPeerHolds(g, x, y, v);
    forall k, l | 0 <= k < 9 && 0 <= l < 9 && Peers(x, y, k, l)
      ensures g[k][l] != v
    {
      if g[k][l] != 0 {
        assert s[k][l] == g[k][l];
      }
    }
    assert IsSolutionOf(Place(g, x, y, v), s);
  }

  /** solveSudoku returns false exactly when the field has no solution keeping its givens (for a consistent field). */
  lemma SolveDecidesSolvable(g: Field)
    requires WellFormed(g)
    ensures Solve(g).None? ==> !Solvable(g)
    ensures Consistent(g) ==> (Solve(g).Some? <==> Solvable(g))
  {
    if Solvable(g) {
      var s :| IsSolutionOf(g, s);
      SolveComplete(g, s);
    }
    SolveSound(g);
    if Consistent(g) && Solve(g).Some? {
      assert IsSolutionOf(g, Solve(g).value);
    }
  }

  /** A field with no empty cell is returned as it is: solving is idempotent. */
  lemma CompleteIsSolved(g: Field)
    requires WellFormed(g) && Complete(g)
    ensures Solve(g) == Some(g)
  {
    SelectIsFirstMin(g);
  }

  /**
   * An empty cell without candidates makes the search fail: the rule
   * selects a cell with no candidates, so no branch is tried.
   */
  lemma DeadCellFails(g: Field, i: int, j: int)
    requires WellFormed(g) && 0 <= i < 9 && 0 <= j < 9 && g[i][j] == 0
    requires Candidates(g, i, j) == []
    ensures Solve(g).None?
  {
    SelectIsFirstMin(g);
    var (x, y) := Select(g).value;
    assert |Candidates(g, x, y)| <= |Candidates(g, i, j)|;
  }

  /** One branch: the first candidate's result decides, unless that branch fails. */
  lemma TryAllStep(g: Field, x: int, y: int, cs: seq<int>)
    requires WellFormed(g) && 0 <= x < 9 && 0 <= y < 9 && g[x][y] == 0
    requires forall n :: 0 <= n < |cs| ==> 1 <= cs[n] <= 9
    requires cs != []
    ensures WellFormed(Place(g, x, y, cs[0]))
    ensures TryAll(g, x, y, cs) ==
      if Solve(Place(g, x, y, cs[0])).Some? then Solve(Place(g, x, y, cs[0])) else TryAll(g, x, y, cs[1..])
  {
    PlaceDecreasesEmptyCount(g, x, y, cs[0]);
  }

  /**
   * Branch order: failed candidates are passed over, and the first
   * candidate whose branch succeeds decides the result.
   */
  lemma TryAllFirstSuccess(g: Field, x: int, y: int, cs: seq<int>, k: int)
    requires WellFormed(g) && 0 <= x < 9 && 0 <= y < 9 && g[x][y] == 0
    requires forall n :: 0 <= n < |cs| ==> 1 <= cs[n] <= 9
    requires 0 <= k <= |cs|
    requires forall n :: 0 <= n < k ==> Solve(Place(g, x, y, cs[n])).None?
    ensures k < |cs| && Solve(Place(g, x, y, cs[k])).Some? ==>
      TryAll(g, x, y, cs) == Solve(Place(g, x, y, cs[k]))
    ensures k == |cs| ==> TryAll(g, x, y, cs).None?
  {
    assert cs[0..] == cs;
    for j := 0 to k
      invariant TryAll(g, x, y, cs[j..]) == TryAll(g, x, y, cs)
    {
      TryAllSuffixStep(g, x, y, cs, j);
    }
    if k < |cs| {
      TryAllSuffixStep(g, x, y, cs, k);
    } else {
      assert cs[k..] == [];
    }
  }

  /** Solve unfolded once: a complete field is its own outcome, otherwise the selected cell's candidates are tried. */
  lemma SolveOfSelected(g: Field)
    requires WellFormed(g)
    ensures Select(g).None? ==> Solve(g) == Some(g)
    ensures Select(g).Some? ==>
      var (x, y) := Select(g).value;
      Solve(g) == TryAll(g, x, y, Candidates(g, x, y))
  {
  }

  /** The suffix of candidates from k on: its first branch decides, unless it fails. */
  lemma TryAllSuffixStep(g: Field, x: int, y: int, cs: seq<int>, k: int)
    requires WellFormed(g) && 0 <= x < 9 && 0 <= y < 9 && g[x][y] == 0
    requires forall n :: 0 <= n < |cs| ==> 1 <= cs[n] <= 9
    requires 0 <= k < |cs|
    ensures TryAll(g, x, y, cs[k..]) ==
      if Solve(Place(g, x, y, cs[k])).Some? then Solve(Place(g, x, y, cs[k])) else TryAll(g, x, y, cs[k + 1..])
    ensures |cs| == k + 1 ==> TryAll(g, x, y, cs[k + 1..]).None?
  {
    var t := cs[k..];
    assert forall n :: 0 <= n < |t| ==> t[n] == cs[k + n];
    TryAllStep(g, x, y, t);
    assert t[0] == cs[k] && t[1..] == cs[k + 1..];
  }

  /**
   * solveSudoku: select the cell with the fewest candidates and try them;
   * true at once when no cell is empty.  The field ends as Solve says, and
   * is restored cell for cell when the result is false.
   */
  method SolveSudoku(field: array2<int>) returns (solved: bool)
    requires field.Length0 == 9 && field.Length1 == 9 && WellFormed(Cells(field))
    modifies field
    decreases EmptyCount(Cells(field)), 2
    ensures WellFormed(Cells(field))
    ensures solved == Solve(old(Cells(field))).Some?
    ensures solved ==> Cells(field) == Solve(old(Cells(field))).value
    ensures !solved ==> Cells(field) == old(Cells(field))
    ensures solved ==> Complete(Cells(field)) && Extends(old(Cells(field)), Cells(field))
    ensures solved && Consistent(old(Cells(field))) ==> Consistent(Cells(field))
    ensures !solved ==> !Solvable(old(Cells(field)))
  {
    ghost var g := Cells(field);
    SolveSound(g);
    SolveDecidesSolvable(g);
    SolveOfSelected(g);
    var minPossible, x, y, possibleNumbers := SelectCell(field);
    if minPossible == 10 {
      return true;
    }
    solved := TryCandidates(field, x, y, possibleNumbers);
  }

  /**
   * The candidate loop of solveSudoku (lines 112-119): try each value in
   * order, return true on the first branch that succeeds, false when all
   * fail.  The result is TryAll's, and a false result leaves the field as
   * it was.
   */
  method TryCandidates(field: array2<int>, x: int, y: int, cs: seq<int>) returns (found: bool)
    requires field.Length0 == 9 && field.Length1 == 9 && WellFormed(Cells(field))
    requires 0 <= x < 9 && 0 <= y < 9 && field[x, y] == 0
    requires forall n :: 0 <= n < |cs| ==> 1 <= cs[n] <= 9
    modifies field
    decreases EmptyCount(Cells(field)), 1
    ensures WellFormed(Cells(field))
    ensures found == TryAll(old(Cells(field)), x, y, cs).Some?
    ensures found ==> Cells(field) == TryAll(old(Cells(field)), x, y, cs).value
    ensures !found ==> Cells(field) == old(Cells(field))
  {
    ghost var g := Cells(field);
    assert cs[0..] == cs;
    for k := 0 to |cs|
      invariant Cells(field) == g
      invariant TryAll(g, x, y, cs[k..]) == TryAll(g, x, y, cs)
    {
      TryAllSuffixStep(g, x, y, cs, k);
      found := Branch(field, x, y, cs[k]);
      if found {
        return;
      }
    }
    assert cs[|cs|..] == [];
    found := false;
  }

  /**
   * One branch of solveSudoku: write v into the empty cell (x, y), recurse,
   * and write 0 back when the recursion fails.
   */
  method Branch(field: array2<int>, x: int, y: int, v: int) returns (found: bool)
    requires field.Length0 == 9 && field.Length1 == 9 && WellFormed(Cells(field))
    requires 0 <= x < 9 && 0 <= y < 9 && field[x, y] == 0 && 1 <= v <= 9
    modifies field
    decreases EmptyCount(Cells(field)), 0
    ensures WellFormed(Cells(field))
    ensures found == Solve(Place(old(Cells(field)), x, y, v)).Some?
    ensures found ==> Cells(field) == Solve(Place(old(Cells(field)), x, y, v)).value
    ensures !found ==> Cells(field) == old(Cells(field))
  {
    ghost var g := Cells(field);
    field[x, y] := v;
    CellsAfterWrite(field, g, x, y, v);
    PlaceDecreasesEmptyCount(g, x, y, v);
    found := SolveSudoku(field);
    if found {
      return;
    }
    field[x, y] := 0;
    CellsAfterWrite(field, Place(g, x, y, v), x, y, 0);
    PlaceUndo(g, x, y, v);
  }
}

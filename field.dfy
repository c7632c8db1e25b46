/**
 * The Sudoku field of sudokuSolver.cpp: a vector of rows of ints, 0 for an
 * empty cell and 1..9 for a filled one.  This module holds the field type,
 * the shape check `CheckField`, and the predicates the solver's contracts
 * are written in (well-formedness, completeness, consistency, extension).
 */
module SudokuField {

  datatype Option<T> = None | Some(value: T)

  /** A field as the program stores it; rows may have any length until checked. */
  type Field = seq<seq<int>>

  /** 9 rows of 9 cells, every cell in 0..maxValue. */
  predicate InShape(g: Field, maxValue: int) {
    |g| == 9 &&
    (forall r :: 0 <= r < 9 ==> |g[r]| == 9) &&
    (forall r, c :: 0 <= r < 9 && 0 <= c < 9 ==> 0 <= g[r][c] <= maxValue)
  }

  /**
   * What the solver needs of its field: 9 by 9, every cell 0 (empty) or
   * 1..9, so that every cell value indexes its 10-entry presence table.
   */
  predicate WellFormed(g: Field) {
    InShape(g, 9)
  }

  /** Reads the 9-by-9 array the solver works on as a field. */
  ghost function Cells(a: array2<int>): (g: Field)
    reads a
    requires a.Length0 == 9 && a.Length1 == 9
    ensures |g| == 9
    ensures forall r :: 0 <= r < 9 ==> |g[r]| == 9
    ensures forall r, c :: 0 <= r < 9 && 0 <= c < 9 ==> g[r][c] == a[r, c]
  {
    seq(9, r requires 0 <= r < 9 reads a => seq(9, c requires 0 <= c < 9 reads a => a[r, c]))
  }

  /** Two 9-by-9 fields that agree cell for cell are equal. */
  lemma SameCells(g: Field, h: Field)
    requires |g| == 9 && |h| == 9 && forall r :: 0 <= r < 9 ==> |g[r]| == 9 && |h[r]| == 9
    requires forall r, c :: 0 <= r < 9 && 0 <= c < 9 ==> g[r][c] == h[r][c]
    ensures g == h
  {
    forall r | 0 <= r < 9 ensures g[r] == h[r] {
      assert forall c :: 0 <= c < 9 ==> g[r][c] == h[r][c];
    }
  }

  /** An array that holds `before` except for v at (x, y) reads as v placed into `before`. */
  lemma CellsAfterWrite(a: array2<int>, before: Field, x: int, y: int, v: int)
    requires a.Length0 == 9 && a.Length1 == 9 && 0 <= x < 9 && 0 <= y < 9
    requires |before| == 9 && forall r :: 0 <= r < 9 ==> |before[r]| == 9
    requires a[x, y] == v
    requires forall r, c :: 0 <= r < 9 && 0 <= c < 9 && (r != x || c != y) ==> a[r, c] == before[r][c]
    ensures Cells(a) == Place(before, x, y, v)
  {
    SameCells(Cells(a), Place(before, x, y, v));
  }

  /** The field with cell (x, y) set to v. */
  function Place(g: Field, x: int, y: int, v: int): (h: Field)
    requires 0 <= x < |g| && 0 <= y < |g[x]|
    ensures |h| == |g| && |h[x]| == |g[x]| && h[x][y] == v
    ensures forall i :: 0 <= i < |g| && i != x ==> h[i] == g[i]
    ensures forall j :: 0 <= j < |g[x]| && j != y ==> h[x][j] == g[x][j]
  {
    g[x := g[x][y := v]]
  }

  /** Writing 0 back into a cell that was empty restores the field. */
  lemma PlaceUndo(g: Field, x: int, y: int, v: int)
    requires 0 <= x < |g| && 0 <= y < |g[x]| && g[x][y] == 0
    ensures Place(Place(g, x, y, v), x, y, 0) == g
  {
    assert g[x][y := v][y := 0] == g[x];
  }

  /** No cell of the field is empty. */
  predicate Complete(g: Field)
    requires WellFormed(g)
  {
    forall r, c :: 0 <= r < 9 && 0 <= c < 9 ==> g[r][c] != 0
  }

  /** Two different cells that share a row, a column or a 3x3 box. */
  predicate Peers(r: int, c: int, r': int, c': int) {
    (r, c) != (r', c') && (r == r' || c == c' || (r / 3 == r' / 3 && c / 3 == c' / 3))
  }

  /** No filled cell repeats its value in its row, column or box. */
  predicate Consistent(g: Field)
    requires WellFormed(g)
  {
    forall r, c, r', c' ::
      (0 <= r < 9 && 0 <= c < 9 && 0 <= r' < 9 && 0 <= c' < 9 &&
       Peers(r, c, r', c') && g[r][c] != 0) ==> g[r][c] != g[r'][c']
  }

  /** `s` keeps every filled cell of `g`. */
  predicate Extends(g: Field, s: Field)
    requires WellFormed(g) && WellFormed(s)
  {
    forall r, c :: 0 <= r < 9 && 0 <= c < 9 && g[r][c] != 0 ==> s[r][c] == g[r][c]
  }

  /** `s` is a solved Sudoku that keeps the givens of `g`. */
  predicate IsSolutionOf(g: Field, s: Field)
    requires WellFormed(g)
  {
    WellFormed(s) && Complete(s) && Consistent(s) && Extends(g, s)
  }

  ghost predicate Solvable(g: Field)
    requires WellFormed(g)
  {
    exists s :: IsSolutionOf(g, s)
  }

  /** Number of empty cells in a row. */
  function EmptyInRow(row: seq<int>): nat
  {
    if row == [] then 0
    else EmptyInRow(row[..|row| - 1]) + (if row[|row| - 1] == 0 then 1 else 0)
  }

  /** Number of empty cells in a field: the solver's termination measure. */
  function EmptyCount(g: Field): nat
  {
    if g == [] then 0 else EmptyCount(g[..|g| - 1]) + EmptyInRow(g[|g| - 1])
  }

  lemma {:induction false} EmptyInRowFill(row: seq<int>, c: int, v: int)
    requires 0 <= c < |row| && row[c] == 0 && v != 0
    ensures EmptyInRow(row[c := v]) == EmptyInRow(row) - 1
    decreases |row|
  {
    var n := |row|;
    var row' := row[c := v];
    if c == n - 1 {
      assert row'[..n - 1] == row[..n - 1];
    } else {
      assert row'[..n - 1] == row[..n - 1][c := v];
      EmptyInRowFill(row[..n - 1], c, v);
    }
  }

  /** Filling one empty cell removes exactly one empty cell. */
  lemma {:induction false} PlaceDecreasesEmptyCount(g: Field, x: int, y: int, v: int)
    requires 0 <= x < |g| && 0 <= y < |g[x]| && g[x][y] == 0 && v != 0
    ensures EmptyCount(Place(g, x, y, v)) == EmptyCount(g) - 1
    decreases |g|
  {
    var n := |g|;
    var g' := Place(g, x, y, v);
    if x == n - 1 {
      assert g'[..n - 1] == g[..n - 1];
      EmptyInRowFill(g[x], y, v);
    } else {
      assert g'[..n - 1] == Place(g[..n - 1], x, y, v);
      PlaceDecreasesEmptyCount(g[..n - 1], x, y, v);
    }
  }

  /** A well-formed field with no empty cell has an empty count of zero, and conversely. */
  lemma {:induction false} EmptyCountZero(g: Field)
    requires WellFormed(g)
    ensures EmptyCount(g) == 0 <==> Complete(g)
  {
    EmptyCountPrefix(g, 9);
    assert g[..9] == g;
  }

  lemma {:induction false} EmptyCountPrefix(g: Field, r: int)
    requires WellFormed(g) && 0 <= r <= 9
    ensures EmptyCount(g[..r]) == 0 <==> forall r', c :: 0 <= r' < r && 0 <= c < 9 ==> g[r'][c] != 0
  {
    if r > 0 {
      assert g[..r][..r - 1] == g[..r - 1];
      EmptyCountPrefix(g, r - 1);
      EmptyInRowPrefix(g[r - 1], 9);
      assert g[r - 1][..9] == g[r - 1];
    }
  }

  lemma {:induction false} EmptyInRowPrefix(row: seq<int>, k: int)
    requires 0 <= k <= |row|
    ensures EmptyInRow(row[..k]) == 0 <==> forall c :: 0 <= c < k ==> row[c] != 0
  {
    if k > 0 {
      assert row[..k][..k - 1] == row[..k - 1];
      EmptyInRowPrefix(row, k - 1);
    }
  }

  /**
   * checkField: exactly 9 rows, each of exactly 9 entries, every entry in
   * 0..10.  It returns at the first offending row or entry.
   */
  method CheckField(field: Field) returns (ok: bool)
    ensures ok <==> InShape(field, 10)
  {
    if |field| != 9 {
      return false;
    }
    for r := 0 to |field|
      invariant forall r' :: 0 <= r' < r ==> |field[r']| == 9
      invariant forall r', c :: 0 <= r' < r && 0 <= c < 9 ==> 0 <= field[r'][c] <= 10
    {
      var v := field[r];
      if |v| != 9 {
        return false;
      }
      for c := 0 to |v|
        invariant forall c' :: 0 <= c' < c ==> 0 <= v[c'] <= 10
      {
        if v[c] < 0 || v[c] > 10 {
          return false;
        }
      }
    }
    return true;
  }

  /**
   * The shape check with the bound the solver's presence table needs:
   * every entry in 0..9, so that every field it accepts is one the solver
   * can index with.
   */
  method CheckSolverField(field: Field) returns (ok: bool)
    ensures ok <==> WellFormed(field)
  {
    if |field| != 9 {
      return false;
    }
    for r := 0 to |field|
      invariant forall r' :: 0 <= r' < r ==> |field[r']| == 9
      invariant forall r', c :: 0 <= r' < r && 0 <= c < 9 ==> 0 <= field[r'][c] <= 9
    {
      var v := field[r];
      if |v| != 9 {
        return false;
      }
      for c := 0 to |v|
        invariant forall c' :: 0 <= c' < c ==> 0 <= v[c'] <= 9
      {
        if v[c] < 0 || v[c] > 9 {
          return false;
        }
      }
    }
    return true;
  }

  /** A field whose first row starts with two 1s and whose last cell is 10. */
  function AdmittedField(): Field
  {
    seq(9, r => seq(9, c => if r == 0 && c < 2 then 1 else if r == 8 && c == 8 then 10 else 0))
  }

  /**
   * The check looks at shape and range only: it accepts a field with a
   * duplicate in a row, and a field holding 10, which is outside the solver's
   * 10-entry table.
   */
  lemma CheckFieldAdmitsDuplicatesAndTen()
    ensures InShape(AdmittedField(), 10)
    ensures !WellFormed(AdmittedField())
    ensures var g := AdmittedField()[8 := seq(9, c => 0)];
      WellFormed(g) && InShape(g, 10) && !Consistent(g)
  {
    var g := AdmittedField()[8 := seq(9, c => 0)];
    assert AdmittedField()[8][8] == 10;
    assert Peers(0, 0, 0, 1) && g[0][0] == 1 == g[0][1];
  }
}

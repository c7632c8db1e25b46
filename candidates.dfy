/**
 * The candidate computation of solveSudoku: for a cell, the values 1..9 that
 * appear neither in its row, nor in its column, nor in its 3x3 box.  The
 * source computes them with a 10-entry presence table; `Candidates` is the
 * ascending list they yield.
 */
module CandidateScan {
  import opened SudokuField

  predicate NotInRow(g: Field, r: int, v: int)
    requires WellFormed(g) && 0 <= r < 9
  {
    forall k :: 0 <= k < 9 ==> g[r][k] != v
  }

  predicate NotInColumn(g: Field, c: int, v: int)
    requires WellFormed(g) && 0 <= c < 9
  {
    forall k :: 0 <= k < 9 ==> g[k][c] != v
  }

  /** The box of (r, c) spans rows (r/3)*3 .. (r/3+1)*3 - 1 and likewise columns. */
  predicate NotInBox(g: Field, r: int, c: int, v: int)
    requires WellFormed(g) && 0 <= r < 9 && 0 <= c < 9
  {
    forall k, l :: (r / 3) * 3 <= k < (r / 3 + 1) * 3 && (c / 3) * 3 <= l < (c / 3 + 1) * 3 ==> g[k][l] != v
  }

  /** v may be written into (r, c): it is a digit missing from the cell's row, column and box. */
  predicate Free(g: Field, r: int, c: int, v: int)
    requires WellFormed(g) && 0 <= r < 9 && 0 <= c < 9
  {
    1 <= v <= 9 && NotInRow(g, r, v) && NotInColumn(g, c, v) && NotInBox(g, r, c, v)
  }

  /** The free values below n, in ascending order. */
  function CandidatesBelow(g: Field, r: int, c: int, n: int): (cs: seq<int>)
    requires WellFormed(g) && 0 <= r < 9 && 0 <= c < 9
    ensures forall v :: v in cs <==> v < n && Free(g, r, c, v)
    ensures forall a, b :: 0 <= a < b < |cs| ==> cs[a] < cs[b]
    ensures |cs| <= if n <= 1 then 0 else n - 1
    decreases n
  {
    if n <= 1 then []
    else
      var below := CandidatesBelow(g, r, c, n - 1);
      if Free(g, r, c, n - 1) then
        assert forall a :: 0 <= a < |below| ==> below[a] in below && below[a] < n - 1;
        below + [n - 1]
      else below
  }

  /**
   * The legal values of a cell, ascending: exactly the free digits, each
   * once, at most nine of them.
   */
  function Candidates(g: Field, r: int, c: int): (cs: seq<int>)
    requires WellFormed(g) && 0 <= r < 9 && 0 <= c < 9
    ensures forall v :: v in cs <==> Free(g, r, c, v)
    ensures forall a, b :: 0 <= a < b < |cs| ==> cs[a] < cs[b]
    ensures forall a :: 0 <= a < |cs| ==> 1 <= cs[a] <= 9
    ensures |cs| <= 9
  {
    var cs := CandidatesBelow(g, r, c, 10);
    assert forall a :: 0 <= a < |cs| ==> cs[a] in cs;
    cs
  }

  /** A cell belongs to the box of (r, c) exactly when it is in the same third of rows and of columns. */
  lemma SameBox(r: int, c: int, k: int, l: int)
    requires 0 <= r < 9 && 0 <= c < 9 && 0 <= k < 9 && 0 <= l < 9
    ensures ((r / 3) * 3 <= k < (r / 3 + 1) * 3 && (c / 3) * 3 <= l < (c / 3 + 1) * 3) <==>
            (k / 3 == r / 3 && l / 3 == c / 3)
  {
  }

  /**
   * Free values are exactly those no peer holds: the row, column and box
   * scans together cover every peer of the cell and nothing else.
   */
  lemma FreeIffNoPeerHolds(g: Field, r: int, c: int, v: int)
    requires WellFormed(g) && 0 <= r < 9 && 0 <= c < 9 && g[r][c] == 0 && 1 <= v <= 9
    ensures Free(g, r, c, v) <==>
            forall k, l :: 0 <= k < 9 && 0 <= l < 9 && Peers(r, c, k, l) ==> g[k][l] != v
  {
    if forall k, l :: 0 <= k < 9 && 0 <= l < 9 && Peers(r, c, k, l) ==> g[k][l] != v {
      forall k, l | (r / 3) * 3 <= k < (r / 3 + 1) * 3 && (c / 3) * 3 <= l < (c / 3 + 1) * 3
        ensures g[k][l] != v
      {
        SameBox(r, c, k, l);
        assert (k, l) == (r, c) || Peers(r, c, k, l);
      }
      assert NotInRow(g, r, v) by {
        forall k | 0 <= k < 9 ensures g[r][k] != v {
          assert k == c || Peers(r, c, r, k);
        }
      }
      assert NotInColumn(g, c, v) by {
        forall k | 0 <= k < 9 ensures g[k][c] != v {
          assert k == r || Peers(r, c, k, c);
        }
      }
    }
    if Free(g, r, c, v) {
      forall k, l | 0 <= k < 9 && 0 <= l < 9 && Peers(r, c, k, l)
        ensures g[k][l] != v
      {
        SameBox(r, c, k, l);
      }
    }
  }

  /** Raising the bound past p adds p to the list exactly when p is free. */
  lemma CountStep(g: Field, r: int, c: int, p: int)
    requires WellFormed(g) && 0 <= r < 9 && 0 <= c < 9 && 0 <= p
    ensures |CandidatesBelow(g, r, c, p + 1)| == |CandidatesBelow(g, r, c, p)| + if Free(g, r, c, p) then 1 else 0
  {
  }

  /**
   * The first two strike-out loops of the scan (solveSudoku's lines 80-83):
   * starting from the table {1..9 present}, clear every value of row i and
   * of column j.
   */
  method StrikeRowAndColumn(field: array2<int>, i: int, j: int) returns (numbers: seq<bool>)
    requires field.Length0 == 9 && field.Length1 == 9 && WellFormed(Cells(field))
    requires 0 <= i < 9 && 0 <= j < 9
    ensures |numbers| == 10 && !numbers[0]
    ensures forall v :: 1 <= v <= 9 ==>
      (numbers[v] <==> NotInRow(Cells(field), i, v) && NotInColumn(Cells(field), j, v))
  {
    ghost var g := Cells(field);
    numbers := [false, true, true, true, true, true, true, true, true, true];
    for k := 0 to 9
      invariant |numbers| == 10 && !numbers[0]
      invariant forall v :: 1 <= v <= 9 ==> (numbers[v] <==> forall k' :: 0 <= k' < k ==> g[i][k'] != v)
    {
      numbers := numbers[field[i, k] := false];
    }
    for k := 0 to 9
      invariant |numbers| == 10 && !numbers[0]
      invariant forall v :: 1 <= v <= 9 ==>
        (numbers[v] <==> NotInRow(g, i, v) && forall k' :: 0 <= k' < k ==> g[k'][j] != v)
    {
      numbers := numbers[field[k, j] := false];
    }
  }

  /**
   * The box loop of the scan (solveSudoku's lines 84-86): clear every value
   * of the 3x3 box of (i, j) from the table.
   */
  method StrikeBox(field: array2<int>, i: int, j: int, table: seq<bool>) returns (numbers: seq<bool>)
    requires field.Length0 == 9 && field.Length1 == 9 && WellFormed(Cells(field))
    requires 0 <= i < 9 && 0 <= j < 9 && |table| == 10 && !table[0]
    ensures |numbers| == 10 && !numbers[0]
    ensures forall v :: 1 <= v <= 9 ==> (numbers[v] <==> table[v] && NotInBox(Cells(field), i, j, v))
  {
    ghost var g := Cells(field);
    numbers := table;
    for k := (i / 3) * 3 to (i / 3 + 1) * 3
      invariant |numbers| == 10 && !numbers[0]
      invariant forall v :: 1 <= v <= 9 ==>
        (numbers[v] <==>
          table[v] && forall k', l :: (i / 3) * 3 <= k' < k && (j / 3) * 3 <= l < (j / 3 + 1) * 3 ==> g[k'][l] != v)
    {
      for l := (j / 3) * 3 to (j / 3 + 1) * 3
        invariant |numbers| == 10 && !numbers[0]
        invariant forall v :: 1 <= v <= 9 ==>
          (numbers[v] <==>
            table[v] &&
            (forall k', l' :: (i / 3) * 3 <= k' < k && (j / 3) * 3 <= l' < (j / 3 + 1) * 3 ==> g[k'][l'] != v) &&
            forall l' :: (j / 3) * 3 <= l' < l ==> g[k][l'] != v)
      {
        numbers := numbers[field[k, l] := false];
      }
    }
  }

  /**
   * The scan of one cell (solveSudoku's lines 74-91): strike out the row,
   * the column and the box, then count the values left in the table.
   */
  method ScanCell(field: array2<int>, i: int, j: int) returns (numbers: seq<bool>, possible: int)
    requires field.Length0 == 9 && field.Length1 == 9 && WellFormed(Cells(field))
    requires 0 <= i < 9 && 0 <= j < 9
    ensures |numbers| == 10 && !numbers[0]
    ensures forall v :: 1 <= v <= 9 ==> (numbers[v] <==> Free(Cells(field), i, j, v))
    ensures possible == |Candidates(Cells(field), i, j)|
  {
    ghost var g := Cells(field);
    numbers := StrikeRowAndColumn(field, i, j);
    numbers := StrikeBox(field, i, j, numbers);
    possible := 0;
    for p := 0 to 10
      invariant possible == |CandidatesBelow(g, i, j, p)|
    {
      CountStep(g, i, j, p);
      if numbers[p] {
        possible := possible + 1;
      }
    }
  }
}

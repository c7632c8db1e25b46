/**
 * Cell selection of solveSudoku (the double loop over the field): scan all
 * 81 cells in row-major order and keep the first empty cell whose candidate
 * count is strictly below the best seen so far, starting from the bound 10.
 * The "minimum remaining values" rule, ties going to the earliest cell.
 */
module Selection {
  import opened SudokuField
  import opened CandidateScan

  /** (i, j) comes before (x, y) in row-major order. */
  predicate Before(i: int, j: int, x: int, y: int) {
    i < x || (i == x && j < y)
  }

  /**
   * (x, y) is the cell the rule picks: empty, no empty cell has fewer
   * candidates, and every empty cell before it has strictly more.
   */
  ghost predicate IsFirstMin(g: Field, x: int, y: int)
    requires WellFormed(g)
  {
    0 <= x < 9 && 0 <= y < 9 && g[x][y] == 0 &&
    (forall i, j :: 0 <= i < 9 && 0 <= j < 9 && g[i][j] == 0 ==>
      |Candidates(g, x, y)| <= |Candidates(g, i, j)|) &&
    (forall i, j :: 0 <= i < 9 && 0 <= j < 9 && g[i][j] == 0 && Before(i, j, x, y) ==>
      |Candidates(g, x, y)| < |Candidates(g, i, j)|)
  }

  /** A 9-by-9 table of candidate counts, each below the scan's starting bound 10. */
  predicate Table(cnt: seq<seq<int>>) {
    |cnt| == 9 && (forall i :: 0 <= i < 9 ==> |cnt[i]| == 9) &&
    forall i, j :: 0 <= i < 9 && 0 <= j < 9 ==> 0 <= cnt[i][j] <= 9
  }

  /** The candidate count of every cell: the number the scan compares. */
  function Counts(g: Field): (cnt: seq<seq<int>>)
    requires WellFormed(g)
    ensures Table(cnt)
    ensures forall i, j :: 0 <= i < 9 && 0 <= j < 9 ==> cnt[i][j] == |Candidates(g, i, j)|
  {
    seq(9, i requires 0 <= i < 9 => seq(9, j requires 0 <= j < 9 => |Candidates(g, i, j)|))
  }

  /**
   * The rule among the first p cells (cell (i, j) is number 9 * i + j), for
   * counts given by a table.
   */
  ghost predicate IsFirstMinBefore(g: Field, cnt: seq<seq<int>>, p: int, x: int, y: int)
    requires WellFormed(g) && Table(cnt)
  {
    0 <= x < 9 && 0 <= y < 9 && 9 * x + y < p && g[x][y] == 0 &&
    (forall i, j :: 0 <= i < 9 && 0 <= j < 9 && 9 * i + j < p && g[i][j] == 0 ==> cnt[x][y] <= cnt[i][j]) &&
    (forall i, j :: 0 <= i < 9 && 0 <= j < 9 && 9 * i + j < 9 * x + y && g[i][j] == 0 ==> cnt[x][y] < cnt[i][j])
  }

  /** Cell numbers order cells as row-major order does, one number per cell. */
  lemma CellNumber(i: int, j: int, x: int, y: int)
    requires 0 <= i < 9 && 0 <= j < 9 && 0 <= x < 9 && 0 <= y < 9
    ensures 9 * i + j < 9 * x + y <==> Before(i, j, x, y)
    ensures 9 * i + j == 9 * x + y <==> i == x && j == y
  {
  }

  /** The count the scan compares against: 10 while no cell is chosen. */
  function BestCount(cnt: seq<seq<int>>, best: Option<(int, int)>): (m: int)
    requires Table(cnt)
    requires best.Some? ==> 0 <= best.value.0 < 9 && 0 <= best.value.1 < 9
    ensures 0 <= m <= 10
    ensures m == 10 <==> best.None?
  {
    match best
    case None => 10
    case Some((x, y)) => cnt[x][y]
  }

  /** The scan visiting cell (i, j) with best cell so far `best`. */
  function Visit(g: Field, cnt: seq<seq<int>>, best: Option<(int, int)>, i: int, j: int): (r: Option<(int, int)>)
    requires WellFormed(g) && Table(cnt) && 0 <= i < 9 && 0 <= j < 9
    requires best.Some? ==> 0 <= best.value.0 < 9 && 0 <= best.value.1 < 9
    ensures r == best || (r == Some((i, j)) && g[i][j] == 0)
    ensures BestCount(cnt, r) <= BestCount(cnt, best)
    ensures best.None? && g[i][j] == 0 ==> r == Some((i, j))
  {
    if g[i][j] == 0 && cnt[i][j] < BestCount(cnt, best) then Some((i, j)) else best
  }

  /**
   * The cell chosen once the scan has visited every cell before (i, j) in
   * row-major order; (i, 9) is the end of row i.
   */
  function ScanUpTo(g: Field, cnt: seq<seq<int>>, i: int, j: int): (best: Option<(int, int)>)
    requires WellFormed(g) && Table(cnt) && 0 <= i <= 9 && 0 <= j <= 9 && (i == 9 ==> j == 0)
    ensures best.Some? ==>
      0 <= best.value.0 < 9 && 0 <= best.value.1 < 9 && 9 * best.value.0 + best.value.1 < 9 * i + j &&
      g[best.value.0][best.value.1] == 0
    decreases 10 * i + j
  {
    if j > 0 then Visit(g, cnt, ScanUpTo(g, cnt, i, j - 1), i, j - 1)
    else if i > 0 then ScanUpTo(g, cnt, i - 1, 9)
    else None
  }

  /** The cell solveSudoku branches on; None when the field has no empty cell. */
  function Select(g: Field): (cell: Option<(int, int)>)
    requires WellFormed(g)
    ensures cell.Some? ==> 0 <= cell.value.0 < 9 && 0 <= cell.value.1 < 9 && g[cell.value.0][cell.value.1] == 0
  {
    ScanUpTo(g, Counts(g), 9, 0)
  }

  /** A scan step that keeps its cell: the new cell (i, j) is filled or has no smaller count. */
  lemma KeepStep(g: Field, cnt: seq<seq<int>>, i: int, j: int, x: int, y: int)
    requires WellFormed(g) && Table(cnt) && 0 <= i < 9 && 0 <= j < 9 && IsFirstMinBefore(g, cnt, 9 * i + j, x, y)
    requires g[i][j] == 0 ==> cnt[x][y] <= cnt[i][j]
    ensures IsFirstMinBefore(g, cnt, 9 * i + j + 1, x, y)
  {
    forall i', j' | 0 <= i' < 9 && 0 <= j' < 9 && 9 * i' + j' < 9 * i + j + 1 && g[i'][j'] == 0
      ensures cnt[x][y] <= cnt[i'][j']
    {
      CellNumber(i', j', i, j);
    }
  }

  /** A scan step that takes the new cell (i, j): it is empty and beats every empty cell before it. */
  lemma TakeStep(g: Field, cnt: seq<seq<int>>, i: int, j: int)
    requires WellFormed(g) && Table(cnt) && 0 <= i < 9 && 0 <= j < 9 && g[i][j] == 0
    requires forall i', j' :: 0 <= i' < 9 && 0 <= j' < 9 && 9 * i' + j' < 9 * i + j && g[i'][j'] == 0 ==>
      cnt[i][j] < cnt[i'][j']
    ensures IsFirstMinBefore(g, cnt, 9 * i + j + 1, i, j)
  {
    forall i', j' | 0 <= i' < 9 && 0 <= j' < 9 && 9 * i' + j' < 9 * i + j + 1 && g[i'][j'] == 0
      ensures cnt[i][j] <= cnt[i'][j']
    {
      CellNumber(i', j', i, j);
    }
  }

  /**
   * What the scan knows once it has visited every cell before (i, j): no
   * cell is chosen exactly when all those cells are filled, and a chosen
   * cell satisfies the rule among them.
   */
  ghost predicate ScanInvariant(g: Field, cnt: seq<seq<int>>, i: int, j: int)
    requires WellFormed(g) && Table(cnt) && 0 <= i <= 9 && 0 <= j <= 9 && (i == 9 ==> j == 0)
  {
    (ScanUpTo(g, cnt, i, j).None? <==>
      forall i', j' :: 0 <= i' < 9 && 0 <= j' < 9 && 9 * i' + j' < 9 * i + j ==> g[i'][j'] != 0) &&
    (ScanUpTo(g, cnt, i, j).Some? ==>
      IsFirstMinBefore(g, cnt, 9 * i + j, ScanUpTo(g, cnt, i, j).value.0, ScanUpTo(g, cnt, i, j).value.1))
  }

  /** Visiting cell (i, j - 1) keeps the scan's invariant. */
  lemma VisitKeepsInvariant(g: Field, cnt: seq<seq<int>>, i: int, j: int)
    requires WellFormed(g) && Table(cnt) && 0 <= i < 9 && 0 < j <= 9 && ScanInvariant(g, cnt, i, j - 1)
    ensures ScanInvariant(g, cnt, i, j)
  {
    var best := ScanUpTo(g, cnt, i, j - 1);
    if g[i][j - 1] == 0 && cnt[i][j - 1] < BestCount(cnt, best) {
      assert ScanUpTo(g, cnt, i, j) == Some((i, j - 1));
      TakeStep(g, cnt, i, j - 1);
    } else if best.Some? {
      assert ScanUpTo(g, cnt, i, j) == best;
      KeepStep(g, cnt, i, j - 1, best.value.0, best.value.1);
    } else {
      assert ScanUpTo(g, cnt, i, j) == None;
      forall i', j' | 0 <= i' < 9 && 0 <= j' < 9 && 9 * i' + j' < 9 * i + j
        ensures g[i'][j'] != 0
      {
        CellNumber(i', j', i, j - 1);
      }
    }
  }

  /** The end of row i - 1 is the start of row i. */
  lemma RowEndKeepsInvariant(g: Field, cnt: seq<seq<int>>, i: int)
    requires WellFormed(g) && Table(cnt) && 0 < i <= 9 && ScanInvariant(g, cnt, i - 1, 9)
    ensures ScanInvariant(g, cnt, i, 0)
  {
    assert ScanUpTo(g, cnt, i, 0) == ScanUpTo(g, cnt, i - 1, 9);
    assert 9 * i + 0 == 9 * (i - 1) + 9;
  }

  lemma {:induction false} ScanUpToIsFirstMin(g: Field, cnt: seq<seq<int>>, i: int, j: int)
    requires WellFormed(g) && Table(cnt) && 0 <= i <= 9 && 0 <= j <= 9 && (i == 9 ==> j == 0)
    ensures ScanInvariant(g, cnt, i, j)
    decreases 10 * i + j
  {
    if j > 0 {
      ScanUpToIsFirstMin(g, cnt, i, j - 1);
      VisitKeepsInvariant(g, cnt, i, j);
    } else if i > 0 {
      ScanUpToIsFirstMin(g, cnt, i - 1, 9);
      RowEndKeepsInvariant(g, cnt, i);
    } else {
      assert ScanUpTo(g, cnt, 0, 0) == None;
    }
  }

  /**
   * Select picks exactly the first empty cell with the fewest candidates,
   * and reports None exactly when no cell is empty.
   */
  lemma SelectIsFirstMin(g: Field)
    requires WellFormed(g)
    ensures Select(g).None? <==> Complete(g)
    ensures Select(g).Some? ==> IsFirstMin(g, Select(g).value.0, Select(g).value.1)
  {
    var cnt := Counts(g);
    ScanUpToIsFirstMin(g, cnt, 9, 0);
    if Select(g).Some? {
      var (x, y) := Select(g).value;
      assert IsFirstMinBefore(g, cnt, 81, x, y);
      forall i, j | 0 <= i < 9 && 0 <= j < 9 && g[i][j] == 0
        ensures |Candidates(g, x, y)| <= |Candidates(g, i, j)|
        ensures Before(i, j, x, y) ==> |Candidates(g, x, y)| < |Candidates(g, i, j)|
      {
        CellNumber(i, j, x, y);
      }
    }
  }

  /** The rule determines its cell: two cells that both satisfy it are the same cell. */
  lemma FirstMinUnique(g: Field, x: int, y: int, x': int, y': int)
    requires WellFormed(g) && IsFirstMin(g, x, y) && IsFirstMin(g, x', y')
    ensures x == x' && y == y'
  {
  }

  /**
   * The scan of solveSudoku (lines 66-105): for every empty cell compute its
   * table and count; on a strictly smaller count remember the cell and
   * rebuild the ascending list of its candidates.  minPossible stays 10 when
   * no cell is empty.
   */
  method SelectCell(field: array2<int>) returns (minPossible: int, x: int, y: int, possibleNumbers: seq<int>)
    requires field.Length0 == 9 && field.Length1 == 9 && WellFormed(Cells(field))
    ensures minPossible == 10 <==> Complete(Cells(field))
    ensures minPossible != 10 ==>
      0 <= x < 9 && 0 <= y < 9 &&
      possibleNumbers == Candidates(Cells(field), x, y) && minPossible == |possibleNumbers|
    ensures Select(Cells(field)) == if minPossible == 10 then None else Some((x, y))
    ensures minPossible != 10 ==> IsFirstMin(Cells(field), x, y)
  {
    ghost var g := Cells(field);
    ghost var cnt := Counts(g);
    possibleNumbers := [];
    minPossible := 10;
    x, y := 0, 0;
    for i := 0 to 9
      invariant ScanUpTo(g, cnt, i, 0) == if minPossible == 10 then None else Some((x, y))
      invariant minPossible != 10 ==>
        0 <= x < 9 && 0 <= y < 9 &&
        possibleNumbers == Candidates(g, x, y) && minPossible == |possibleNumbers|
    {
      for j := 0 to 9
        invariant ScanUpTo(g, cnt, i, j) == if minPossible == 10 then None else Some((x, y))
        invariant minPossible != 10 ==>
          0 <= x < 9 && 0 <= y < 9 &&
          possibleNumbers == Candidates(g, x, y) && minPossible == |possibleNumbers|
      {
        if field[i, j] == 0 {
          var numbers, possible := ScanCell(field, i, j);
          if possible < minPossible {
            minPossible := possible;
            possibleNumbers := CollectCandidates(field, i, j, numbers);
            x := i;
            y := j;
          }
        }
      }
    }
    SelectIsFirstMin(g);
  }

  /**
   * Rebuilding the list of a new minimum (solveSudoku's lines 96-99): the
   * values 1..9 still present in the cell's table, in ascending order.
   */
  method CollectCandidates(field: array2<int>, i: int, j: int, numbers: seq<bool>) returns (possibleNumbers: seq<int>)
    requires field.Length0 == 9 && field.Length1 == 9 && WellFormed(Cells(field))
    requires 0 <= i < 9 && 0 <= j < 9 && |numbers| == 10
    requires forall v :: 1 <= v <= 9 ==> (numbers[v] <==> Free(Cells(field), i, j, v))
    ensures possibleNumbers == Candidates(Cells(field), i, j)
  {
    ghost var g := Cells(field);
    possibleNumbers := [];
    for k := 1 to 10
      invariant possibleNumbers == CandidatesBelow(g, i, j, k)
    {
      if numbers[k] {
        possibleNumbers := possibleNumbers + [k];
      }
    }
  }
}

# Sudoku solver, modelled in Dafny

The program reads a Sudoku from text, one row per line: a blank is an empty cell, and a character `c` is the value `c - '0'`. It checks the shape of the field and prints it. Then it solves the field in place by backtracking.

The solver repeats three steps until the field is full or a dead end is reached:

- For every empty cell, strike the values of the cell's row, column and 3x3 box out of a 10-entry presence table. The values left are its candidates.
- Branch on the first empty cell, in row-major order, that has strictly the fewest candidates.
- Write each candidate into that cell in ascending order and recurse. Write 0 back when a branch fails.

The model has five modules:

- `SudokuField` (`field.dfy`) holds:
  - the field type, and the predicates the contracts are written in (well-formed, complete, consistent, extends);
  - the count of empty cells, which is the termination measure;
  - `checkField`.
- `CandidateScan` (`candidates.dfy`) holds the candidate computation. `Candidates` is a function; `ScanCell` is the table-based scan.
- `Selection` (`selection.dfy`) holds:
  - the full scan choosing the branching cell;
  - its functional counterpart `Select`;
  - the proof that `Select` picks the first cell with the fewest candidates.
- `Search` (`search.dfy`) holds:
  - the functional outcome of the search, `Solve`/`TryAll`, which selects the same cell and tries candidates in the same order;
  - the in-place method `SolveSudoku` on an `array2<int>`, proved to leave exactly that outcome in the array;
  - the lemmas on soundness, completeness and branch order.
- `FieldText` (`field_text.dfy`) holds `parseFile` and `printField`, over a sequence of lines, and the round trip between them.

The solver is fixed to 9x9 fields with 3x3 boxes. Every call makes one full scan of all 81 cells. It keeps no counters or statistics, and the model has none either.

## Model

| member | source | states |
|---|---|---|
| SudokuField.CheckField | sudokuSolver.cpp:26-41 | The check returns true exactly when the field has 9 rows of 9 entries, each entry in 0..10. |
| SudokuField.CheckFieldAdmitsDuplicatesAndTen | sudokuSolver.cpp:35 | The check accepts a field holding 10, which is not well formed for the solver. It also accepts a well-formed field with a repeated value in a row, which is not consistent. |
| SudokuField.CheckSolverField | sudokuSolver.cpp:35 | Corrected check: returns true exactly when the field is 9x9 with every entry in 0..9, which is the solver's precondition. |
| SudokuField.Place | sudokuSolver.cpp:113-116 | The write `field[x][y] = v`: the result has the same shape, holds v at (x, y) and equals the field everywhere else. PlaceUndo and PlaceDecreasesEmptyCount relate a write and its undo. |
| SudokuField.PlaceDecreasesEmptyCount | sudokuSolver.cpp:113-114 | Writing a nonzero value into an empty cell removes exactly one empty cell, so each recursive call has one empty cell fewer. |
| SudokuField.PlaceUndo | sudokuSolver.cpp:113-116 | Writing 0 back into the cell that was empty restores the field exactly. |
| SudokuField.EmptyCountZero | sudokuSolver.cpp:107-109 | The empty count is 0 exactly when no cell is empty. |
| CandidateScan.CandidatesBelow | sudokuSolver.cpp:97-99 | The list holds exactly the free values below the bound, strictly ascending. |
| CandidateScan.Candidates | sudokuSolver.cpp:74-99 | The candidate list holds exactly the values 1..9 that are absent from the cell's row, column and box, strictly ascending, at most nine of them. |
| CandidateScan.SameBox | sudokuSolver.cpp:84-85 | The box loop's row and column ranges cover exactly the cells in the same third of rows and of columns. |
| CandidateScan.FreeIffNoPeerHolds | sudokuSolver.cpp:79-86 | A value is free for an empty cell exactly when no peer cell (same row, column or box) holds it. |
| CandidateScan.StrikeRowAndColumn | sudokuSolver.cpp:80-83 | After the row and column loops, table entry 0 is clear, and the entry for each v in 1..9 is set exactly when v is in neither the cell's row nor its column. |
| CandidateScan.StrikeBox | sudokuSolver.cpp:84-86 | After the box loop, the entry for each v in 1..9 is set exactly when it was set before and v is not in the cell's 3x3 box. |
| CandidateScan.ScanCell | sudokuSolver.cpp:74-91 | After the strike-out loops, the table entry for each v in 1..9 is set exactly when v is free, entry 0 is clear, and the count equals the number of candidates. |
| Selection.Select | sudokuSolver.cpp:71-105 | The cell the scan over all 81 cells chooses, using each cell's candidate count. A chosen cell is in range and empty. SelectIsFirstMin proves it is the first cell with the fewest candidates. |
| Selection.BestCount | sudokuSolver.cpp:67-94 | The count the scan compares against: at most 10, and exactly 10 (the starting `minPossible`) when no cell has been chosen yet, because every count is at most 9. |
| Selection.Visit | sudokuSolver.cpp:94-104 | One step of the scan: it keeps the chosen cell or takes the visited cell, only when that cell is empty. The compared count never rises. The first empty cell visited is always taken. VisitKeepsInvariant proves the step keeps the first-minimum rule. |
| Selection.ScanUpTo | sudokuSolver.cpp:71-105 | A cell the scan has chosen by a given position lies before that position and is empty. |
| Selection.ScanUpToIsFirstMin | sudokuSolver.cpp:71-105 | Partway through the scan, for any table of counts, no cell is chosen exactly when every cell scanned so far is filled. Otherwise the chosen cell has the smallest count so far, and every earlier empty cell has strictly more. |
| Selection.SelectIsFirstMin | sudokuSolver.cpp:71-109 | The scan chooses no cell exactly when the field is complete. Otherwise it chooses an empty cell with the fewest candidates of all, and every empty cell before it has strictly more (ties go to the earliest cell). |
| Selection.FirstMinUnique | sudokuSolver.cpp:94 | The selection rule determines a single cell. |
| Selection.SelectCell | sudokuSolver.cpp:66-105 | The minimum stays 10 exactly when the field is complete. Otherwise (x, y) is the cell `Select` picks and satisfies the rule above, `possibleNumbers` is its ascending candidate list, and the minimum is its length. |
| Selection.CollectCandidates | sudokuSolver.cpp:96-99 | The rebuilt list is exactly the ascending candidate list of the cell whose table it reads. |
| Selection.Counts | sudokuSolver.cpp:89-91 | The count table holds each cell's number of candidates, each at most 9. |
| Search.PlaceFreeKeepsConsistent | sudokuSolver.cpp:112-113 | Writing a candidate into an empty cell keeps a consistent field consistent. |
| Search.SolveSound | sudokuSolver.cpp:107-117 | When the search succeeds, its field is well formed and complete, keeps every given, and is consistent when the input was. |
| Search.TryAllSound | sudokuSolver.cpp:112-117 | The same for the candidate loop, given candidates that are free for the cell. |
| Search.BranchSound | sudokuSolver.cpp:112-115 | A branch that places a free value and succeeds yields a solution of the field before the placement. |
| Search.SolutionValueIsCandidate | sudokuSolver.cpp:97-99 | The value any solution holds in an empty cell is among that cell's candidates, and the solution still solves the field with that value placed. |
| Search.TryAllReaches | sudokuSolver.cpp:112-115 | If some listed candidate's branch succeeds, the candidate loop succeeds. |
| Search.SolveComplete | sudokuSolver.cpp:60-120 | If some complete consistent field keeps the givens, the search succeeds. |
| Search.SolveDecidesSolvable | sudokuSolver.cpp:108-119 | Failure means no solution keeps the givens. For a consistent field, success happens exactly when a solution exists. |
| Search.CompleteIsSolved | sudokuSolver.cpp:107-109 | A field with no empty cell is returned unchanged as solved. |
| Search.DeadCellFails | sudokuSolver.cpp:94-119 | An empty cell with no candidates makes the search fail. |
| Search.TryAllFirstSuccess | sudokuSolver.cpp:112-117 | Candidates whose branches fail are passed over. The first candidate whose branch succeeds gives the result. If all fail, the loop fails. |
| Search.Solve | sudokuSolver.cpp:60-120 | Reference definition of solveSudoku's outcome. A field with no empty cell is its own solution. Otherwise the result is what `TryAll` gives for the cell `Select` picks and that cell's candidates. SolveSound, SolveComplete and SolveDecidesSolvable state what it means. |
| Search.TryAll | sudokuSolver.cpp:112-119 | Reference definition of the candidate loop: place each candidate in order and keep the first branch that succeeds. Fails once the list is exhausted. It is unfolded one step by the helper lemmas TryAllStep (first candidate) and TryAllSuffixStep (candidate k). TryAllFirstSuccess and TryAllSound state what it means. |
| Search.SolveSudoku | sudokuSolver.cpp:60-120 | Returns true exactly when `Solve` succeeds on the entry field. On true, the array holds that solution: complete, keeping every given, consistent when the input was. On false, the array is the entry field cell for cell, and no solution keeps its givens. |
| Search.TryCandidates | sudokuSolver.cpp:112-119 | Returns true exactly when some candidate's branch succeeds, and the array then holds the first successful branch's solution. On false, the array is as on entry. |
| Search.Branch | sudokuSolver.cpp:113-116 | Writes v into the empty cell and recurses. On success the array holds the solution of the field with v placed. On failure 0 is written back and the array is as on entry. |
| FieldText.CellValue | sudokuSolver.cpp:15-18 | The value stored for one character: 0 for a blank, otherwise the character's code minus that of '0'. DigitChar and the round-trip lemmas state how it inverts printing. |
| FieldText.ParsedRow | sudokuSolver.cpp:13-20 | The row built from one line: exactly one cell per character, each that character's value. |
| FieldText.ParsedField | sudokuSolver.cpp:12-21 | The parsed field: one row per line, for the first min(lines, 9) lines. |
| FieldText.DigitChar | sudokuSolver.cpp:18 | The character of a digit reads back as that digit. |
| FieldText.ParseFile | sudokuSolver.cpp:8-24 | Returns min(lines, 9) rows. Row i has one entry per character of line i, each the value of that character. |
| FieldText.NatText | sudokuSolver.cpp:49 | Decimal text of a number: nonempty, all digits, one character exactly when the number is below 10, and starting with '0' only for 0 itself (no leading zeros). |
| FieldText.NatTextValue | sudokuSolver.cpp:49 | The decimal text reads back as the number it was written from. |
| FieldText.IntText | sudokuSolver.cpp:49 | The text of a number reads back as that number. A non-negative number is all digits. A negative number is '-' followed by digits that read back as its absolute value. There are no leading zeros. |
| FieldText.CellText | sudokuSolver.cpp:46-49 | What is written for one cell: a blank for 0, otherwise the number's text. DigitCellText proves this is one character for 0..9. |
| FieldText.RowText | sudokuSolver.cpp:45-50 | The text of a row: its cells' texts in order. DigitRowText and RowRoundTrip state its length, its characters and how it parses back. |
| FieldText.FieldLines | sudokuSolver.cpp:43-53 | The lines printField writes: one per row, each the row's text. PrintParseRoundTrip and WellFormedPrintsNineByNine state how they parse back and their shape. |
| FieldText.PrintField | sudokuSolver.cpp:43-53 | One line per row. Each line is the row's cells in order: a blank for 0, the number otherwise. The result is `FieldLines` of the field, so the round-trip lemmas apply to it. |
| FieldText.PrintRow | sudokuSolver.cpp:45-50 | The line written for a row is the row's text: each cell as a blank for 0, or as its number. |
| FieldText.DigitRowText | sudokuSolver.cpp:44-51 | A row of values 0..9 prints as one character per cell: a blank or the digit. |
| FieldText.RowRoundTrip | sudokuSolver.cpp:14-18 | Parsing a printed row of values 0..9 gives the row back. |
| FieldText.PrintParseRoundTrip | sudokuSolver.cpp:43-53 | Parsing the lines printField writes gives back any field of at most nine rows with values in 0..9, which includes every well-formed field. |
| FieldText.WellFormedPrintsNineByNine | sudokuSolver.cpp:43-53 | A well-formed field prints as nine lines of nine characters, each a blank or 1..9. |
| FieldText.TenDoesNotRoundTrip | sudokuSolver.cpp:49 | A cell holding 10 prints as "10", which parses back as the two cells 1 and 0. |

## Findings

| source | as written | input that shows it | evidently intended | confidence | as-written member | corrected member |
|---|---|---|---|---|---|---|
| sudokuSolver.cpp:35 | entries are rejected only above 10 | `AdmittedField()`: a 9x9 field whose last cell is 10 passes the check. The solver would then index entry 10 of its 10-entry table: first at line 83, where the empty cell (0, 8) scans column 8 and reads the 10 at (8, 8), and again at lines 81 and 86. | reject every entry above 9 | medium, not executed | SudokuField.CheckFieldAdmitsDuplicatesAndTen | SudokuField.CheckSolverField |

## Left out

- `main` (sudokuSolver.cpp:122-151) is not modelled: argument handling, opening the file, the messages, and timing the search with a clock are I/O. It also calls the solver even when `checkField` fails.
- `operator<<` (sudokuSolver.cpp:55-58) only forwards to `printField`.
- Streams are modelled as their sequence of lines with the terminators already removed. The last line `getline` reads but does not use, when there are more than nine, is not modelled. Neither is the flush of `std::endl`.
- FieldText.CellValue: a character is its Unicode code point. The source reads bytes: its `char` may be signed, so a byte at or above 0x80 gives a different value.
- FieldText.ParseFile: the model makes one cell per character. The source makes one cell per byte, so a non-ASCII character in UTF-8 becomes several cells there. The model's "one entry per character" matches the source only for ASCII lines.
- Search.SolveSudoku: the model requires exactly 9 rows of 9 cells, each in 0..9. This is stronger than what the source needs, in two ways:
  - The source reads only `field[0..8][0..8]` (sudokuSolver.cpp:71-72, 80-86). A field with more rows, or with longer rows, is solved on its top-left 9x9 and the rest is left alone. `parseFile` produces such rows, for example from a line with a trailing blank or a `'\r'`.
  - A value outside 0..9 indexes past the 10-entry table only when it lies in the row, column or box of an empty cell (sudokuSolver.cpp:81, 83, 86). Elsewhere it is harmless; a complete field holding 10 returns true at line 109.
  - The model describes neither case. Its precondition keeps every table access in range wherever the empty cells are.
- The commented-out debug output (sudokuSolver.cpp:76-77) and the `allNumbers` template vector are not modelled separately. Each scan starts from the table they describe.
- The uninitialised `x` and `y` (sudokuSolver.cpp:68) start at 0 in the model. They are read only after a cell has been chosen.
- Recursion depth and stack use are not modelled.


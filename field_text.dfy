/**
 * The text form of a field: parseFile reads it line by line, printField
 * writes it back.  A line holds one row, a blank for an empty cell and a
 * character c for the value c - '0'.  A stream is modelled as the sequence
 * of its lines, without their line terminators.
 */
module FieldText {
  import opened SudokuField

  /** The value parseFile stores for one character of a line. */
  function CellValue(ch: char): int
  {
    if ch == ' ' then 0 else ch as int - '0' as int
  }

  /** The character of a digit 0..9. */
  function DigitChar(d: int): (ch: char)
    requires 0 <= d <= 9
    ensures '0' <= ch <= '9' && CellValue(ch) == d
  {
    ('0' as int + d) as char
  }

  /** The row parseFile builds from one line: one cell per character. */
  function ParsedRow(line: string): (row: seq<int>)
    ensures |row| == |line|
    ensures forall k :: 0 <= k < |line| ==> row[k] == CellValue(line[k])
  {
    seq(|line|, k requires 0 <= k < |line| => CellValue(line[k]))
  }

  /** The field parseFile returns: one row per line, at most nine rows. */
  function ParsedField(lines: seq<string>): (g: Field)
    ensures |g| == if |lines| < 9 then |lines| else 9
    ensures forall i :: 0 <= i < |g| ==> g[i] == ParsedRow(lines[i])
  {
    var n := if |lines| < 9 then |lines| else 9;
    seq(n, i requires 0 <= i < n => ParsedRow(lines[i]))
  }

  /**
   * parseFile: read lines while there are lines and fewer than nine rows,
   * turning each character of a line into a cell.
   */
  method ParseFile(lines: seq<string>) returns (result: Field)
    ensures |result| == if |lines| < 9 then |lines| else 9
    ensures forall i :: 0 <= i < |result| ==>
      |result[i]| == |lines[i]| && forall k :: 0 <= k < |lines[i]| ==> result[i][k] == CellValue(lines[i][k])
    ensures result == ParsedField(lines)
  {
    result := [];
    var n := 0;
    while n < |lines| && |result| < 9
      invariant n == |result| <= 9 && n <= |lines|
      invariant forall i :: 0 <= i < n ==> result[i] == ParsedRow(lines[i])
    {
      var line := lines[n];
      n := n + 1;
      var v := [];
      for k := 0 to |line|
        invariant |v| == k
        invariant forall k' :: 0 <= k' < k ==> v[k'] == CellValue(line[k'])
      {
        if line[k] == ' ' {
          v := v + [0];
        } else {
          v := v + [line[k] as int - '0' as int];
        }
      }
      result := result + [v];
    }
  }

  /** Decimal text of a natural number, most significant digit first. */
  function NatText(n: nat): (s: string)
    ensures |s| >= 1
    ensures forall k :: 0 <= k < |s| ==> '0' <= s[k] <= '9'
    ensures |s| == 1 <==> n < 10
    ensures s[0] == '0' <==> n == 0
    decreases n
  {
    if n < 10 then [DigitChar(n)] else NatText(n / 10) + [DigitChar(n % 10)]
  }

  /** The number a string of digits denotes. */
  function DecimalValue(s: string): int
  {
    if s == [] then 0 else 10 * DecimalValue(s[..|s| - 1]) + CellValue(s[|s| - 1])
  }

  /** The decimal text reads back as the number it was written from. */
  lemma {:induction false} NatTextValue(n: nat)
    ensures DecimalValue(NatText(n)) == n
    decreases n
  {
    if n >= 10 {
      var s := NatText(n);
      assert s[..|s| - 1] == NatText(n / 10);
      NatTextValue(n / 10);
    }
  }

  /**
   * How `os << i` writes an int: its decimal digits, after a minus sign
   * when it is negative.
   */
  function IntText(i: int): (s: string)
    ensures i >= 0 ==> |s| >= 1 && (forall k :: 0 <= k < |s| ==> '0' <= s[k] <= '9') && DecimalValue(s) == i
    ensures i >= 0 ==> (s[0] == '0' <==> i == 0)
    ensures i < 0 ==>
      |s| >= 2 && s[0] == '-' && (forall k :: 1 <= k < |s| ==> '0' <= s[k] <= '9') && DecimalValue(s[1..]) == -i
    ensures i < 0 ==> s[1] != '0'
  {
    if i < 0 then
      NatTextValue(-i);
      var s := "-" + NatText(-i);
      assert s[1..] == NatText(-i);
      s
    else
      NatTextValue(i);
      NatText(i)
  }

  /** What printField writes for one cell: a blank for 0, otherwise the number. */
  function CellText(i: int): string
  {
    if i == 0 then " " else IntText(i)
  }

  /** The line printField writes for a row. */
  function RowText(row: seq<int>): string
  {
    if row == [] then "" else RowText(row[..|row| - 1]) + CellText(row[|row| - 1])
  }

  /** The lines printField writes for a field, one per row. */
  function FieldLines(g: Field): (lines: seq<string>)
    ensures |lines| == |g|
    ensures forall i :: 0 <= i < |g| ==> lines[i] == RowText(g[i])
  {
    seq(|g|, i requires 0 <= i < |g| => RowText(g[i]))
  }

  /**
   * printField: for every row, write the row's cells and end the line.
   */
  method PrintField(field: Field) returns (lines: seq<string>)
    ensures |lines| == |field|
    ensures forall i :: 0 <= i < |field| ==> lines[i] == RowText(field[i])
    ensures lines == FieldLines(field)
  {
    lines := [];
    for r := 0 to |field|
      invariant |lines| == r
      invariant forall i :: 0 <= i < r ==> lines[i] == RowText(field[i])
    {
      var line := PrintRow(field[r]);
      lines := lines + [line];
    }
  }

  /** The inner loop of printField: a blank for 0, the number otherwise, cell after cell. */
  method PrintRow(v: seq<int>) returns (line: string)
    ensures line == RowText(v)
  {
    line := "";
    for c := 0 to |v|
      invariant line == RowText(v[..c])
    {
      RowTextExtend(v, c);
      if v[c] == 0 {
        line := line + " ";
      } else {
        line := line + IntText(v[c]);
      }
    }
    assert v[..|v|] == v;
  }

  /** A row of digits 0..9 prints as one character per cell: blank or the digit. */
  lemma {:induction false} DigitRowText(row: seq<int>)
    requires forall k :: 0 <= k < |row| ==> 0 <= row[k] <= 9
    ensures |RowText(row)| == |row|
    ensures forall k :: 0 <= k < |row| ==>
      RowText(row)[k] == (if row[k] == 0 then ' ' else DigitChar(row[k]))
    decreases |row|
  {
    if row != [] {
      var n := |row| - 1;
      DigitRowText(row[..n]);
      DigitCellText(row[n]);
      var prefix := RowText(row[..n]);
      assert RowText(row) == prefix + CellText(row[n]);
      forall k | 0 <= k < n
        ensures RowText(row)[k] == (if row[k] == 0 then ' ' else DigitChar(row[k]))
      {
        assert row[..n][k] == row[k];
      }
    }
  }

  /** A digit 0..9 prints as one character: a blank or the digit. */
  lemma DigitCellText(d: int)
    requires 0 <= d <= 9
    ensures CellText(d) == [if d == 0 then ' ' else DigitChar(d)]
  {
    if d != 0 {
      assert NatText(d) == [DigitChar(d)];
    }
  }

  /** The text of one more cell of a row is appended to the text of the cells before it. */
  lemma RowTextExtend(row: seq<int>, c: int)
    requires 0 <= c < |row|
    ensures RowText(row[..c + 1]) == RowText(row[..c]) + CellText(row[c])
  {
    assert row[..c + 1][..c] == row[..c];
  }

  /** Parsing a printed row of digits gives the row back. */
  lemma RowRoundTrip(row: seq<int>)
    requires forall k :: 0 <= k < |row| ==> 0 <= row[k] <= 9
    ensures ParsedRow(RowText(row)) == row
  {
    DigitRowText(row);
  }

  /**
   * Parsing what printField writes gives the field back, for a field of
   * at most nine rows with every cell in 0..9 (in particular every
   * well-formed field, and so every solved one).
   */
  lemma PrintParseRoundTrip(g: Field)
    requires |g| <= 9
    requires forall r, c :: 0 <= r < |g| && 0 <= c < |g[r]| ==> 0 <= g[r][c] <= 9
    ensures ParsedField(FieldLines(g)) == g
  {
    forall r | 0 <= r < |g| ensures ParsedRow(RowText(g[r])) == g[r] {
      RowRoundTrip(g[r]);
    }
  }

  /** A well-formed field prints as nine lines of nine characters, each a blank or 1..9. */
  lemma WellFormedPrintsNineByNine(g: Field)
    requires WellFormed(g)
    ensures |FieldLines(g)| == 9
    ensures forall r :: 0 <= r < 9 ==> |FieldLines(g)[r]| == 9
    ensures forall r, c :: 0 <= r < 9 && 0 <= c < 9 ==>
      FieldLines(g)[r][c] == ' ' || '1' <= FieldLines(g)[r][c] <= '9'
  {
    forall r | 0 <= r < 9
      ensures |RowText(g[r])| == 9
      ensures forall c :: 0 <= c < 9 ==> RowText(g[r])[c] == ' ' || '1' <= RowText(g[r])[c] <= '9'
    {
      DigitRowText(g[r]);
    }
  }

  /** A cell holding 10, which the shape check admits, prints as two characters and reads back as two cells. */
  lemma TenDoesNotRoundTrip()
    ensures RowText([10]) == "10"
    ensures ParsedRow(RowText([10])) == [1, 0]
  {
    assert NatText(1) == "1";
    assert NatText(10) == "10";
    assert RowText([10]) == RowText([]) + CellText(10);
  }
}

/**
 * Day 6: a worksheet of arithmetic problems laid out in columns.  Part 1 reads
 * whitespace-separated tokens and treats each token column as one problem,
 * its last token being the operator; part 2 reads the digits of each
 * character column top to bottom as one number, groups numbers between blank
 * columns, and pairs the groups with the operators of the last line.
 */
module Day06 {
  import opened Base
  import opened Text

  // ---------------------------------------------------------------------------
  // Operators
  // ---------------------------------------------------------------------------

  /** `+` sums the numbers; every other operator multiplies them (the empty product is 1). */
  function Apply(op: string, vals: seq<int>): int
  {
    if op == "+" then Sum(vals) else Product(vals)
  }

  /** The operator branch both parts share: `sum(...)`, or a running product. */
  method Evaluate(op: string, vals: seq<int>) returns (r: int)
    ensures r == Apply(op, vals)
    ensures op != "+" && vals == [] ==> r == 1
  {
    if op == "+" {
      r := Sum(vals);
    } else {
      r := 1;
      for k := 0 to |vals|
        invariant r == Product(vals[..k])
      {
        assert vals[..k + 1][..k] == vals[..k];
        r := r * vals[k];
      }
      assert vals[..|vals|] == vals;
    }
  }

  // ---------------------------------------------------------------------------
  // Part 1: token columns
  // ---------------------------------------------------------------------------

  /** `int(val)` for the tokens the comprehension admits: digits, or '-' followed by digits. */
  function Operand(tok: string): Option<int>
  {
    if IsDigits(tok) then Some(DigitsValue(tok))
    else if |tok| > 0 && tok[0] == '-' && IsDigits(tok[1..]) then Some(-(DigitsValue(tok[1..]) as int))
    else None
  }

  /** The integer-looking tokens of `toks`, in order, as integers. */
  function Operands(toks: seq<string>): seq<int>
  {
    if toks == [] then []
    else
      match Operand(toks[|toks| - 1])
      case Some(v) => Operands(toks[..|toks| - 1]) + [v]
      case None => Operands(toks[..|toks| - 1])
  }

  /** Python's `str(n)` for any integer. */
  function IntToString(n: int): string
  {
    if n < 0 then "-" + NatToString(-n) else NatToString(n)
  }

  /** Every printed integer is admitted as an operand and read back unchanged. */
  lemma OperandOfInt(n: int)
    ensures Operand(IntToString(n)) == Some(n)
  {
    if n < 0 {
      NatToStringValue(-n);
      var s := IntToString(n);
      assert s[1..] == NatToString(-n);
      assert !IsDigit(s[0]);
    } else {
      NatToStringValue(n);
    }
  }

  /** An admitted token is one `int()` accepts, with the same value: the comprehension never raises. */
  lemma OperandIsInt(tok: string)
    requires Operand(tok).Some?
    ensures ParseInt(tok) == Operand(tok)
  {
    if IsDigits(tok) {
      ParseIntDigits(tok);
    } else {
      assert tok == "-" + tok[1..];
      assert !IsSpace(tok[0]) && IsDigit(tok[|tok| - 1]) && !IsSpace(tok[|tok| - 1]);
      assert StripLeft(tok, Whitespace) == tok;
      assert StripRight(tok, Whitespace) == tok;
    }
  }

  /** The token grid: `line.split()` for every line. */
  function WordGrid(lines: seq<string>): seq<seq<string>>
  {
    seq(|lines|, i requires 0 <= i < |lines| => Words(lines[i]))
  }

  /** Column `j` of the first `n` rows, skipping rows too short to have one. */
  function Column(grid: seq<seq<string>>, j: nat, n: nat): seq<string>
    requires n <= |grid|
  {
    if n == 0 then []
    else Column(grid, j, n - 1) + (if j < |grid[n - 1]| then [grid[n - 1][j]] else [])
  }

  /** The transposed grid: one column per token of the first row. */
  function Transpose(grid: seq<seq<string>>): seq<seq<string>>
    requires |grid| > 0
  {
    seq(|grid[0]|, j requires 0 <= j < |grid[0]| => Column(grid, j, |grid|))
  }

  /** A column never has more entries than there are rows. */
  lemma {:induction false} ColumnLength(grid: seq<seq<string>>, j: nat, n: nat)
    requires n <= |grid|
    ensures |Column(grid, j, n)| <= n
  {
    if n > 0 {
      ColumnLength(grid, j, n - 1);
    }
  }

  /** Where every row is long enough, column `j` lists `grid[i][j]` for every row in order. */
  lemma {:induction false} ColumnOfFullRows(grid: seq<seq<string>>, j: nat, n: nat)
    requires n <= |grid| && forall i :: 0 <= i < n ==> j < |grid[i]|
    ensures |Column(grid, j, n)| == n
    ensures forall i :: 0 <= i < n ==> Column(grid, j, n)[i] == grid[i][j]
  {
    if n > 0 {
      ColumnOfFullRows(grid, j, n - 1);
    }
  }

  /** The transposition loops of part 1: column `j` collects `row[j]` of every row long enough. */
  method Transposed(valuesGrid: seq<seq<string>>) returns (transposed: seq<seq<string>>)
    requires |valuesGrid| > 0
    ensures transposed == Transpose(valuesGrid)
  {
    var numCols := |valuesGrid[0]|;
    var numRows := |valuesGrid|;
    transposed := [];
    for j := 0 to numCols
      invariant |transposed| == j && forall jj :: 0 <= jj < j ==> transposed[jj] == Column(valuesGrid, jj, numRows)
    {
      var columnValues: seq<string> := [];
      for i := 0 to numRows
        invariant columnValues == Column(valuesGrid, j, i)
      {
        if j < |valuesGrid[i]| {
          columnValues := columnValues + [valuesGrid[i][j]];
        }
      }
      transposed := transposed + [columnValues];
    }
  }

  /** One problem: the last token is the operator, the admitted tokens before it are the operands. */
  function ColumnValue(col: seq<string>): int
  {
    if col == [] then 0 else Apply(col[|col| - 1], Operands(col[..|col| - 1]))
  }

  function ColumnsTotal(cols: seq<seq<string>>): int
  {
    if cols == [] then 0 else ColumnsTotal(cols[..|cols| - 1]) + ColumnValue(cols[|cols| - 1])
  }

  /**
   * Part 1: the sum over the transposed token columns of each column's value;
   * no answer when there is no line or the first line has no token.
   */
  method Part1(lines: seq<string>) returns (answer: Option<int>)
    ensures answer == None <==> lines == [] || Words(lines[0]) == []
    ensures answer.Some? ==> answer.value == ColumnsTotal(Transpose(WordGrid(lines)))
  {
    var valuesGrid: seq<seq<string>> := [];
    for k := 0 to |lines|
      invariant |valuesGrid| == k && forall i :: 0 <= i < k ==> valuesGrid[i] == Words(lines[i])
    {
      valuesGrid := valuesGrid + [Words(lines[k])];
    }
    assert valuesGrid == WordGrid(lines);
    if valuesGrid == [] || valuesGrid[0] == [] {
      return None;
    }
    var transposed := Transposed(valuesGrid);
    var output := 0;
    for k := 0 to |transposed|
      invariant output == ColumnsTotal(transposed[..k])
    {
      assert transposed[..k + 1][..k] == transposed[..k];
      var row := transposed[k];
      if row == [] {
        continue;
      }
      var operator := row[|row| - 1];
      var operands := Operands(row[..|row| - 1]);
      var current := Evaluate(operator, operands);
      output := output + current;
    }
    assert transposed[..|transposed|] == transposed;
    answer := Some(output);
  }

  // ---------------------------------------------------------------------------
  // Part 2: character columns
  // ---------------------------------------------------------------------------

  /** Column `j` of the first `n` number lines read top to bottom, a space where a line is too short. */
  function ColumnChars(rows: seq<string>, j: nat, n: nat): string
    requires n <= |rows|
  {
    if n == 0 then ""
    else ColumnChars(rows, j, n - 1) + [if j < |rows[n - 1]| then rows[n - 1][j] else ' ']
  }

  /** The column string has one character per line: the line's own, or a space. */
  lemma {:induction false} ColumnCharsAt(rows: seq<string>, j: nat, n: nat)
    requires n <= |rows|
    ensures |ColumnChars(rows, j, n)| == n
    ensures forall i :: 0 <= i < n ==> ColumnChars(rows, j, n)[i] == if j < |rows[i]| then rows[i][j] else ' '
  {
    if n > 0 {
      ColumnCharsAt(rows, j, n - 1);
    }
  }

  /** The inner loop of part 2: one character per number line, a space past a line's end. */
  method ColumnString(numberLines: seq<string>, j: nat) returns (charList: string)
    ensures charList == ColumnChars(numberLines, j, |numberLines|)
  {
    charList := "";
    for i := 0 to |numberLines|
      invariant charList == ColumnChars(numberLines, j, i)
    {
      if j < |numberLines[i]| {
        charList := charList + [numberLines[i][j]];
      } else {
        charList := charList + [' '];
      }
    }
  }

  /** The longest line length, 0 for no lines. */
  function MaxLen(rows: seq<string>): (m: nat)
    ensures forall i :: 0 <= i < |rows| ==> |rows[i]| <= m
    ensures rows != [] ==> exists i :: 0 <= i < |rows| && |rows[i]| == m
  {
    if rows == [] then 0
    else
      var m := MaxLen(rows[..|rows| - 1]);
      assert forall i :: 0 <= i < |rows| - 1 ==> rows[i] == rows[..|rows| - 1][i];
      if |rows[|rows| - 1]| > m then |rows[|rows| - 1]| else m
  }

  /** Every character column of the number lines, left to right. */
  function Columns(rows: seq<string>): seq<string>
  {
    seq(MaxLen(rows), j requires 0 <= j < MaxLen(rows) => ColumnChars(rows, j, |rows|))
  }

  /** A column that closes the current group: whitespace only. */
  predicate Blank(col: string)
  {
    Strip(col) == ""
  }

  /** `int("".join(col.split()))`: the column's characters with whitespace removed. */
  function ColumnNumber(col: string): Option<int>
  {
    ParseInt(Concat(Words(col)))
  }

  /** A blank column never yields a number. */
  lemma BlankHasNoNumber(col: string)
    requires Blank(col)
    ensures ColumnNumber(col).None?
  {
    StripBlank(col);
    WordsEmpty(col);
    ParseIntEmpty();
  }

  /** The finished groups and the group being built. */
  datatype Grouping = Grouping(closed: seq<seq<int>>, open: seq<int>)

  const Start := Grouping([], [])

  /** One column of the grouping loop. */
  function GroupStep(g: Grouping, col: string): Grouping
  {
    if Blank(col) then
      if g.open != [] then Grouping(g.closed + [g.open], []) else g
    else
      match ColumnNumber(col)
      case Some(n) => Grouping(g.closed, g.open + [n])
      case None => g
  }

  function GroupFold(g: Grouping, cols: seq<string>): Grouping
  {
    if cols == [] then g else GroupStep(GroupFold(g, cols[..|cols| - 1]), cols[|cols| - 1])
  }

  /** The groups: the closed ones, then the last one if it is non-empty. */
  function Groups(cols: seq<string>): seq<seq<int>>
  {
    var g := GroupFold(Start, cols);
    g.closed + (if g.open != [] then [g.open] else [])
  }

  /** Every value a column yields, in order (blank columns yield none). */
  function Numbers(cols: seq<string>): seq<int>
  {
    if cols == [] then []
    else
      match ColumnNumber(cols[|cols| - 1])
      case Some(n) => Numbers(cols[..|cols| - 1]) + [n]
      case None => Numbers(cols[..|cols| - 1])
  }

  function Flatten(groups: seq<seq<int>>): seq<int>
  {
    if groups == [] then [] else Flatten(groups[..|groups| - 1]) + groups[|groups| - 1]
  }


  lemma FlattenOne(a: seq<seq<int>>, x: seq<int>)
    ensures Flatten(a + [x]) == Flatten(a) + x
  {
    assert (a + [x])[..|a|] == a;
  }

  lemma {:induction false} GroupFoldFlatten(g: Grouping, cols: seq<string>)
    ensures Flatten(GroupFold(g, cols).closed) + GroupFold(g, cols).open == Flatten(g.closed) + g.open + Numbers(cols)
  {
    if cols != [] {
      var init := cols[..|cols| - 1];
      var col := cols[|cols| - 1];
      GroupFoldFlatten(g, init);
      var h := GroupFold(g, init);
      assert GroupFold(g, cols) == GroupStep(h, col);
      if Blank(col) {
        BlankHasNoNumber(col);
        assert Numbers(cols) == Numbers(init);
        if h.open != [] {
          FlattenOne(h.closed, h.open);
        }
      } else if ColumnNumber(col).Some? {
        var n := ColumnNumber(col).value;
        assert Numbers(cols) == Numbers(init) + [n];
        assert GroupFold(g, cols) == Grouping(h.closed, h.open + [n]);
        assert Flatten(h.closed) + (h.open + [n]) == (Flatten(h.closed) + h.open) + [n];
      } else {
        assert Numbers(cols) == Numbers(init);
        assert GroupFold(g, cols) == h;
      }
    }
  }

  /** Grouping neither loses nor invents a number: the groups concatenate to every column's value. */
  lemma GroupsKeepNumbers(cols: seq<string>)
    ensures Flatten(Groups(cols)) == Numbers(cols)
  {
    var g := GroupFold(Start, cols);
    GroupFoldFlatten(Start, cols);
    assert Flatten(g.closed) + g.open == Numbers(cols);
    if g.open != [] {
      FlattenOne(g.closed, g.open);
    } else {
      assert Groups(cols) == g.closed;
    }
  }

  lemma {:induction false} GroupFoldNonEmpty(g: Grouping, cols: seq<string>)
    requires forall k :: 0 <= k < |g.closed| ==> g.closed[k] != []
    ensures forall k :: 0 <= k < |GroupFold(g, cols).closed| ==> GroupFold(g, cols).closed[k] != []
  {
    if cols != [] {
      GroupFoldNonEmpty(g, cols[..|cols| - 1]);
    }
  }

  /** Only non-empty groups are kept, the final one included. */
  lemma GroupsNonEmpty(cols: seq<string>)
    ensures forall k :: 0 <= k < |Groups(cols)| ==> Groups(cols)[k] != []
  {
    GroupFoldNonEmpty(Start, cols);
  }

  lemma {:induction false} GroupFoldAppend(g: Grouping, a: seq<string>, b: seq<string>)
    ensures GroupFold(g, a + b) == GroupFold(GroupFold(g, a), b)
    decreases |b|
  {
    if b == [] {
      assert a + b == a;
    } else {
      assert (a + b)[..|a + b| - 1] == a + b[..|b| - 1];
      GroupFoldAppend(g, a, b[..|b| - 1]);
    }
  }

  /** Closed groups already present pass through the fold untouched. */
  lemma {:induction false} GroupFoldPrefix(closed: seq<seq<int>>, open: seq<int>, cols: seq<string>)
    ensures GroupFold(Grouping(closed, open), cols).closed == closed + GroupFold(Grouping([], open), cols).closed
    ensures GroupFold(Grouping(closed, open), cols).open == GroupFold(Grouping([], open), cols).open
  {
    if cols != [] {
      GroupFoldPrefix(closed, open, cols[..|cols| - 1]);
    }
  }

  /** A blank column separates: the groups on each side are formed independently. */
  lemma GroupsSplitAtBlank(a: seq<string>, col: string, b: seq<string>)
    requires Blank(col)
    ensures Groups(a + [col] + b) == Groups(a) + Groups(b)
  {
    GroupFoldAppend(Start, a + [col], b);
    assert (a + [col])[..|a + [col]| - 1] == a;
    var g := GroupFold(Start, a + [col]);
    assert g == Grouping(Groups(a), []);
    GroupFoldPrefix(Groups(a), [], b);
  }

  /** Without blank columns there is at most one group. */
  lemma {:induction false} NoBlankOneGroup(cols: seq<string>)
    requires forall k :: 0 <= k < |cols| ==> !Blank(cols[k])
    ensures GroupFold(Start, cols).closed == []
    ensures |Groups(cols)| <= 1
  {
    if cols != [] {
      NoBlankOneGroup(cols[..|cols| - 1]);
    }
  }

  /** The first `n` groups paired with the first `n` commands. */
  function PairedTotal(groups: seq<seq<int>>, commands: seq<string>, n: nat): int
    requires n <= |groups| && n <= |commands|
  {
    if n == 0 then 0 else PairedTotal(groups, commands, n - 1) + Apply(commands[n - 1], groups[n - 1])
  }

  function Min(a: nat, b: nat): nat
  {
    if a <= b then a else b
  }

  /** Extra groups or extra commands are ignored. */
  lemma {:induction false} PairedTotalIgnoresExtra(groups: seq<seq<int>>, commands: seq<string>, n: nat)
    requires n <= |groups| && n <= |commands|
    ensures PairedTotal(groups, commands, n) == PairedTotal(groups[..n], commands[..n], n)
  {
    if n > 0 {
      PairedTotalPrefix(groups, commands, n - 1, n);
    }
  }

  lemma {:induction false} PairedTotalPrefix(groups: seq<seq<int>>, commands: seq<string>, k: nat, n: nat)
    requires k <= n <= |groups| && n <= |commands|
    ensures PairedTotal(groups, commands, k) == PairedTotal(groups[..n], commands[..n], k)
  {
    if k > 0 {
      PairedTotalPrefix(groups, commands, k - 1, n);
    }
  }

  /**
   * Part 2: needs at least two lines; the last line's tokens are the commands,
   * the other lines hold the digits.
   */
  method Part2(lines: seq<string>) returns (answer: Option<int>)
    ensures answer == None <==> |lines| < 2
    ensures answer.Some? ==>
      var numberLines := lines[..|lines| - 1];
      var commands := Words(lines[|lines| - 1]);
      var groups := Groups(Columns(numberLines));
      answer.value == PairedTotal(groups, commands, Min(|groups|, |commands|))
  {
    if |lines| < 2 {
      return None;
    }
    var commands := Words(lines[|lines| - 1]);
    var numberLines := lines[..|lines| - 1];
    var maxColLen := MaxLen(numberLines);
    ghost var cols := Columns(numberLines);
    var transposedGroups: seq<seq<int>> := [];
    var currNumsGroup: seq<int> := [];
    for j := 0 to maxColLen
      invariant Grouping(transposedGroups, currNumsGroup) == GroupFold(Start, cols[..j])
    {
      var charList := ColumnString(numberLines, j);
      assert cols[..j + 1][..j] == cols[..j];
      assert GroupFold(Start, cols[..j + 1]) == GroupStep(GroupFold(Start, cols[..j]), charList);
      var numStrCombined := charList;
      if Blank(numStrCombined) {
        if currNumsGroup != [] {
          transposedGroups := transposedGroups + [currNumsGroup];
          currNumsGroup := [];
        }
      } else {
        var numValStr := Concat(Words(numStrCombined));
        var numVal := ParseInt(numValStr);
        if numVal.Some? {
          currNumsGroup := currNumsGroup + [numVal.value];
        }
      }
    }
    assert cols[..maxColLen] == cols;
    if currNumsGroup != [] {
      transposedGroups := transposedGroups + [currNumsGroup];
    }
    assert transposedGroups == Groups(cols);
    var output := 0;
    var m := Min(|transposedGroups|, |commands|);
    for i := 0 to m
      invariant output == PairedTotal(transposedGroups, commands, i)
    {
      var current := Evaluate(commands[i], transposedGroups[i]);
      output := output + current;
    }
    answer := Some(output);
  }
}

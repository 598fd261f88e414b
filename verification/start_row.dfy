/** Start-row detection (`HierarchicalCleaner._detect_start`): the first row
    in which more than 40% of the cells look numeric is where the data begins. */
module StartRow {
  import opened Text
  import opened Cells

  /** Position of the first dot of `s`, or `|s|` when there is none. */
  function DotIndex(s: string): (k: nat)
    ensures k <= |s|
    ensures k < |s| ==> s[k] == '.'
    ensures '.' !in s[..k]
  {
    if |s| == 0 || s[0] == '.' then 0
    else
      var k := DotIndex(s[1..]);
      assert s[..k + 1] == [s[0]] + s[1..][..k];
      k + 1
  }

  /** `s.replace('.', '', 1)`: the first dot, if any, removed. */
  function RemoveFirstDot(s: string): (r: string)
    ensures '.' !in s ==> r == s
    ensures '.' in s ==> r == s[..DotIndex(s)] + s[DotIndex(s) + 1..]
  {
    var k := DotIndex(s);
    if k < |s| then s[..k] + s[k + 1..]
    else
      assert s[..k] == s;
      s
  }

  /** `str.isdigit()` over the modelled digits: non-empty and every character a
      digit. */
  predicate IsDigitString(s: string) {
    |s| > 0 && AllDigits(s)
  }

  /** The per-cell test of the scan: a float (which includes a missing cell,
      since pandas stores it as NaN) or a string that is all digits once one
      dot is removed. A list renders as "[...]" and never passes. */
  predicate LooksNumeric(c: Cell) {
    match c
    case Empty => true
    case Num(_) => true
    case Text(s) => IsDigitString(RemoveFirstDot(s))
    case List(_) => false
  }

  function NumericCount(row: seq<Cell>): (n: nat)
    ensures n <= |row|
  {
    if |row| == 0 then 0
    else NumericCount(row[..|row| - 1]) + (if LooksNumeric(row[|row| - 1]) then 1 else 0)
  }

  /** `numeric_count > len(row) * 0.4`. With an integer count `c` and width
      `n` this is `5c > 2n`: the float product `n * 0.4` never lands on the
      other side of an integer for any width a table can have. */
  predicate IsDataRow(row: seq<Cell>) {
    5 * NumericCount(row) > 2 * |row|
  }

  /** Index of the first data row at or after `i`, or `|rows|` if none. */
  function FirstDataRow(rows: seq<seq<Cell>>, i: nat): (k: nat)
    requires i <= |rows|
    ensures i <= k <= |rows|
    ensures k < |rows| ==> IsDataRow(rows[k])
    ensures forall m | i <= m < k :: !IsDataRow(rows[m])
    decreases |rows| - i
  {
    if i == |rows| then i
    else if IsDataRow(rows[i]) then i
    else FirstDataRow(rows, i + 1)
  }

  /** `_detect_start`: the index of the first data row, or 0 when no row
      qualifies. The result is always 0 or a valid row index. */
  function DetectStart(rows: seq<seq<Cell>>): (start: nat)
    ensures start == 0 || start < |rows|
    ensures start > 0 ==> IsDataRow(rows[start]) && forall m | 0 <= m < start :: !IsDataRow(rows[m])
    ensures start == 0 ==> (|rows| > 0 && IsDataRow(rows[0])) || forall m | 0 <= m < |rows| :: !IsDataRow(rows[m])
  {
    var k := FirstDataRow(rows, 0);
    if k == |rows| then 0 else k
  }

  /** The start is the first data row: whenever row `k` is a data row and
      no row above it is, detection returns `k`. */
  lemma StartIsFirstDataRow(rows: seq<seq<Cell>>, k: nat)
    requires k < |rows| && IsDataRow(rows[k])
    requires forall m | 0 <= m < k :: !IsDataRow(rows[m])
    ensures DetectStart(rows) == k
  {
  }

  /** The count equals the number of positions whose cell looks numeric. */
  lemma {:induction false} NumericCountIsCardinality(row: seq<Cell>)
    ensures NumericCount(row) == |NumericPositions(row)|
  {
    if |row| > 0 {
      NumericCountIsCardinality(row[..|row| - 1]);
      NumericPositionsSnoc(row);
    }
  }

  /** Positions of the cells that look numeric. */
  function NumericPositions(row: seq<Cell>): set<nat> {
    set j | 0 <= j < |row| && LooksNumeric(row[j])
  }

  lemma NumericPositionsSnoc(row: seq<Cell>)
    requires |row| > 0
    ensures var p := NumericPositions(row[..|row| - 1]);
      |NumericPositions(row)| == |p| + (if LooksNumeric(row[|row| - 1]) then 1 else 0)
  {
    var n := |row| - 1;
    var sp := NumericPositions(row[..n]);
    var last: set<nat> := if LooksNumeric(row[n]) then {n} else {};
    NumericPositionsSplit(row);
    assert n !in sp;
    assert |sp + last| == |sp| + |last|;
  }

  lemma NumericPositionsSplit(row: seq<Cell>)
    requires |row| > 0
    ensures var n := |row| - 1;
      NumericPositions(row) == NumericPositions(row[..n]) + (if LooksNumeric(row[n]) then {n} else {})
  {
    var n := |row| - 1;
    var p := row[..n];
    var s := NumericPositions(row);
    var t := NumericPositions(p) + (if LooksNumeric(row[n]) then {n} else {});
    forall j | j in s ensures j in t {
      if j < n {
        assert p[j] == row[j];
      }
    }
    forall j | j in t ensures j in s {
      if j < n {
        assert p[j] == row[j];
      }
    }
  }

  /** A row of plain labels (none all-digit) with no missing cell is never a
      data row, so a grid made only of such rows starts at 0. */
  lemma {:induction false} LabelRowsStartAtZero(rows: seq<seq<Cell>>)
    requires forall i, j | 0 <= i < |rows| && 0 <= j < |rows[i]| :: !LooksNumeric(rows[i][j])
    ensures DetectStart(rows) == 0
  {
    forall i | 0 <= i < |rows| ensures !IsDataRow(rows[i]) {
      NoNumericCount(rows[i]);
    }
  }

  lemma {:induction false} NoNumericCount(row: seq<Cell>)
    requires forall j | 0 <= j < |row| :: !LooksNumeric(row[j])
    ensures NumericCount(row) == 0
  {
    if |row| > 0 {
      NoNumericCount(row[..|row| - 1]);
    }
  }

  /** Missing cells count as numeric: a merged header cell that spreads over
      two blank cells to its right makes its row a data row. */
  lemma MergedHeaderRowIsData()
    ensures IsDataRow([Text("L"), Empty, Empty])
    ensures DetectStart([[Text("L"), Empty, Empty], [Text("s1"), Text("s2"), Text("s3")]]) == 0
  {
    var row := [Text("L"), Empty, Empty];
    assert row[..2] == [Text("L"), Empty] && row[..2][..1] == [Text("L")] && row[..2][..1][..0] == [];
    assert RemoveFirstDot("L") == "L";
    assert NumericCount(row) == 2;
  }
}

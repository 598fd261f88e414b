/** Final type inference (`HierarchicalCleaner._infer_types`): every column
    that holds no list is replaced by its numeric coercion when more than 80%
    of its cells survive the coercion. */
module Inference {
  import opened Cells

  /** `pd.to_numeric(..., errors="coerce")` on one scalar cell: a number stays,
      a missing value stays missing, and a string becomes the number `parse`
      reads from it or, when it reads none, a missing value. `parse` stands for
      pandas' string-to-number rules and answers `None` for text such as "nan"
      that reads as a missing value. */
  function Coerce(parse: string -> Option<string>, c: Cell): (r: Cell)
    requires !IsList(c)
    ensures r == Empty || r.Num?
    ensures c.Num? ==> r == c
    ensures c == Empty ==> r == Empty
    ensures c.Text? ==> (r == Empty <==> parse(c.s).None?)
    ensures c.Text? && parse(c.s).Some? ==> r == Num(parse(c.s).value)
  {
    match c
    case Empty => Empty
    case Num(_) => c
    case Text(s) => if parse(s).Some? then Num(parse(s).value) else Empty
  }

  /** Coercing twice is coercing once. */
  lemma CoerceIdempotent(parse: string -> Option<string>, c: Cell)
    requires !IsList(c)
    ensures Coerce(parse, Coerce(parse, c)) == Coerce(parse, c)
  {
  }

  predicate HasList(col: seq<Cell>) {
    exists i | 0 <= i < |col| :: IsList(col[i])
  }

  /** The coerced column. */
  function Coerced(parse: string -> Option<string>, col: seq<Cell>): (r: seq<Cell>)
    requires !HasList(col)
    ensures |r| == |col| && forall i | 0 <= i < |col| :: r[i] == Coerce(parse, col[i])
  {
    seq(|col|, i requires 0 <= i < |col| => Coerce(parse, col[i]))
  }

  /** The column is replaced: it holds no list, and
      `converted.notnull().mean() > 0.8`, i.e. `5p > 4n` for `p` surviving
      cells out of `n`. An empty column has a NaN mean and is never replaced. */
  predicate Converts(parse: string -> Option<string>, col: seq<Cell>) {
    !HasList(col) && 5 * CountPresent(Coerced(parse, col)) > 4 * |col|
  }

  /** One step of the loop: column `j` replaced by its coercion or left. */
  function InferColumn(parse: string -> Option<string>, rows: seq<seq<Cell>>, width: nat, j: nat): (r: seq<seq<Cell>>)
    requires Rectangular(rows, width) && j < width
    ensures |r| == |rows| && Rectangular(r, width)
  {
    if Converts(parse, Column(rows, j)) then
      seq(|rows|, i requires 0 <= i < |rows| => rows[i][j := Coerce(parse, rows[i][j])])
    else rows
  }

  /** The loop after its first `n` steps. */
  function InferColumns(parse: string -> Option<string>, rows: seq<seq<Cell>>, width: nat, n: nat): (r: seq<seq<Cell>>)
    requires Rectangular(rows, width) && n <= width
    ensures |r| == |rows| && Rectangular(r, width)
  {
    if n == 0 then rows else InferColumn(parse, InferColumns(parse, rows, width, n - 1), width, n - 1)
  }

  /** `_infer_types`: names and row count unchanged. */
  function InferTypes(parse: string -> Option<string>, t: Table): (r: Table)
    requires WellFormed(t)
    ensures r.names == t.names && |r.rows| == |t.rows| && WellFormed(r)
    ensures NoLists(t.rows) ==> NoLists(r.rows)
  {
    var rows := InferColumns(parse, t.rows, |t.names|, |t.names|);
    assert NoLists(t.rows) ==> NoLists(rows) by {
      if NoLists(t.rows) {
        InferKeepsScalars(parse, t.rows, |t.names|);
      }
    }
    Table(t.names, rows)
  }

  /** Inference turns no cell into a list. */
  lemma InferKeepsScalars(parse: string -> Option<string>, rows: seq<seq<Cell>>, width: nat)
    requires Rectangular(rows, width) && NoLists(rows)
    ensures NoLists(InferColumns(parse, rows, width, width))
  {
    var r := InferColumns(parse, rows, width, width);
    forall i, m | 0 <= i < |r| && 0 <= m < |r[i]| ensures !IsList(r[i][m]) {
      InferColumnsAt(parse, rows, width, width, i, m);
    }
  }

  /** What the loop leaves in each cell, stated without the loop: each column
      is decided on its own original contents, since replacing one column
      never changes another. */
  lemma {:induction false} InferColumnsAt(parse: string -> Option<string>, rows: seq<seq<Cell>>, width: nat, n: nat, i: nat, m: nat)
    requires Rectangular(rows, width) && n <= width && i < |rows| && m < width
    ensures InferColumns(parse, rows, width, n)[i][m] ==
      if m < n && Converts(parse, Column(rows, m)) then Coerce(parse, rows[i][m]) else rows[i][m]
    decreases n, 0
  {
    if n > 0 {
      if m == n - 1 {
        SameColumn(parse, rows, width, n - 1);
        StepOnColumn(parse, rows, width, n, i);
      } else {
        InferColumnsAt(parse, rows, width, n - 1, i, m);
        StepBesideColumn(parse, rows, width, n, i, m);
      }
    }
  }

  /** Step `n - 1` of the loop decides column `n - 1` on its original
      contents. */
  lemma StepOnColumn(parse: string -> Option<string>, rows: seq<seq<Cell>>, width: nat, n: nat, i: nat)
    requires Rectangular(rows, width) && 0 < n <= width && i < |rows|
    requires Column(InferColumns(parse, rows, width, n - 1), n - 1) == Column(rows, n - 1)
    ensures InferColumns(parse, rows, width, n)[i][n - 1] ==
      if Converts(parse, Column(rows, n - 1)) then Coerce(parse, rows[i][n - 1]) else rows[i][n - 1]
  {
    StepOnOriginalColumn(parse, InferColumns(parse, rows, width, n - 1), rows, width, n - 1, i);
  }

  /** A step on column `j` of a grid whose column `j` is still the original
      one decides it on the original contents. */
  lemma StepOnOriginalColumn(parse: string -> Option<string>, before: seq<seq<Cell>>, rows: seq<seq<Cell>>, width: nat, j: nat, i: nat)
    requires Rectangular(before, width) && Rectangular(rows, width) && j < width && i < |before|
    requires Column(before, j) == Column(rows, j)
    ensures i < |rows| && InferColumn(parse, before, width, j)[i][j] ==
      if Converts(parse, Column(rows, j)) then Coerce(parse, rows[i][j]) else rows[i][j]
  {
    InferColumnAt(parse, before, width, j, i, j);
    SameCell(before, rows, width, j, i);
  }

  /** Step `n - 1` of the loop leaves the other columns alone. */
  lemma StepBesideColumn(parse: string -> Option<string>, rows: seq<seq<Cell>>, width: nat, n: nat, i: nat, m: nat)
    requires Rectangular(rows, width) && 0 < n <= width && i < |rows| && m < width && m != n - 1
    ensures InferColumns(parse, rows, width, n)[i][m] == InferColumns(parse, rows, width, n - 1)[i][m]
  {
    InferColumnAt(parse, InferColumns(parse, rows, width, n - 1), width, n - 1, i, m);
  }

  lemma SameCell(a: seq<seq<Cell>>, b: seq<seq<Cell>>, width: nat, j: nat, i: nat)
    requires Rectangular(a, width) && Rectangular(b, width) && j < width && i < |a|
    requires Column(a, j) == Column(b, j)
    ensures i < |b| && a[i][j] == b[i][j]
  {
    assert a[i][j] == Column(a, j)[i];
  }

  /** One step changes at most column `j`. */
  lemma InferColumnAt(parse: string -> Option<string>, rows: seq<seq<Cell>>, width: nat, j: nat, i: nat, m: nat)
    requires Rectangular(rows, width) && j < width && i < |rows| && m < width
    ensures InferColumn(parse, rows, width, j)[i][m] ==
      if m == j && Converts(parse, Column(rows, j)) then Coerce(parse, rows[i][m]) else rows[i][m]
  {
  }

  /** Column `n` is still the original one after the first `n` steps. */
  lemma SameColumn(parse: string -> Option<string>, rows: seq<seq<Cell>>, width: nat, n: nat)
    requires Rectangular(rows, width) && n < width
    ensures Column(InferColumns(parse, rows, width, n), n) == Column(rows, n)
    decreases n, 1
  {
    var before := InferColumns(parse, rows, width, n);
    forall i | 0 <= i < |rows| ensures before[i][n] == rows[i][n] {
      InferColumnsAt(parse, rows, width, n, i, n);
    }
  }

  /** Type inference is idempotent. */
  lemma InferTypesIdempotent(parse: string -> Option<string>, t: Table)
    requires WellFormed(t)
    ensures InferTypes(parse, InferTypes(parse, t)) == InferTypes(parse, t)
  {
    var w := |t.names|;
    var once := InferTypes(parse, t).rows;
    var twice := InferTypes(parse, InferTypes(parse, t)).rows;
    forall i, m | 0 <= i < |t.rows| && 0 <= m < w ensures twice[i][m] == once[i][m] {
      InferTwiceAt(parse, t.rows, w, i, m);
    }
    assert forall i | 0 <= i < |t.rows| :: twice[i] == once[i];
  }

  lemma InferTwiceAt(parse: string -> Option<string>, rows: seq<seq<Cell>>, width: nat, i: nat, m: nat)
    requires Rectangular(rows, width) && i < |rows| && m < width
    ensures InferColumns(parse, InferColumns(parse, rows, width, width), width, width)[i][m]
         == InferColumns(parse, rows, width, width)[i][m]
  {
    var once := InferColumns(parse, rows, width, width);
    InferColumnsAt(parse, once, width, width, i, m);
    InferColumnsAt(parse, rows, width, width, i, m);
    var col := Column(rows, m);
    if Converts(parse, col) {
      CoerceIdempotent(parse, rows[i][m]);
    } else {
      forall k | 0 <= k < |rows| ensures once[k][m] == rows[k][m] {
        InferColumnsAt(parse, rows, width, width, k, m);
      }
      assert Column(once, m) == col;
    }
  }

  /** After inference a replaced column holds only numbers and missing
      values. */
  lemma ConvertedColumnIsNumeric(parse: string -> Option<string>, t: Table, m: nat, i: nat)
    requires WellFormed(t) && m < |t.names| && i < |t.rows|
    requires Converts(parse, Column(t.rows, m))
    ensures InferTypes(parse, t).rows[i][m] == Empty || InferTypes(parse, t).rows[i][m].Num?
  {
    InferColumnsAt(parse, t.rows, |t.names|, |t.names|, i, m);
  }

  /** A column with a list is never touched. */
  lemma ListColumnSkipped(parse: string -> Option<string>, t: Table, m: nat, i: nat)
    requires WellFormed(t) && m < |t.names| && i < |t.rows|
    requires HasList(Column(t.rows, m))
    ensures InferTypes(parse, t).rows[i][m] == t.rows[i][m]
  {
    InferColumnsAt(parse, t.rows, |t.names|, |t.names|, i, m);
  }

  /** Strictly more than 80%: eight numbers out of ten stay as they are, nine
      out of ten convert. */
  lemma EightyPercentIsNotEnough()
    ensures !Converts(NoParse, TenCells(8))
    ensures Converts(NoParse, TenCells(9))
  {
    CountTenCells(8);
    CountTenCells(9);
  }

  /** A parser that reads nothing. */
  function NoParse(s: string): Option<string> {
    None
  }

  /** `k` numbers followed by missing values, ten cells in all. */
  function TenCells(k: nat): (col: seq<Cell>)
    requires k <= 10
    ensures |col| == 10
  {
    seq(10, i requires 0 <= i < 10 => if i < k then Num("1") else Empty)
  }

  lemma CountTenCells(k: nat)
    requires k <= 10
    ensures !HasList(TenCells(k)) && CountPresent(Coerced(NoParse, TenCells(k))) == k
  {
    var col := Coerced(NoParse, TenCells(k));
    assert col == TenCells(k);
    CountPrefix(col, k, 10);
    assert col[..10] == col;
  }

  /** Counting the present cells of a column whose first `k` cells are
      present and whose others are missing. */
  lemma {:induction false} CountPrefix(col: seq<Cell>, k: nat, n: nat)
    requires k <= n <= |col|
    requires forall i | 0 <= i < |col| :: (col[i] == Empty <==> i >= k)
    ensures CountPresent(col[..n]) == k
    decreases n
  {
    if n > k {
      CountPrefix(col, k, n - 1);
      assert col[..n][..n - 1] == col[..n - 1];
    } else if n > 0 {
      CountAllPresent(col, n);
    }
  }

  lemma {:induction false} CountAllPresent(col: seq<Cell>, n: nat)
    requires n <= |col| && forall i | 0 <= i < n :: col[i] != Empty
    ensures CountPresent(col[..n]) == n
  {
    if n > 0 {
      CountAllPresent(col, n - 1);
      assert col[..n][..n - 1] == col[..n - 1];
    }
  }
}

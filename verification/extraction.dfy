/** Data extraction (the data half of `get_clean_dataframe`): the rows from the
    start row on, named by the resolved headers, without the rows and then the
    columns that hold no value at all. */
module Extraction {
  import opened Cells

  predicate AllEmpty(cs: seq<Cell>) {
    forall i | 0 <= i < |cs| :: cs[i] == Empty
  }

  /** Column `j` holds no value in any row. */
  predicate ColumnEmpty(rows: seq<seq<Cell>>, j: nat)
    requires forall i | 0 <= i < |rows| :: j < |rows[i]|
  {
    forall i | 0 <= i < |rows| :: rows[i][j] == Empty
  }

  predicate Increasing(ks: seq<nat>) {
    forall a, b | 0 <= a < b < |ks| :: ks[a] < ks[b]
  }

  /** Positions of the rows `dropna(how='all', axis=0)` keeps, in order. */
  function RowsKept(rows: seq<seq<Cell>>): (ks: seq<nat>)
    ensures Increasing(ks)
    ensures forall k | 0 <= k < |ks| :: ks[k] < |rows| && !AllEmpty(rows[ks[k]])
  {
    if |rows| == 0 then []
    else
      var p := RowsKept(rows[..|rows| - 1]);
      if AllEmpty(rows[|rows| - 1]) then p else p + [|rows| - 1]
  }

  /** A row is kept exactly when it has a value. */
  lemma {:induction false} RowsKeptMembers(rows: seq<seq<Cell>>, i: nat)
    ensures i in RowsKept(rows) <==> i < |rows| && !AllEmpty(rows[i])
  {
    if |rows| > 0 {
      var p := rows[..|rows| - 1];
      RowsKeptMembers(p, i);
      if i < |p| {
        assert p[i] == rows[i];
      }
    }
  }

  /** Positions, below `n`, of the columns `dropna(how='all', axis=1)` keeps,
      in order. */
  function ColumnsKept(rows: seq<seq<Cell>>, n: nat): (ks: seq<nat>)
    requires forall i | 0 <= i < |rows| :: n <= |rows[i]|
    ensures Increasing(ks)
    ensures forall k | 0 <= k < |ks| :: ks[k] < n && !ColumnEmpty(rows, ks[k])
  {
    if n == 0 then []
    else
      var p := ColumnsKept(rows, n - 1);
      if ColumnEmpty(rows, n - 1) then p else p + [n - 1]
  }

  /** A column is kept exactly when some row has a value in it. */
  lemma {:induction false} ColumnsKeptMembers(rows: seq<seq<Cell>>, n: nat, j: nat)
    requires forall i | 0 <= i < |rows| :: n <= |rows[i]|
    ensures j in ColumnsKept(rows, n) <==> j < n && !ColumnEmpty(rows, j)
  {
    if n > 0 {
      ColumnsKeptMembers(rows, n - 1, j);
    }
  }

  /** The elements of `xs` at positions `ks`. */
  function Pick<T>(xs: seq<T>, ks: seq<nat>): (r: seq<T>)
    requires forall k | 0 <= k < |ks| :: ks[k] < |xs|
    ensures |r| == |ks| && forall k | 0 <= k < |ks| :: r[k] == xs[ks[k]]
  {
    seq(|ks|, k requires 0 <= k < |ks| => xs[ks[k]])
  }

  /** The columns at positions `cols` of every row. */
  function PickColumns(rows: seq<seq<Cell>>, cols: seq<nat>): (r: seq<seq<Cell>>)
    requires forall i, k | 0 <= i < |rows| && 0 <= k < |cols| :: cols[k] < |rows[i]|
    ensures |r| == |rows| && forall i | 0 <= i < |rows| :: r[i] == Pick(rows[i], cols)
  {
    seq(|rows|, i requires 0 <= i < |rows| => Pick(rows[i], cols))
  }

  /** The table of data rows: rows `start..` of the normalised grid under the
      resolved names, then all-empty rows dropped, then all-empty columns
      dropped together with their names. */
  function ExtractData(names: seq<string>, rows: seq<seq<Cell>>, start: nat): (t: Table)
    requires Rectangular(rows, |names|) && start <= |rows|
    ensures WellFormed(t)
    ensures NoLists(rows) ==> NoLists(t.rows)
  {
    var data := rows[start..];
    var kept := Pick(data, RowsKept(data));
    var cols := ColumnsKept(kept, |names|);
    var table := Table(Pick(names, cols), PickColumns(kept, cols));
    assert NoLists(rows) ==> NoLists(table.rows) by {
      if NoLists(rows) {
        forall i, k | 0 <= i < |table.rows| && 0 <= k < |table.rows[i]| ensures !IsList(table.rows[i][k]) {
          assert table.rows[i][k] == rows[start + RowsKept(data)[i]][cols[k]];
        }
      }
    }
    table
  }

  /** Where each surviving cell comes from: the kept rows of the data block in
      their original order, and within each the kept columns in theirs. */
  lemma ExtractedCells(names: seq<string>, rows: seq<seq<Cell>>, start: nat, i: nat, k: nat)
    requires Rectangular(rows, |names|) && start <= |rows|
    requires i < |ExtractData(names, rows, start).rows| && k < |ExtractData(names, rows, start).names|
    ensures var data := rows[start..];
      var kept := Pick(data, RowsKept(data));
      var cols := ColumnsKept(kept, |names|);
      ExtractData(names, rows, start).rows[i][k] == rows[start + RowsKept(data)[i]][cols[k]]
      && ExtractData(names, rows, start).names[k] == names[cols[k]]
  {
  }

  /** Every extracted cell is a cell of the grid at or below the start. */
  lemma ExtractedCellOrigin(names: seq<string>, rows: seq<seq<Cell>>, start: nat, i: nat, k: nat) returns (r: nat, j: nat)
    requires Rectangular(rows, |names|) && start <= |rows|
    requires i < |ExtractData(names, rows, start).rows| && k < |ExtractData(names, rows, start).names|
    ensures start <= r < |rows| && j < |names|
    ensures ExtractData(names, rows, start).rows[i][k] == rows[r][j]
    ensures ExtractData(names, rows, start).names[k] == names[j]
  {
    ExtractedCells(names, rows, start, i, k);
    var data := rows[start..];
    var kept := Pick(data, RowsKept(data));
    r := start + RowsKept(data)[i];
    j := ColumnsKept(kept, |names|)[k];
  }

  /** Every name of the extracted table is the name of a grid column. */
  lemma ExtractedNameOrigin(names: seq<string>, rows: seq<seq<Cell>>, start: nat, k: nat) returns (j: nat)
    requires Rectangular(rows, |names|) && start <= |rows|
    requires k < |ExtractData(names, rows, start).names|
    ensures j < |names| && ExtractData(names, rows, start).names[k] == names[j]
  {
    var data := rows[start..];
    var kept := Pick(data, RowsKept(data));
    j := ColumnsKept(kept, |names|)[k];
  }

  /** A row of the grid at or after the start survives exactly when it has a
      value. */
  lemma RowSurvives(names: seq<string>, rows: seq<seq<Cell>>, start: nat, i: nat)
    requires Rectangular(rows, |names|) && start <= i < |rows|
    ensures (i - start) in RowsKept(rows[start..]) <==> !AllEmpty(rows[i])
  {
    RowsKeptMembers(rows[start..], i - start);
  }

  /** A column survives exactly when some row at or after the start has a value
      in it: dropping the empty rows first never changes which columns are
      empty. */
  lemma {:induction false} ColumnSurvives(names: seq<string>, rows: seq<seq<Cell>>, start: nat, j: nat)
    requires Rectangular(rows, |names|) && start <= |rows| && j < |names|
    ensures var data := rows[start..];
      j in ColumnsKept(Pick(data, RowsKept(data)), |names|) <==>
        exists i | start <= i < |rows| :: rows[i][j] != Empty
  {
    var data := rows[start..];
    var kept := Pick(data, RowsKept(data));
    ColumnsKeptMembers(kept, |names|, j);
    if exists i | start <= i < |rows| :: rows[i][j] != Empty {
      var i :| start <= i < |rows| && rows[i][j] != Empty;
      ValueKept(rows, |names|, start, j, i);
    }
    if !ColumnEmpty(kept, j) {
      KeptValueFrom(rows, |names|, start, j);
    }
  }

  /** A value at or below the start is in a kept row. */
  lemma ValueKept(rows: seq<seq<Cell>>, n: nat, start: nat, j: nat, i: nat)
    requires Rectangular(rows, n) && start <= i < |rows| && j < n && rows[i][j] != Empty
    ensures var data := rows[start..]; !ColumnEmpty(Pick(data, RowsKept(data)), j)
  {
    var data := rows[start..];
    assert data[i - start] == rows[i];
    ValueInKeptRow(data, n, j, i - start);
  }

  lemma ValueInKeptRow(data: seq<seq<Cell>>, n: nat, j: nat, i: nat)
    requires forall r | 0 <= r < |data| :: |data[r]| == n
    requires i < |data| && j < n && data[i][j] != Empty
    ensures !ColumnEmpty(Pick(data, RowsKept(data)), j)
  {
    var ks := RowsKept(data);
    RowsKeptMembers(data, i);
    var k :| 0 <= k < |ks| && ks[k] == i;
    assert Pick(data, ks)[k][j] != Empty;
  }

  /** A value in a kept row is a value at or below the start. */
  lemma KeptValueFrom(rows: seq<seq<Cell>>, n: nat, start: nat, j: nat)
    requires Rectangular(rows, n) && start <= |rows| && j < n
    requires var data := rows[start..]; !ColumnEmpty(Pick(data, RowsKept(data)), j)
    ensures exists i | start <= i < |rows| :: rows[i][j] != Empty
  {
    var data := rows[start..];
    var ks := RowsKept(data);
    var kept := Pick(data, ks);
    var k :| 0 <= k < |kept| && kept[k][j] != Empty;
    assert rows[start + ks[k]][j] != Empty;
  }

  /** After extraction no row and no column is entirely empty. */
  lemma NothingEmptyRemains(names: seq<string>, rows: seq<seq<Cell>>, start: nat)
    requires Rectangular(rows, |names|) && start <= |rows|
    ensures var t := ExtractData(names, rows, start);
      (forall i | 0 <= i < |t.rows| :: !AllEmpty(t.rows[i]))
      && (forall k | 0 <= k < |t.names| :: !ColumnEmpty(t.rows, k))
  {
    var data := rows[start..];
    var kept := Pick(data, RowsKept(data));
    var cols := ColumnsKept(kept, |names|);
    var t := ExtractData(names, rows, start);
    assert t.rows == PickColumns(kept, cols) && |t.names| == |cols|;
    assert forall i | 0 <= i < |kept| :: |kept[i]| == |names| && !AllEmpty(kept[i]);
    PickedTableHasValues(t, kept, |names|);
  }

  /** A table made of the non-empty columns of rows that each hold a value
      has no empty row and no empty column. */
  lemma PickedTableHasValues(t: Table, kept: seq<seq<Cell>>, n: nat)
    requires forall i | 0 <= i < |kept| :: |kept[i]| == n && !AllEmpty(kept[i])
    requires t.rows == PickColumns(kept, ColumnsKept(kept, n)) && |t.names| == |ColumnsKept(kept, n)|
    ensures forall i | 0 <= i < |t.rows| :: !AllEmpty(t.rows[i])
    ensures forall k | 0 <= k < |t.names| :: !ColumnEmpty(t.rows, k)
  {
    NoEmptyRowRemains(kept, n);
    NoEmptyColumnRemains(kept, n);
  }

  /** Keeping the non-empty columns of rows that each hold a value leaves
      every row with a value. */
  lemma NoEmptyRowRemains(kept: seq<seq<Cell>>, n: nat)
    requires forall i | 0 <= i < |kept| :: |kept[i]| == n && !AllEmpty(kept[i])
    ensures var cols := ColumnsKept(kept, n);
      forall i | 0 <= i < |kept| :: !AllEmpty(Pick(kept[i], cols))
  {
    var cols := ColumnsKept(kept, n);
    forall i | 0 <= i < |kept| ensures !AllEmpty(Pick(kept[i], cols)) {
      var j :| 0 <= j < |kept[i]| && kept[i][j] != Empty;
      ColumnsKeptMembers(kept, n, j);
      var k :| 0 <= k < |cols| && cols[k] == j;
      assert Pick(kept[i], cols)[k] == kept[i][j];
    }
  }

  /** Every kept column holds a value in some row. */
  lemma NoEmptyColumnRemains(kept: seq<seq<Cell>>, n: nat)
    requires forall i | 0 <= i < |kept| :: |kept[i]| == n
    ensures var cols := ColumnsKept(kept, n);
      forall k | 0 <= k < |cols| :: !ColumnEmpty(PickColumns(kept, cols), k)
  {
    var cols := ColumnsKept(kept, n);
    var picked := PickColumns(kept, cols);
    forall k | 0 <= k < |cols| ensures !ColumnEmpty(picked, k) {
      var i :| 0 <= i < |kept| && kept[i][cols[k]] != Empty;
      assert picked[i][k] == kept[i][cols[k]];
    }
  }
}

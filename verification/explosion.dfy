/** Semantic explosion (`HierarchicalCleaner._explode_multivalues`): the
    columns are visited left to right; a column is marked when one of its first
    twenty present values contains a separator, and then every one of its cells
    is split into trimmed fragments and its row repeated once per fragment. */
module Explosion {
  import opened Text
  import opened Cells
  import opened Labels
  import opened Splitting

  /** How many present values the marking test looks at (`head(20)`). */
  const SampleSize: nat := 20

  /** `df[col].dropna().astype(str).head(20)`. */
  function Sample(render: string -> string, col: seq<Cell>): (r: seq<string>)
    requires forall i | 0 <= i < |col| :: !IsList(col[i])
    ensures |r| <= SampleSize && |r| <= |PresentTexts(render, col)|
    ensures |r| == SampleSize || |r| == |PresentTexts(render, col)|
    ensures forall k | 0 <= k < |r| :: r[k] == PresentTexts(render, col)[k]
  {
    var texts := PresentTexts(render, col);
    if |texts| <= SampleSize then texts else texts[..SampleSize]
  }

  /** The column is split: some sampled value contains a separator. */
  predicate Marked(render: string -> string, col: seq<Cell>)
    requires forall i | 0 <= i < |col| :: !IsList(col[i])
  {
    exists k | 0 <= k < |Sample(render, col)| :: HasSep(Sample(render, col)[k])
  }

  /** A column is marked exactly when some present cell, with fewer than
      twenty present cells above it, has a separator in its text. */
  lemma MarkedIff(render: string -> string, col: seq<Cell>)
    requires forall i | 0 <= i < |col| :: !IsList(col[i])
    ensures Marked(render, col) <==>
      exists i | 0 <= i < |col| :: col[i] != Empty && CountPresent(col[..i]) < SampleSize && HasSep(AsText(render, col[i]))
  {
    var s := Sample(render, col);
    if Marked(render, col) {
      var k :| 0 <= k < |s| && HasSep(s[k]);
      var i := PresentTextsSource(render, col, k);
    }
    if exists i | 0 <= i < |col| :: col[i] != Empty && CountPresent(col[..i]) < SampleSize && HasSep(AsText(render, col[i])) {
      var i :| 0 <= i < |col| && col[i] != Empty && CountPresent(col[..i]) < SampleSize && HasSep(AsText(render, col[i]));
      PresentTextsAt(render, col, i);
      assert s[CountPresent(col[..i])] == AsText(render, col[i]);
    }
  }

  /** `[i.strip() for i in re.split(pattern, str(x))]`: the trimmed pieces of
      the cell's text. A missing cell has the text "nan". */
  function Fragments(render: string -> string, c: Cell): (r: seq<string>)
    requires !IsList(c)
    ensures |r| == |Split(AsText(render, c))| > 0
    ensures forall k | 0 <= k < |r| :: r[k] == Strip(Split(AsText(render, c))[k])
  {
    StripEach(Split(AsText(render, c)))
  }

  /** How many rows `explode` makes of a cell: one per list item, and one for
      an empty list or a scalar. */
  function Spread(c: Cell): (n: nat)
    ensures n >= 1
  {
    if c.List? && |c.items| > 0 then |c.items| else 1
  }

  /** `explode` on one row: a list at `j` gives one copy of the row per item,
      the item in place of the list; an empty list gives one row with a missing
      value; a scalar leaves the row alone. */
  function ExplodeRow(row: seq<Cell>, j: nat): (r: seq<seq<Cell>>)
    requires j < |row|
    ensures |r| == Spread(row[j])
    ensures forall k | 0 <= k < |r| :: |r[k]| == |row| && !IsList(r[k][j])
    ensures forall k, m | 0 <= k < |r| && 0 <= m < |row| && m != j :: r[k][m] == row[m]
  {
    match row[j]
    case List(items) =>
      if |items| == 0 then [row[j := Empty]]
      else seq(|items|, k requires 0 <= k < |items| => row[j := Text(items[k])])
    case _ => [row]
  }

  /** Number of rows `explode` makes of the first `n` rows. */
  function SpreadTotal(rows: seq<seq<Cell>>, j: nat, n: nat): (total: nat)
    requires n <= |rows| && forall i | 0 <= i < |rows| :: j < |rows[i]|
    ensures total >= n
  {
    if n == 0 then 0 else SpreadTotal(rows, j, n - 1) + Spread(rows[n - 1][j])
  }

  /** `explode` on the first `n` rows, in order. */
  function ExplodeUpTo(rows: seq<seq<Cell>>, j: nat, n: nat): (r: seq<seq<Cell>>)
    requires n <= |rows| && forall i | 0 <= i < |rows| :: j < |rows[i]|
    ensures |r| == SpreadTotal(rows, j, n)
  {
    if n == 0 then [] else ExplodeUpTo(rows, j, n - 1) + ExplodeRow(rows[n - 1], j)
  }

  /** `df.explode(col)` for column `j`. */
  function ExplodeRows(rows: seq<seq<Cell>>, j: nat): (r: seq<seq<Cell>>)
    requires forall i | 0 <= i < |rows| :: j < |rows[i]|
    ensures |r| == SpreadTotal(rows, j, |rows|)
  {
    ExplodeUpTo(rows, j, |rows|)
  }

  /** Row `i` of the input becomes the block of rows that starts after the
      rows made from the rows above it. */
  lemma {:induction false} ExplodeRowsAt(rows: seq<seq<Cell>>, j: nat, n: nat, i: nat, k: nat)
    requires n <= |rows| && forall m | 0 <= m < |rows| :: j < |rows[m]|
    requires i < n && k < Spread(rows[i][j])
    ensures SpreadTotal(rows, j, i) + k < |ExplodeUpTo(rows, j, n)|
    ensures ExplodeUpTo(rows, j, n)[SpreadTotal(rows, j, i) + k] == ExplodeRow(rows[i], j)[k]
  {
    var prev := ExplodeUpTo(rows, j, n - 1);
    var last := ExplodeRow(rows[n - 1], j);
    var x := SpreadTotal(rows, j, i) + k;
    if i < n - 1 {
      ExplodeRowsAt(rows, j, n - 1, i, k);
      SpreadMonotone(rows, j, i + 1, n - 1);
    }
    IndexConcat(prev, last, x);
  }

  lemma IndexConcat<T>(a: seq<T>, b: seq<T>, x: nat)
    requires x < |a| + |b|
    ensures (a + b)[x] == if x < |a| then a[x] else b[x - |a|]
  {
  }

  lemma {:induction false} SpreadMonotone(rows: seq<seq<Cell>>, j: nat, a: nat, b: nat)
    requires a <= b <= |rows| && forall m | 0 <= m < |rows| :: j < |rows[m]|
    ensures SpreadTotal(rows, j, a) <= SpreadTotal(rows, j, b)
    decreases b
  {
    if a < b {
      SpreadMonotone(rows, j, a, b - 1);
    }
  }

  /** Conversely every output row comes from one input row. */
  lemma {:induction false} ExplodeRowsSource(rows: seq<seq<Cell>>, j: nat, n: nat, o: nat) returns (i: nat, k: nat)
    requires n <= |rows| && forall m | 0 <= m < |rows| :: j < |rows[m]|
    requires o < |ExplodeUpTo(rows, j, n)|
    ensures i < n && k < Spread(rows[i][j])
    ensures o == SpreadTotal(rows, j, i) + k
    ensures ExplodeUpTo(rows, j, n)[o] == ExplodeRow(rows[i], j)[k]
  {
    if o < |ExplodeUpTo(rows, j, n - 1)| {
      i, k := ExplodeRowsSource(rows, j, n - 1, o);
    } else {
      i, k := n - 1, o - |ExplodeUpTo(rows, j, n - 1)|;
    }
  }

  /** Explosion keeps the width and leaves no list behind when only column
      `j` held lists. */
  lemma ExplodeRowsShape(rows: seq<seq<Cell>>, width: nat, j: nat)
    requires Rectangular(rows, width) && j < width
    requires forall i, m | 0 <= i < |rows| && 0 <= m < width && m != j :: !IsList(rows[i][m])
    ensures Rectangular(ExplodeRows(rows, j), width) && NoLists(ExplodeRows(rows, j))
  {
    var r := ExplodeRows(rows, j);
    forall o | 0 <= o < |r| ensures |r[o]| == width && forall m | 0 <= m < width :: !IsList(r[o][m]) {
      var i, k := ExplodeRowsSource(rows, j, |rows|, o);
    }
  }

  /** Column `j` exists in every row and holds no list. */
  predicate ScalarColumn(rows: seq<seq<Cell>>, j: nat) {
    forall i | 0 <= i < |rows| :: j < |rows[i]| && !IsList(rows[i][j])
  }

  /** The `apply` step with the fragments of every row given: the cell at `j`
      of row `i` becomes the list `frags[i]`. */
  function SplitWith(rows: seq<seq<Cell>>, j: nat, frags: seq<seq<string>>): (r: seq<seq<Cell>>)
    requires |frags| == |rows| && forall i | 0 <= i < |rows| :: j < |rows[i]|
    ensures |r| == |rows|
    ensures forall i | 0 <= i < |rows| :: r[i] == rows[i][j := List(frags[i])]
  {
    seq(|rows|, i requires 0 <= i < |rows| => rows[i][j := List(frags[i])])
  }

  /** The fragments of every cell of column `j`, top to bottom. */
  function ColumnFragments(render: string -> string, rows: seq<seq<Cell>>, j: nat): (f: seq<seq<string>>)
    requires ScalarColumn(rows, j)
    ensures |f| == |rows| && forall i | 0 <= i < |rows| :: |f[i]| > 0
  {
    seq(|rows|, i requires 0 <= i < |rows| => Fragments(render, rows[i][j]))
  }

  lemma ColumnFragmentsAt(render: string -> string, rows: seq<seq<Cell>>, j: nat, i: nat)
    requires ScalarColumn(rows, j) && i < |rows|
    ensures ColumnFragments(render, rows, j)[i] == Fragments(render, rows[i][j])
  {
  }

  /** `df[col] = df[col].astype(str).apply(...)`. */
  function SplitColumn(render: string -> string, rows: seq<seq<Cell>>, j: nat): (r: seq<seq<Cell>>)
    requires ScalarColumn(rows, j)
    ensures |r| == |rows|
  {
    SplitWith(rows, j, ColumnFragments(render, rows, j))
  }

  /** Number of fragments in the first `n` lists. */
  function Total(frags: seq<seq<string>>, n: nat): (total: nat)
    requires n <= |frags|
  {
    if n == 0 then 0 else Total(frags, n - 1) + |frags[n - 1]|
  }

  /** Split rows make as many rows as they have fragments. */
  lemma {:induction false} SplitWithSpread(rows: seq<seq<Cell>>, j: nat, frags: seq<seq<string>>, n: nat)
    requires |frags| == |rows| && forall i | 0 <= i < |rows| :: j < |rows[i]| && |frags[i]| > 0
    requires n <= |rows|
    ensures forall i | 0 <= i < |rows| :: j < |SplitWith(rows, j, frags)[i]|
    ensures SpreadTotal(SplitWith(rows, j, frags), j, n) == Total(frags, n)
  {
    if n > 0 {
      SplitWithSpread(rows, j, frags, n - 1);
    }
  }

  /** The `k`-th row `explode` makes of a split row is the original row with
      the `k`-th fragment in place. */
  lemma ExplodeSplitRow(row: seq<Cell>, j: nat, f: seq<string>, k: nat)
    requires j < |row| && k < |f|
    ensures ExplodeRow(row[j := List(f)], j)[k] == row[j := Text(f[k])]
  {
  }

  /** Splitting then exploding column `j`, seen from an input row. */
  lemma SplitWithAt(rows: seq<seq<Cell>>, j: nat, frags: seq<seq<string>>, i: nat, k: nat)
    requires |frags| == |rows| && forall m | 0 <= m < |rows| :: j < |rows[m]| && |frags[m]| > 0
    requires i < |rows| && k < |frags[i]|
    ensures forall m | 0 <= m < |rows| :: j < |SplitWith(rows, j, frags)[m]|
    ensures |ExplodeRows(SplitWith(rows, j, frags), j)| == Total(frags, |rows|)
    ensures Total(frags, i) + k < |ExplodeRows(SplitWith(rows, j, frags), j)|
    ensures ExplodeRows(SplitWith(rows, j, frags), j)[Total(frags, i) + k] == rows[i][j := Text(frags[i][k])]
  {
    var split := SplitWith(rows, j, frags);
    SplitWithSpread(rows, j, frags, |rows|);
    SplitWithSpread(rows, j, frags, i);
    ExplodeRowsAt(split, j, |rows|, i, k);
    ExplodeSplitRow(rows[i], j, frags[i], k);
  }

  /** Splitting then exploding column `j`, seen from an output row. */
  lemma SplitWithSource(rows: seq<seq<Cell>>, j: nat, frags: seq<seq<string>>, o: nat) returns (i: nat, k: nat)
    requires |frags| == |rows| && forall m | 0 <= m < |rows| :: j < |rows[m]| && |frags[m]| > 0
    requires forall m | 0 <= m < |rows| :: j < |SplitWith(rows, j, frags)[m]|
    requires o < |ExplodeRows(SplitWith(rows, j, frags), j)|
    ensures i < |rows| && k < |frags[i]|
    ensures ExplodeRows(SplitWith(rows, j, frags), j)[o] == rows[i][j := Text(frags[i][k])]
  {
    i, k := ExplodeRowsSource(SplitWith(rows, j, frags), j, |rows|, o);
    ExplodeSplitRow(rows[i], j, frags[i], k);
  }

  /** Split rows keep their width, and column `j` is the only one that holds
      lists. */
  lemma SplitColumnShape(render: string -> string, rows: seq<seq<Cell>>, width: nat, j: nat)
    requires Rectangular(rows, width) && j < width && NoLists(rows)
    ensures ScalarColumn(rows, j)
    ensures Rectangular(SplitColumn(render, rows, j), width)
    ensures forall i, m | 0 <= i < |rows| && 0 <= m < width && m != j :: !IsList(SplitColumn(render, rows, j)[i][m])
  {
    assert ScalarColumn(rows, j) by {
      forall i | 0 <= i < |rows| ensures j < |rows[i]| && !IsList(rows[i][j]) {
      }
    }
  }

  /** One step of the loop: column `j` exploded when it is marked. */
  function ExplodeColumn(render: string -> string, rows: seq<seq<Cell>>, width: nat, j: nat): (r: seq<seq<Cell>>)
    requires Rectangular(rows, width) && j < width && NoLists(rows)
    ensures Rectangular(r, width) && NoLists(r)
    ensures |r| >= |rows|
    ensures !Marked(render, Column(rows, j)) ==> r == rows
  {
    if Marked(render, Column(rows, j)) then
      SplitColumnShape(render, rows, width, j);
      var frags := ColumnFragments(render, rows, j);
      var split := SplitWith(rows, j, frags);
      ExplodeRowsShape(split, width, j);
      SplitWithSpread(rows, j, frags, |rows|);
      TotalAtLeast(frags, |rows|);
      ExplodeRows(split, j)
    else rows
  }

  /** Exploding a marked column: the output has one row per fragment, and the
      `k`-th fragment of row `i` sits, as text, in a copy of row `i` placed
      after the rows made from the rows above. Every other column is copied. */
  lemma ExplodedColumn(render: string -> string, rows: seq<seq<Cell>>, width: nat, j: nat, i: nat, k: nat)
    requires Rectangular(rows, width) && j < width && NoLists(rows)
    requires Marked(render, Column(rows, j))
    requires ScalarColumn(rows, j)
    requires i < |rows| && k < |ColumnFragments(render, rows, j)[i]|
    ensures |ExplodeColumn(render, rows, width, j)| == Total(ColumnFragments(render, rows, j), |rows|)
    ensures Total(ColumnFragments(render, rows, j), i) + k < |ExplodeColumn(render, rows, width, j)|
    ensures ExplodeColumn(render, rows, width, j)[Total(ColumnFragments(render, rows, j), i) + k]
         == rows[i][j := Text(ColumnFragments(render, rows, j)[i][k])]
  {
    var frags := ColumnFragments(render, rows, j);
    ExplodeColumnMarked(render, rows, width, j);
    SplitWithAt(rows, j, frags, i, k);
  }

  /** A marked column is split with its own fragments, then exploded. */
  lemma ExplodeColumnMarked(render: string -> string, rows: seq<seq<Cell>>, width: nat, j: nat)
    requires Rectangular(rows, width) && j < width && NoLists(rows)
    requires Marked(render, Column(rows, j))
    requires ScalarColumn(rows, j)
    ensures forall m | 0 <= m < |rows| :: j < |SplitWith(rows, j, ColumnFragments(render, rows, j))[m]|
    ensures ExplodeColumn(render, rows, width, j) == ExplodeRows(SplitWith(rows, j, ColumnFragments(render, rows, j)), j)
  {
  }

  /** `row` is a copy of some row of `rows` with one of its fragments, as
      text, in column `j`. */
  ghost predicate FragmentCopy(render: string -> string, rows: seq<seq<Cell>>, j: nat, row: seq<Cell>)
    requires ScalarColumn(rows, j)
  {
    var frags := ColumnFragments(render, rows, j);
    exists i, k | 0 <= i < |rows| && 0 <= k < |frags[i]| :: row == rows[i][j := Text(frags[i][k])]
  }

  /** Conversely, every row of an exploded column is a copy of some row with
      one of its fragments in place. */
  lemma ExplodedColumnSource(render: string -> string, rows: seq<seq<Cell>>, width: nat, j: nat)
    requires Rectangular(rows, width) && j < width && NoLists(rows)
    requires Marked(render, Column(rows, j))
    requires ScalarColumn(rows, j)
    ensures var r := ExplodeColumn(render, rows, width, j);
      forall o | 0 <= o < |r| :: FragmentCopy(render, rows, j, r[o])
  {
    var frags := ColumnFragments(render, rows, j);
    var r := ExplodeColumn(render, rows, width, j);
    ExplodeColumnMarked(render, rows, width, j);
    forall o | 0 <= o < |r| ensures FragmentCopy(render, rows, j, r[o]) {
      var i, k := SplitWithSource(rows, j, frags, o);
    }
  }

  /** The loop after its first `n` steps: columns `0..n-1` visited in order,
      each seeing the rows the earlier explosions produced. */
  function ExplodeColumns(render: string -> string, rows: seq<seq<Cell>>, width: nat, n: nat): (r: seq<seq<Cell>>)
    requires Rectangular(rows, width) && n <= width && NoLists(rows)
    ensures Rectangular(r, width) && NoLists(r)
    ensures |r| >= |rows|
  {
    if n == 0 then rows
    else ExplodeColumn(render, ExplodeColumns(render, rows, width, n - 1), width, n - 1)
  }

  /** `_explode_multivalues`: the names stay, the rows are exploded column by
      column from the left. */
  function ExplodeAll(render: string -> string, t: Table): (r: Table)
    requires WellFormed(t) && NoLists(t.rows)
    ensures r.names == t.names && WellFormed(r) && NoLists(r.rows)
    ensures |r.rows| >= |t.rows|
  {
    Table(t.names, ExplodeColumns(render, t.rows, |t.names|, |t.names|))
  }

  lemma {:induction false} TotalAtLeast(frags: seq<seq<string>>, n: nat)
    requires n <= |frags| && forall i | 0 <= i < |frags| :: |frags[i]| > 0
    ensures Total(frags, n) >= n
  {
    if n > 0 {
      TotalAtLeast(frags, n - 1);
    }
  }

  /** No value in the rows has a comma in its text. */
  predicate CommaFree(render: string -> string, rows: seq<seq<Cell>>)
    requires NoLists(rows)
  {
    forall i, m | 0 <= i < |rows| && 0 <= m < |rows[i]| :: ',' !in AsText(render, rows[i][m])
  }

  /** The fragments of comma-free text are comma-free. */
  lemma FragmentsCommaFree(render: string -> string, c: Cell)
    requires !IsList(c) && ',' !in AsText(render, c)
    ensures forall k | 0 <= k < |Fragments(render, c)| :: ',' !in Fragments(render, c)[k]
  {
    var s := AsText(render, c);
    var pieces := Split(s);
    SplitPiecesFrom(s);
    forall k | 0 <= k < |pieces| ensures ',' !in Strip(pieces[k]) {
      assert forall i | 0 <= i < |pieces[k]| :: pieces[k][i] in s;
      StripOmits(pieces[k], ',');
    }
  }

  /** Stripping adds no character. */
  lemma StripOmits(s: string, ch: char)
    requires ch !in s
    ensures ch !in Strip(s)
  {
    var a, b := StripSlice(s);
    assert forall t | 0 <= t < b - a :: Strip(s)[t] == s[a + t];
  }

  /** Exploding a column keeps the rows comma-free. */
  lemma ExplodeColumnCommaFree(render: string -> string, rows: seq<seq<Cell>>, width: nat, j: nat)
    requires Rectangular(rows, width) && j < width && NoLists(rows)
    requires CommaFree(render, rows)
    ensures CommaFree(render, ExplodeColumn(render, rows, width, j))
  {
    if Marked(render, Column(rows, j)) {
      SplitColumnShape(render, rows, width, j);
      var frags := ColumnFragments(render, rows, j);
      ColumnFragmentsCommaFree(render, rows, j);
      ExplodeColumnMarked(render, rows, width, j);
      SplitWithCommaFree(render, rows, width, j, frags);
    }
  }

  /** The fragments of a comma-free column are comma-free. */
  lemma ColumnFragmentsCommaFree(render: string -> string, rows: seq<seq<Cell>>, j: nat)
    requires ScalarColumn(rows, j) && NoLists(rows) && CommaFree(render, rows)
    ensures forall i, k | 0 <= i < |rows| && 0 <= k < |ColumnFragments(render, rows, j)[i]| ::
      ',' !in ColumnFragments(render, rows, j)[i][k]
  {
    forall i | 0 <= i < |rows| ensures forall k | 0 <= k < |ColumnFragments(render, rows, j)[i]| :: ',' !in ColumnFragments(render, rows, j)[i][k] {
      ColumnFragmentsAt(render, rows, j, i);
      FragmentsCommaFree(render, rows[i][j]);
    }
  }

  /** Splitting comma-free rows into comma-free fragments and exploding them
      leaves comma-free rows. */
  lemma SplitWithCommaFree(render: string -> string, rows: seq<seq<Cell>>, width: nat, j: nat, frags: seq<seq<string>>)
    requires Rectangular(rows, width) && j < width && NoLists(rows) && CommaFree(render, rows)
    requires |frags| == |rows| && forall i | 0 <= i < |rows| :: |frags[i]| > 0
    requires forall i, k | 0 <= i < |rows| && 0 <= k < |frags[i]| :: ',' !in frags[i][k]
    ensures forall m | 0 <= m < |rows| :: j < |SplitWith(rows, j, frags)[m]|
    ensures forall o, m | 0 <= o < |ExplodeRows(SplitWith(rows, j, frags), j)| && 0 <= m < |ExplodeRows(SplitWith(rows, j, frags), j)[o]| ::
      !IsList(ExplodeRows(SplitWith(rows, j, frags), j)[o][m]) &&
      ',' !in AsText(render, ExplodeRows(SplitWith(rows, j, frags), j)[o][m])
  {
    var r := ExplodeRows(SplitWith(rows, j, frags), j);
    forall o, m | 0 <= o < |r| && 0 <= m < |r[o]| ensures !IsList(r[o][m]) && ',' !in AsText(render, r[o][m]) {
      var i, k := SplitWithSource(rows, j, frags, o);
      assert r[o][m] == if m == j then Text(frags[i][k]) else rows[i][m];
    }
  }

  /** Comma-free rows stay comma-free through the whole loop. */
  lemma {:induction false} ExplodeColumnsCommaFree(render: string -> string, rows: seq<seq<Cell>>, width: nat, n: nat)
    requires Rectangular(rows, width) && n <= width && NoLists(rows)
    requires CommaFree(render, rows)
    ensures CommaFree(render, ExplodeColumns(render, rows, width, n))
  {
    if n > 0 {
      ExplodeColumnsCommaFree(render, rows, width, n - 1);
      ExplodeColumnsStepCommaFree(render, rows, width, n);
    }
  }

  lemma ExplodeColumnsStepCommaFree(render: string -> string, rows: seq<seq<Cell>>, width: nat, n: nat)
    requires Rectangular(rows, width) && 0 < n <= width && NoLists(rows)
    requires CommaFree(render, ExplodeColumns(render, rows, width, n - 1))
    ensures CommaFree(render, ExplodeColumns(render, rows, width, n))
  {
    var before := ExplodeColumns(render, rows, width, n - 1);
    var after := ExplodeColumn(render, before, width, n - 1);
    assert CommaFree(render, after) by {
      ExplodeColumnCommaFree(render, before, width, n - 1);
    }
    assert ExplodeColumns(render, rows, width, n) == after;
  }

  /** Hence the "," alternative of the pattern never cuts a value anywhere in
      the loop. */
  lemma ExplodeColumnsNoCommaCut(render: string -> string, rows: seq<seq<Cell>>, width: nat, n: nat)
    requires Rectangular(rows, width) && n <= width && NoLists(rows)
    requires CommaFree(render, rows)
    ensures forall i, m | 0 <= i < |ExplodeColumns(render, rows, width, n)| && 0 <= m < width ::
      "," !in Separators(AsText(render, ExplodeColumns(render, rows, width, n)[i][m]))
  {
    ExplodeColumnsCommaFree(render, rows, width, n);
    var r := ExplodeColumns(render, rows, width, n);
    forall i, m | 0 <= i < |r| && 0 <= m < width ensures "," !in Separators(AsText(render, r[i][m])) {
      NoCommaCut(AsText(render, r[i][m]));
    }
  }

  /** When every piece is already stripped the pieces are the fragments. */
  lemma FragmentsOfStripped(render: string -> string, c: Cell, pieces: seq<string>)
    requires !IsList(c) && Split(AsText(render, c)) == pieces
    requires forall k | 0 <= k < |pieces| :: Stripped(pieces[k])
    ensures Fragments(render, c) == pieces
  {
    StripEachFixpoint(pieces);
  }

  /** "A/B C" (what "A/B, C" becomes once its comma is gone) splits at the
      slash only. */
  lemma SlashThenSpace(render: string -> string)
    ensures Fragments(render, Text("A/B C")) == ["A", "B C"]
  {
    SlashThenSpaceSplit();
    FragmentsOfStripped(render, Text("A/B C"), ["A", "B C"]);
  }

  lemma SlashThenSpaceSplit()
    ensures Split("A/B C") == ["A", "B C"]
  {
    NoSepSingle("A");
    NoSepBSpaceC();
    JoinTwo("A", "B C", "/");
    assert "A" + "/" + "B C" == "A/B C";
    SplitJoin(["A", "B C"]);
  }

  lemma NoSepBSpaceC()
    ensures NoSep("B C")
  {
    assert "B C"[0..3] != Conjunction by {
      assert "B C"[0..3][0] == 'B';
    }
  }

  lemma NoSepSingle(s: string)
    requires |s| == 1 && !IsSepChar(s[0])
    ensures NoSep(s)
  {
  }

  /** Adjacent separators leave an empty fragment between them: "a//b"
      gives `a`, the empty text and `b`. */
  lemma EmptyFragmentKept(render: string -> string, a: string, b: string)
    requires NoSep(a) && NoSep(b) && Stripped(a) && Stripped(b)
    ensures Fragments(render, Text(a + "//" + b)) == [a, "", b]
  {
    JoinThree(a, "", b, "/");
    assert a + "/" + "" + "/" + b == a + "//" + b;
    SplitJoin([a, "", b]);
    FragmentsOfStripped(render, Text(a + "//" + b), [a, "", b]);
  }

  /** In a marked column a missing value is split as the text "nan". */
  lemma MissingBecomesNan(render: string -> string)
    ensures Fragments(render, Empty) == ["nan"]
  {
    NanSplit();
    FragmentsOfStripped(render, Empty, ["nan"]);
  }

  lemma NanSplit()
    ensures Split("nan") == ["nan"]
  {
    NoSepNan();
    SplitNoSep("nan");
  }

  lemma NoSepNan()
    ensures NoSep("nan")
  {
    assert "nan"[0..3] != Conjunction by {
      assert "nan"[0..3][0] == 'n';
    }
  }
}

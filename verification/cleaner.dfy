/** `HierarchicalCleaner.get_clean_dataframe` after the file is read: the grid
    of raw cells (every column read as text) is normalised, the first data row
    is found, the rows above it become column names, the data block is
    extracted, multi-valued columns are exploded and numeric columns are
    typed. */
module Cleaner {
  import opened Text
  import opened Cells
  import opened Normalization
  import opened StartRow
  import opened Headers
  import opened Extraction
  import opened Splitting
  import opened Explosion
  import opened Inference

  /** `raw_df.map(_normalize_value)`: every cell normalised on its own. */
  function NormalizeGrid(grid: seq<seq<RawCell>>): (rows: seq<seq<Cell>>)
    ensures |rows| == |grid| && NoLists(rows)
    ensures forall i | 0 <= i < |grid| :: |rows[i]| == |grid[i]|
    ensures forall i, j | 0 <= i < |grid| && 0 <= j < |grid[i]| :: rows[i][j] == Normalize(grid[i][j])
  {
    seq(|grid|, i requires 0 <= i < |grid| => seq(|grid[i]|, j requires 0 <= j < |grid[i]| => Normalize(grid[i][j])))
  }

  /** The first row of data in the normalised grid. */
  function Start(grid: seq<seq<RawCell>>): (start: nat)
    ensures start <= |grid|
  {
    DetectStart(NormalizeGrid(grid))
  }

  /** The resolved column names: one per grid column, from the rows above the
      start. */
  function Names(render: string -> string, grid: seq<seq<RawCell>>, width: nat): (names: seq<string>)
    requires Rectangular(grid, width)
    ensures |names| == width
  {
    var rows := NormalizeGrid(grid);
    var header := rows[..Start(grid)];
    assert Rectangular(header, width) && NoLists(header) by {
      assert forall i | 0 <= i < |header| :: header[i] == rows[i];
    }
    ResolveHeaders(render, header, width)
  }

  /** The data table as it enters the explosion. */
  function Extracted(render: string -> string, grid: seq<seq<RawCell>>, width: nat): (t: Table)
    requires Rectangular(grid, width)
    ensures WellFormed(t) && NoLists(t.rows)
  {
    ExtractData(Names(render, grid, width), NormalizeGrid(grid), Start(grid))
  }

  /** The table as it enters type inference. */
  function Exploded(render: string -> string, grid: seq<seq<RawCell>>, width: nat): (t: Table)
    requires Rectangular(grid, width)
    ensures WellFormed(t) && NoLists(t.rows)
  {
    ExplodeAll(render, Extracted(render, grid, width))
  }

  /** The cleaned table. */
  function Clean(render: string -> string, parse: string -> Option<string>, grid: seq<seq<RawCell>>, width: nat): (t: Table)
    requires Rectangular(grid, width)
    ensures WellFormed(t) && NoLists(t.rows)
    ensures t.names == Extracted(render, grid, width).names
  {
    InferTypes(parse, Exploded(render, grid, width))
  }

  /** The list guard of type inference never fires inside the pipeline: the
      explosion leaves no list behind, so every column is a candidate for
      numeric conversion. */
  lemma ListGuardNeverFires(render: string -> string, grid: seq<seq<RawCell>>, width: nat)
    requires Rectangular(grid, width)
    ensures var t := Exploded(render, grid, width);
      forall m | 0 <= m < |t.names| :: !HasList(Column(t.rows, m))
  {
    var t := Exploded(render, grid, width);
    NoListColumns(t.rows, |t.names|);
  }

  lemma NoListColumns(rows: seq<seq<Cell>>, width: nat)
    requires Rectangular(rows, width) && NoLists(rows)
    ensures forall m | 0 <= m < width :: !HasList(Column(rows, m))
  {
    forall m, i | 0 <= m < width && 0 <= i < |rows| ensures !IsList(Column(rows, m)[i]) {
      assert Column(rows, m)[i] == rows[i][m];
    }
  }

  /** Every normalised cell reads without a comma, provided the rendering of a
      float never has one (Python's `str(float)` has none). */
  lemma NormalizedCommaFree(render: string -> string, c: RawCell)
    requires forall lit :: ',' !in render(lit)
    ensures ',' !in AsText(render, Normalize(c))
  {
  }

  /** The extracted table reads without a comma. */
  lemma ExtractedCommaFree(render: string -> string, grid: seq<seq<RawCell>>, width: nat)
    requires Rectangular(grid, width)
    requires forall lit :: ',' !in render(lit)
    ensures CommaFree(render, Extracted(render, grid, width).rows)
  {
    var t := Extracted(render, grid, width);
    ExtractedCellSource(render, grid, width);
    forall i, k | 0 <= i < |t.rows| && 0 <= k < |t.rows[i]| ensures ',' !in AsText(render, t.rows[i][k]) {
      var c :| t.rows[i][k] == Normalize(c);
      NormalizedCommaFree(render, c);
    }
  }

  /** `cell` is what normalisation makes of some raw cell. */
  ghost predicate IsNormalized(cell: Cell) {
    exists c: RawCell :: cell == Normalize(c)
  }

  /** Every extracted cell is the normalisation of some raw cell. */
  lemma ExtractedCellSource(render: string -> string, grid: seq<seq<RawCell>>, width: nat)
    requires Rectangular(grid, width)
    ensures var t := Extracted(render, grid, width);
      forall i, k | 0 <= i < |t.rows| && 0 <= k < |t.names| :: IsNormalized(t.rows[i][k])
  {
    var t := Extracted(render, grid, width);
    forall i, k | 0 <= i < |t.rows| && 0 <= k < |t.names| ensures IsNormalized(t.rows[i][k]) {
      var r, j := ExtractedCellOrigin(Names(render, grid, width), NormalizeGrid(grid), Start(grid), i, k);
      assert t.rows[i][k] == Normalize(grid[r][j]);
    }
  }

  /** The "," alternative of the separator pattern never cuts a value: the
      commas went in normalisation, so at every step of the explosion loop
      every cell still reads without one. */
  lemma CommaNeverSplits(render: string -> string, grid: seq<seq<RawCell>>, width: nat)
    requires Rectangular(grid, width)
    requires forall lit :: ',' !in render(lit)
    ensures var t := Extracted(render, grid, width);
      forall n | 0 <= n <= |t.names| :: CommaFree(render, ExplodeColumns(render, t.rows, |t.names|, n))
    ensures var t := Extracted(render, grid, width);
      forall n, i, m | 0 <= n <= |t.names| && 0 <= i < |ExplodeColumns(render, t.rows, |t.names|, n)| && 0 <= m < |t.names| ::
        "," !in Separators(AsText(render, ExplodeColumns(render, t.rows, |t.names|, n)[i][m]))
  {
    var t := Extracted(render, grid, width);
    ExtractedCommaFree(render, grid, width);
    forall n | 0 <= n <= |t.names|
      ensures CommaFree(render, ExplodeColumns(render, t.rows, |t.names|, n))
      ensures forall i, m | 0 <= i < |ExplodeColumns(render, t.rows, |t.names|, n)| && 0 <= m < |t.names| ::
        "," !in Separators(AsText(render, ExplodeColumns(render, t.rows, |t.names|, n)[i][m]))
    {
      ExplodeColumnsCommaFree(render, t.rows, |t.names|, n);
      ExplodeColumnsNoCommaCut(render, t.rows, |t.names|, n);
    }
  }

  /** `name` is the positional name of one of the first `width` columns. */
  predicate IsPositional(name: string, width: nat) {
    exists j | 0 <= j < width :: name == PositionalName(j)
  }

  /** With no header row every surviving column is named by its position in
      the grid. */
  lemma HeaderlessNamesArePositional(render: string -> string, parse: string -> Option<string>, grid: seq<seq<RawCell>>, width: nat)
    requires Rectangular(grid, width)
    ensures var names := Clean(render, parse, grid, width).names;
      Start(grid) == 0 ==> forall k | 0 <= k < |names| :: IsPositional(names[k], width)
  {
    if Start(grid) == 0 {
      var names := Clean(render, parse, grid, width).names;
      assert names == Extracted(render, grid, width).names;
      forall k | 0 <= k < |names| ensures IsPositional(names[k], width) {
        var j := ExtractedNameOrigin(Names(render, grid, width), NormalizeGrid(grid), Start(grid), k);
        assert Names(render, grid, width)[j] == PositionalName(j);
      }
    }
  }

  /** Every data row with a value survives to the end, at least once. */
  lemma DataRowsSurvive(render: string -> string, parse: string -> Option<string>, grid: seq<seq<RawCell>>, width: nat)
    requires Rectangular(grid, width)
    ensures var rows := NormalizeGrid(grid);
      |Clean(render, parse, grid, width).rows| >= |RowsKept(rows[Start(grid)..])|
  {
  }

  /** "A/B, C": normalisation drops the comma, so the value explodes at the
      slash alone, into "A" and "B C". */
  lemma CommaGoneBeforeSplit(render: string -> string)
    ensures Normalize(Some("A/B, C")) == Text("A/B C")
    ensures Fragments(render, Normalize(Some("A/B, C"))) == ["A", "B C"]
  {
    CommaGoneNormal();
    SlashThenSpace(render);
  }

  lemma CommaGoneNormal()
    ensures Normalize(Some("A/B, C")) == Text("A/B C")
  {
    CommaGoneText();
    CommaGoneNotNumeric();
    NormalizeToText("A/B, C", "A/B C");
  }

  lemma CommaGoneNotNumeric()
    ensures MatchedLiteral("A/B C").None?
  {
    NotNumericAtEnd("A/B C");
  }

  lemma CommaGoneText()
    ensures NormalText("A/B, C") == "A/B C"
  {
    StripFixpoint("A/B, C");
    TranslateDigitsNone("A/B, C");
    CommaGoneRemoved();
  }

  lemma CommaGoneRemoved()
    ensures RemoveCommas("A/B, C") == "A/B C"
  {
    RemoveCommasAround("A/B", " C");
    assert "A/B" + "," + " C" == "A/B, C";
  }
}

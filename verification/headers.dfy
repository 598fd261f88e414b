/** The label clean-up applied to each header level. */
module Labels {
  import opened Text

  /** A label the cleaner drops: empty, or "nan" / "none" in any letter case. */
  predicate IsNullLabel(s: string) {
    s == "" || Lower(s) == "nan" || Lower(s) == "none"
  }

  /** `[l.strip() for l in levels if l.strip().lower() not in ['nan', 'none', '']]`. */
  function CleanLevels(levels: seq<string>): (r: seq<string>)
    ensures |r| <= |levels|
    ensures forall k | 0 <= k < |r| :: Stripped(r[k]) && !IsNullLabel(r[k])
  {
    if |levels| == 0 then []
    else
      var p := CleanLevels(levels[..|levels| - 1]);
      var l := Strip(levels[|levels| - 1]);
      if IsNullLabel(l) then p else p + [l]
  }

  function StripEach(xs: seq<string>): (r: seq<string>)
    ensures |r| == |xs| && forall k | 0 <= k < |xs| :: r[k] == Strip(xs[k])
  {
    if |xs| == 0 then [] else StripEach(xs[..|xs| - 1]) + [Strip(xs[|xs| - 1])]
  }

  /** Stripping every string of a list of stripped strings changes nothing. */
  lemma StripEachFixpoint(xs: seq<string>)
    requires forall k | 0 <= k < |xs| :: Stripped(xs[k])
    ensures StripEach(xs) == xs
  {
    forall k | 0 <= k < |xs| ensures StripEach(xs)[k] == xs[k] {
      StripFixpoint(xs[k]);
    }
  }

  /** The kept fragments are exactly the stripped levels that are not null. */
  lemma {:induction false} CleanLevelsMembers(levels: seq<string>, x: string)
    ensures x in CleanLevels(levels) <==> !IsNullLabel(x) && x in StripEach(levels)
  {
    if |levels| > 0 {
      var p := levels[..|levels| - 1];
      var l := Strip(levels[|levels| - 1]);
      CleanLevelsMembers(p, x);
    }
  }

  /** One level is kept, stripped, unless it is a null label. */
  lemma CleanLevelsOne(l: string)
    ensures CleanLevels([l]) == if IsNullLabel(Strip(l)) then [] else [Strip(l)]
  {
    assert [l][..0] == [];
  }

  /** The clean-up works level by level: cleaning a concatenation is
      concatenating the cleaned parts, so kept levels keep their order. */
  lemma {:induction false} CleanLevelsAppend(a: seq<string>, b: seq<string>)
    ensures CleanLevels(a + b) == CleanLevels(a) + CleanLevels(b)
    decreases |b|
  {
    if |b| > 0 {
      var b' := b[..|b| - 1];
      CleanLevelsAppend(a, b');
      assert (a + b)[..|a + b| - 1] == a + b';
      assert (a + b)[|a + b| - 1] == b[|b| - 1];
    } else {
      assert a + b == a;
    }
  }

  /** Every kept level is the stripped form of an input level. */
  lemma {:induction false} CleanLevelsSource(levels: seq<string>, p: nat) returns (i: nat)
    requires p < |CleanLevels(levels)|
    ensures i < |levels| && CleanLevels(levels)[p] == Strip(levels[i])
  {
    var pre := levels[..|levels| - 1];
    var cp := CleanLevels(pre);
    if p < |cp| {
      i := CleanLevelsSource(pre, p);
      assert pre[i] == levels[i];
    } else {
      i := |levels| - 1;
    }
  }

  /** Kept levels come in input order: an earlier kept level is the stripped
      form of an earlier input level. */
  lemma {:induction false} CleanLevelsOrder(levels: seq<string>, p: nat, q: nat) returns (i: nat, j: nat)
    requires p < q < |CleanLevels(levels)|
    ensures i < j < |levels|
    ensures CleanLevels(levels)[p] == Strip(levels[i]) && CleanLevels(levels)[q] == Strip(levels[j])
  {
    var pre := levels[..|levels| - 1];
    var cp := CleanLevels(pre);
    if q < |cp| {
      i, j := CleanLevelsOrder(pre, p, q);
      assert pre[i] == levels[i] && pre[j] == levels[j];
    } else {
      i := CleanLevelsSource(pre, p);
      assert pre[i] == levels[i];
      j := |levels| - 1;
    }
  }
}

/** Header resolution (the header half of `get_clean_dataframe`): the rows
    above the start row are forward-filled along each row, then down each
    column, and every column is named after the distinct labels it collects. */
module Headers {
  import opened Text
  import opened Cells
  import opened Labels

  /** `ffill(axis=1)` on one row: a missing cell takes the nearest present
      value to its left; missing cells before the first present one stay
      missing. */
  function FillRow(row: seq<Cell>): (r: seq<Cell>)
    ensures |r| == |row|
    ensures forall i | 0 <= i < |row| :: row[i] != Empty ==> r[i] == row[i]
    ensures forall i | 0 <= i < |row| :: r[i] == Empty || r[i] in row
  {
    if |row| == 0 then []
    else
      var p := FillRow(row[..|row| - 1]);
      var last := row[|row| - 1];
      p + [if last != Empty then last else if |p| > 0 then p[|p| - 1] else Empty]
  }

  /** What forward filling should leave at `i`, stated without recursion:
      missing exactly when the row is missing up to `i`, and otherwise the
      present value at the last position `k <= i` after which the row is
      missing up to `i`. */
  predicate FilledFrom(row: seq<Cell>, i: nat, v: Cell)
    requires i < |row|
  {
    (v == Empty <==> forall k | 0 <= k <= i :: row[k] == Empty) &&
    (v != Empty ==> exists k | 0 <= k <= i :: v == row[k] && forall m | k < m <= i :: row[m] == Empty)
  }

  /** `FillRow` fills every position the way `FilledFrom` says. */
  lemma {:induction false} FillRowNearest(row: seq<Cell>, i: nat)
    requires i < |row|
    ensures FilledFrom(row, i, FillRow(row)[i])
  {
    var p := row[..|row| - 1];
    var r := FillRow(row);
    if i < |p| {
      FillRowNearest(p, i);
      assert r[i] == FillRow(p)[i];
      FilledPrefix(row, i, r[i]);
    } else if row[i] != Empty {
      FilledHere(row, i);
    } else if i > 0 {
      FillRowNearest(p, i - 1);
      assert r[i] == FillRow(p)[i - 1];
      FilledCarry(row, i, r[i]);
    } else {
      assert r[0] == Empty;
    }
  }

  lemma FilledPrefix(row: seq<Cell>, i: nat, v: Cell)
    requires i < |row| - 1 && FilledFrom(row[..|row| - 1], i, v)
    ensures FilledFrom(row, i, v)
  {
    var p := row[..|row| - 1];
    assert forall k | 0 <= k <= i :: p[k] == row[k];
    if v != Empty {
      var k :| 0 <= k <= i && v == p[k] && forall m | k < m <= i :: p[m] == Empty;
      assert v == row[k] && forall m | k < m <= i :: row[m] == Empty;
    }
  }

  lemma FilledHere(row: seq<Cell>, i: nat)
    requires i < |row| && row[i] != Empty
    ensures FilledFrom(row, i, row[i])
  {
  }

  lemma FilledCarry(row: seq<Cell>, i: nat, v: Cell)
    requires 0 < i == |row| - 1 && row[i] == Empty && FilledFrom(row[..|row| - 1], i - 1, v)
    ensures FilledFrom(row, i, v)
  {
    var p := row[..|row| - 1];
    assert forall k | 0 <= k < i :: p[k] == row[k];
    if v != Empty {
      var k :| 0 <= k <= i - 1 && v == p[k] && forall m | k < m <= i - 1 :: p[m] == Empty;
      assert v == row[k] && forall m | k < m <= i :: row[m] == Empty;
    }
  }

  /** One step of `ffill(axis=0)`: the row's missing cells take the value
      above. */
  function FillBelow(above: seq<Cell>, row: seq<Cell>): (r: seq<Cell>)
    requires |above| == |row|
    ensures |r| == |row|
  {
    seq(|row|, j requires 0 <= j < |row| => if row[j] != Empty then row[j] else above[j])
  }

  /** `ffill(axis=0)` over rows of the given width. */
  function FillDown(rows: seq<seq<Cell>>, width: nat): (r: seq<seq<Cell>>)
    requires Rectangular(rows, width)
    ensures |r| == |rows| && Rectangular(r, width)
    ensures NoLists(rows) ==> NoLists(r)
  {
    if |rows| == 0 then []
    else
      var p := FillDown(rows[..|rows| - 1], width);
      var above := if |p| == 0 then seq(width, _ => Empty) else p[|p| - 1];
      p + [FillBelow(above, rows[|rows| - 1])]
  }

  /** Filling down is filling each column the way `FillRow` fills a row. */
  lemma {:induction false} FillDownByColumn(rows: seq<seq<Cell>>, width: nat, j: nat)
    requires Rectangular(rows, width) && j < width
    ensures Column(FillDown(rows, width), j) == FillRow(Column(rows, j))
  {
    if |rows| > 0 {
      var p := rows[..|rows| - 1];
      FillDownByColumn(p, width, j);
      assert Column(p, j) == Column(rows, j)[..|rows| - 1];
    }
  }

  /** The header block after both fills. */
  function FillHeader(header: seq<seq<Cell>>, width: nat): (r: seq<seq<Cell>>)
    requires Rectangular(header, width)
    ensures |r| == |header| && Rectangular(r, width)
    ensures NoLists(header) ==> NoLists(r)
  {
    var rowFilled := seq(|header|, i requires 0 <= i < |header| => FillRow(header[i]));
    assert NoLists(header) ==> NoLists(rowFilled) by {
      if NoLists(header) {
        forall i, j | 0 <= i < |header| && 0 <= j < width ensures !IsList(rowFilled[i][j]) {
          assert rowFilled[i][j] == Empty || rowFilled[i][j] in header[i];
        }
      }
    }
    FillDown(rowFilled, width)
  }

  /** The fragments a column contributes to its name. */
  function HeaderPath(render: string -> string, filled: seq<Cell>): seq<string>
    requires forall i | 0 <= i < |filled| :: !IsList(filled[i])
  {
    CleanLevels(Distinct(PresentTexts(render, filled)))
  }

  /** The fragments of a name come in order of first appearance: of two
      fragments, the earlier is the stripped form of a text that first shows
      up higher in the column's present cells than the text behind the later
      one. */
  lemma HeaderPathOrder(render: string -> string, filled: seq<Cell>, p: nat, q: nat) returns (s: string, t: string)
    requires forall i | 0 <= i < |filled| :: !IsList(filled[i])
    requires p < q < |HeaderPath(render, filled)|
    ensures s in PresentTexts(render, filled) && t in PresentTexts(render, filled)
    ensures HeaderPath(render, filled)[p] == Strip(s) && HeaderPath(render, filled)[q] == Strip(t)
    ensures FirstIndex(PresentTexts(render, filled), s) < FirstIndex(PresentTexts(render, filled), t)
  {
    var texts := PresentTexts(render, filled);
    var levels := Distinct(texts);
    var i, j := CleanLevelsOrder(levels, p, q);
    DistinctOrder(texts, i, j);
    s, t := levels[i], levels[j];
  }

  /** The positional name pandas gives column `j` of a frame read without a
      header. */
  function PositionalName(j: nat): string {
    "Column_" + NatToString(j)
  }

  function ColumnName(render: string -> string, filled: seq<Cell>, j: nat): string
    requires forall i | 0 <= i < |filled| :: !IsList(filled[i])
  {
    var path := HeaderPath(render, filled);
    if |path| > 0 then Join(path, " | ") else PositionalName(j)
  }

  /** One name per column of the header block. */
  function ResolveHeaders(render: string -> string, header: seq<seq<Cell>>, width: nat): (names: seq<string>)
    requires Rectangular(header, width) && NoLists(header)
    ensures |names| == width
    ensures |header| == 0 ==> forall j | 0 <= j < width :: names[j] == PositionalName(j)
  {
    var filled := FillHeader(header, width);
    seq(width, j requires 0 <= j < width => ColumnName(render, Column(filled, j), j))
  }

  lemma ResolveHeadersAt(render: string -> string, header: seq<seq<Cell>>, width: nat, j: nat)
    requires Rectangular(header, width) && NoLists(header) && j < width
    ensures ResolveHeaders(render, header, width)[j] == ColumnName(render, Column(FillHeader(header, width), j), j)
  {
  }

  /** The fragments of a column's name are exactly the stripped texts of its
      present filled cells that are not null labels; each is trimmed and
      non-null. */
  lemma HeaderPathMembers(render: string -> string, filled: seq<Cell>, x: string)
    requires forall i | 0 <= i < |filled| :: !IsList(filled[i])
    ensures x in HeaderPath(render, filled) <==>
      !IsNullLabel(x) && exists i | 0 <= i < |filled| :: filled[i] != Empty && Strip(AsText(render, filled[i])) == x
    ensures x in HeaderPath(render, filled) ==> Stripped(x)
  {
    var texts := PresentTexts(render, filled);
    var levels := Distinct(texts);
    CleanLevelsMembers(levels, x);
    if x in HeaderPath(render, filled) {
      var k :| 0 <= k < |levels| && StripEach(levels)[k] == x;
      DistinctMembers(texts, levels[k]);
      PresentTextsMembers(render, filled, levels[k]);
    }
    if !IsNullLabel(x) && exists i | 0 <= i < |filled| :: filled[i] != Empty && Strip(AsText(render, filled[i])) == x {
      var i :| 0 <= i < |filled| && filled[i] != Empty && Strip(AsText(render, filled[i])) == x;
      var t := AsText(render, filled[i]);
      PresentTextsMembers(render, filled, t);
      DistinctMembers(texts, t);
      var k :| 0 <= k < |levels| && levels[k] == t;
      assert StripEach(levels)[k] == x;
    }
  }

  /** A one-row header names each column after its own (row-filled) cell,
      trimmed; a missing or null cell gives the positional name. No " | "
      join occurs. */
  lemma SingleRowHeader(render: string -> string, row: seq<Cell>, j: nat)
    requires |row| > j && forall k | 0 <= k < |row| :: !IsList(row[k])
    ensures var c := FillRow(row)[j];
      ResolveHeaders(render, [row], |row|)[j] ==
        if c == Empty || IsNullLabel(Strip(AsText(render, c))) then PositionalName(j)
        else Strip(AsText(render, c))
  {
    ResolveHeadersAt(render, [row], |row|, j);
    OneRowColumn(row, j);
    SingleCellName(render, FillRow(row)[j], j);
  }

  lemma OneRowColumn(row: seq<Cell>, j: nat)
    requires j < |row|
    ensures Column(FillHeader([row], |row|), j) == [FillRow(row)[j]]
  {
    OneRowFillHeader(row);
  }

  lemma OneRowFillHeader(row: seq<Cell>)
    ensures FillHeader([row], |row|) == [FillRow(row)]
  {
    var header := [row];
    var rowFilled := seq(|header|, i requires 0 <= i < |header| => FillRow(header[i]));
    assert rowFilled == [FillRow(row)];
    FillDownOneRow(FillRow(row), |row|);
  }

  lemma FillDownOneRow(row: seq<Cell>, width: nat)
    requires |row| == width
    ensures FillDown([row], width) == [row]
  {
    assert [row][..0] == [];
    assert FillBelow(seq(width, _ => Empty), row) == row;
  }

  /** The name a column whose header has a single cell receives. */
  lemma SingleCellName(render: string -> string, c: Cell, j: nat)
    requires !IsList(c)
    ensures ColumnName(render, [c], j) ==
      if c == Empty || IsNullLabel(Strip(AsText(render, c))) then PositionalName(j)
      else Strip(AsText(render, c))
  {
    if c == Empty {
      EmptyCellPath(render);
    } else {
      var t := AsText(render, c);
      PresentCellPath(render, c);
      CleanOne(t);
      if !IsNullLabel(Strip(t)) {
        JoinOne(Strip(t), " | ");
      }
    }
  }

  lemma EmptyCellPath(render: string -> string)
    ensures HeaderPath(render, [Empty]) == []
  {
    PresentTextsSnoc(render, [], Empty);
    assert [] + [Empty] == [Empty];
  }

  lemma PresentCellPath(render: string -> string, c: Cell)
    requires !IsList(c) && c != Empty
    ensures HeaderPath(render, [c]) == CleanLevels([AsText(render, c)])
  {
    var t := AsText(render, c);
    PresentTextsSnoc(render, [], c);
    assert [] + [c] == [c];
    DistinctSnoc([], t);
    assert [] + [t] == [t];
  }

  lemma CleanOne(t: string)
    ensures CleanLevels([t]) == if IsNullLabel(Strip(t)) then [] else [Strip(t)]
  {
    assert [t][..0] == [];
  }

  /** A label that survives clean-up unchanged. */
  predicate UsableLabel(x: string) {
    Stripped(x) && !IsNullLabel(x)
  }

  /** Two distinct usable labels stacked in a column give "top | bottom". */
  lemma TwoLevelName(render: string -> string, top: string, bottom: string, j: nat)
    requires UsableLabel(top) && UsableLabel(bottom) && top != bottom
    ensures ColumnName(render, [Text(top), Text(bottom)], j) == top + " | " + bottom
  {
    TwoTexts(render, top, bottom);
    TwoDistinct(top, bottom);
    TwoClean(top, bottom);
    JoinTwo(top, bottom, " | ");
  }

  lemma TwoTexts(render: string -> string, top: string, bottom: string)
    ensures PresentTexts(render, [Text(top), Text(bottom)]) == [top, bottom]
  {
    var col := [Text(top), Text(bottom)];
    assert col[..1] == [Text(top)] && col[..1][..0] == [];
  }

  lemma TwoDistinct(top: string, bottom: string)
    requires top != bottom
    ensures Distinct([top, bottom]) == [top, bottom]
  {
    var d := [top, bottom];
    assert d[..1] == [top] && d[..1][..0] == [];
    assert Distinct([top]) == [top];
  }

  lemma TwoClean(top: string, bottom: string)
    requires UsableLabel(top) && UsableLabel(bottom)
    ensures CleanLevels([top, bottom]) == [top, bottom]
  {
    StripFixpoint(top);
    StripFixpoint(bottom);
    var d := [top, bottom];
    assert d[..1] == [top] && d[..1][..0] == [];
  }

  /** A usable label over three usable sub-labels that all differ from it. */
  predicate MergedLabels(l: string, s1: string, s2: string, s3: string) {
    UsableLabel(l) && UsableLabel(s1) && UsableLabel(s2) && UsableLabel(s3) && l != s1 && l != s2 && l != s3
  }

  /** A label in the top row with two blank cells to its right, over three
      distinct sub-labels, names the three columns "label | sub". */
  lemma MergedHeader(render: string -> string, l: string, s1: string, s2: string, s3: string)
    requires MergedLabels(l, s1, s2, s3)
    ensures ResolveHeaders(render, [[Text(l), Empty, Empty], [Text(s1), Text(s2), Text(s3)]], 3)
         == [l + " | " + s1, l + " | " + s2, l + " | " + s3]
  {
    MergedShape(l, s1, s2, s3);
    MergedFill(l, s1, s2, s3);
    MergedNames(render, l, s1, s2, s3);
    NamesFromFilled(render, [[Text(l), Empty, Empty], [Text(s1), Text(s2), Text(s3)]], 3,
      [[Text(l), Text(l), Text(l)], [Text(s1), Text(s2), Text(s3)]], [l + " | " + s1, l + " | " + s2, l + " | " + s3]);
  }

  lemma MergedShape(l: string, s1: string, s2: string, s3: string)
    ensures Rectangular([[Text(l), Empty, Empty], [Text(s1), Text(s2), Text(s3)]], 3)
    ensures NoLists([[Text(l), Empty, Empty], [Text(s1), Text(s2), Text(s3)]])
  {
  }

  /** The columns of the filled merged header and the names they give. */
  lemma MergedNames(render: string -> string, l: string, s1: string, s2: string, s3: string)
    requires MergedLabels(l, s1, s2, s3)
    ensures forall j | 0 <= j < 3 ::
      ColumnName(render, Column([[Text(l), Text(l), Text(l)], [Text(s1), Text(s2), Text(s3)]], j), j)
      == [l + " | " + s1, l + " | " + s2, l + " | " + s3][j]
  {
    var filled := [[Text(l), Text(l), Text(l)], [Text(s1), Text(s2), Text(s3)]];
    forall j | 0 <= j < 3 ensures ColumnName(render, Column(filled, j), j) == [l + " | " + s1, l + " | " + s2, l + " | " + s3][j] {
      var s := [s1, s2, s3][j];
      MergedColumnCells(l, s1, s2, s3, j, s);
      StackedName(render, Column(filled, j), l, s, j);
    }
  }

  /** The names of a header block whose fill is known. */
  lemma NamesFromFilled(render: string -> string, header: seq<seq<Cell>>, width: nat, filled: seq<seq<Cell>>, names: seq<string>)
    requires Rectangular(header, width) && NoLists(header)
    requires FillHeader(header, width) == filled
    requires |names| == width && forall j | 0 <= j < width :: ColumnName(render, Column(filled, j), j) == names[j]
    ensures ResolveHeaders(render, header, width) == names
  {
  }

  /** Column `j` of the filled merged header. */
  lemma MergedColumnCells(l: string, s1: string, s2: string, s3: string, j: nat, s: string)
    requires j < 3 && s == [s1, s2, s3][j]
    ensures Column([[Text(l), Text(l), Text(l)], [Text(s1), Text(s2), Text(s3)]], j) == [Text(l), Text(s)]
  {
  }

  lemma StackedName(render: string -> string, col: seq<Cell>, top: string, bottom: string, j: nat)
    requires UsableLabel(top) && UsableLabel(bottom) && top != bottom
    requires col == [Text(top), Text(bottom)]
    ensures ColumnName(render, col, j) == top + " | " + bottom
  {
    TwoLevelName(render, top, bottom, j);
  }

  /** Both fills of the merged header: the label spreads right, the sub-labels
      are already full. */
  lemma MergedFill(l: string, s1: string, s2: string, s3: string)
    ensures FillHeader([[Text(l), Empty, Empty], [Text(s1), Text(s2), Text(s3)]], 3)
         == [[Text(l), Text(l), Text(l)], [Text(s1), Text(s2), Text(s3)]]
  {
    var top := [Text(l), Empty, Empty];
    var sub := [Text(s1), Text(s2), Text(s3)];
    var header := [top, sub];
    var spread := [Text(l), Text(l), Text(l)];
    TopRowFill(l);
    FullRowFill(sub);
    var rowFilled := seq(|header|, i requires 0 <= i < |header| => FillRow(header[i]));
    assert rowFilled == [spread, sub];
    FillDownTwoRows(spread, sub);
  }

  lemma TopRowFill(l: string)
    ensures FillRow([Text(l), Empty, Empty]) == [Text(l), Text(l), Text(l)]
  {
    var top := [Text(l), Empty, Empty];
    assert top[..2] == [Text(l), Empty] && top[..2][..1] == [Text(l)] && top[..2][..1][..0] == [];
  }

  lemma FullRowFill(row: seq<Cell>)
    requires |row| == 3 && forall j | 0 <= j < 3 :: row[j] != Empty
    ensures FillRow(row) == row
  {
    assert row[..2][..1][..0] == [];
    assert FillRow(row[..2][..1]) == row[..1];
    assert FillRow(row[..2]) == row[..2];
  }

  /** Filling down a header whose rows are already full changes nothing. */
  lemma FillDownTwoRows(a: seq<Cell>, b: seq<Cell>)
    requires |a| == |b| == 3
    requires forall j | 0 <= j < 3 :: a[j] != Empty && b[j] != Empty
    ensures FillDown([a, b], 3) == [a, b]
  {
    assert [a, b][..1] == [a] && [a][..0] == [];
    assert FillBelow(seq(3, _ => Empty), a) == a;
    assert FillBelow(a, b) == b;
  }
}

/** The values the cleaner moves around. A pandas cell after normalisation is
    a missing value (NaN), a float that came from a validated numeric literal,
    a string, or — only between the two halves of an explosion — a Python list
    of strings. A grid is positional (no names); a table has one name per
    column. */
module Cells {

  datatype Option<T> = None | Some(value: T)

  datatype Cell =
    | Empty                      // NaN
    | Num(lit: string)           // float(lit); the literal the numeric pattern accepted
    | Text(s: string)            // str
    | List(items: seq<string>)   // list of str produced by splitting a cell

  /** A raw cell as the reader produces it with every column read as text:
      either missing or a string. */
  type RawCell = Option<string>

  /** Every row has `width` cells. */
  predicate Rectangular<T>(rows: seq<seq<T>>, width: nat) {
    forall i | 0 <= i < |rows| :: |rows[i]| == width
  }

  /** A data frame: column names and rows, each row as wide as the names. */
  datatype Table = Table(names: seq<string>, rows: seq<seq<Cell>>)

  predicate WellFormed(t: Table) {
    Rectangular(t.rows, |t.names|)
  }

  predicate IsList(c: Cell) {
    c.List?
  }

  /** No cell of the table is a list. */
  predicate NoLists(rows: seq<seq<Cell>>) {
    forall i, j | 0 <= i < |rows| && 0 <= j < |rows[i]| :: !IsList(rows[i][j])
  }

  /** `str(value)` for a scalar cell, as `astype(str)` renders it: NaN as
      "nan", a float through `render` (Python's float-to-text, which this
      model leaves abstract), a string as itself. */
  function AsText(render: string -> string, c: Cell): string
    requires !IsList(c)
  {
    match c
    case Empty => "nan"
    case Num(lit) => render(lit)
    case Text(s) => s
  }

  /** Column `j` of a rectangular set of rows, top to bottom. */
  function Column<T>(rows: seq<seq<T>>, j: nat): (col: seq<T>)
    requires forall i | 0 <= i < |rows| :: j < |rows[i]|
    ensures |col| == |rows|
    ensures forall i | 0 <= i < |rows| :: col[i] == rows[i][j]
  {
    seq(|rows|, i requires 0 <= i < |rows| => rows[i][j])
  }

  /** Number of cells of `cs` that are not missing: the size of the set of
      their positions. */
  function CountPresent(cs: seq<Cell>): (n: nat)
    ensures n == |PresentAt(cs)|
    ensures n <= |cs|
  {
    if |cs| == 0 then 0
    else
      var init := cs[..|cs| - 1];
      assert PresentAt(cs) == PresentAt(init) + (if cs[|cs| - 1] == Empty then {} else {|cs| - 1});
      CountPresent(init) + (if cs[|cs| - 1] == Empty then 0 else 1)
  }

  /** The positions of the cells of `cs` that are not missing. */
  function PresentAt(cs: seq<Cell>): set<nat> {
    set i: nat | i < |cs| && cs[i] != Empty
  }

  lemma {:induction false} CountPresentZero(cs: seq<Cell>)
    ensures CountPresent(cs) == 0 <==> forall i | 0 <= i < |cs| :: cs[i] == Empty
  {
    if |cs| > 0 {
      CountPresentZero(cs[..|cs| - 1]);
      assert forall i | 0 <= i < |cs| - 1 :: cs[..|cs| - 1][i] == cs[i];
    }
  }

  /** `dropna().astype(str)` on a column: the text of every present cell, top
      to bottom. */
  function PresentTexts(render: string -> string, col: seq<Cell>): (r: seq<string>)
    requires forall i | 0 <= i < |col| :: !IsList(col[i])
    ensures |r| == CountPresent(col)
  {
    if |col| == 0 then []
    else
      var p := PresentTexts(render, col[..|col| - 1]);
      var c := col[|col| - 1];
      if c == Empty then p else p + [AsText(render, c)]
  }

  /** The texts are those of the present cells. */
  lemma {:induction false} PresentTextsMembers(render: string -> string, col: seq<Cell>, x: string)
    requires forall i | 0 <= i < |col| :: !IsList(col[i])
    ensures x in PresentTexts(render, col) <==> exists i | 0 <= i < |col| :: col[i] != Empty && AsText(render, col[i]) == x
  {
    if |col| > 0 {
      var p := col[..|col| - 1];
      PresentTextsMembers(render, p, x);
      if exists i | 0 <= i < |p| :: p[i] != Empty && AsText(render, p[i]) == x {
        var i :| 0 <= i < |p| && p[i] != Empty && AsText(render, p[i]) == x;
        assert col[i] == p[i];
      }
      if exists i | 0 <= i < |col| :: col[i] != Empty && AsText(render, col[i]) == x {
        var i :| 0 <= i < |col| && col[i] != Empty && AsText(render, col[i]) == x;
        if i < |p| {
          assert col[i] == p[i];
        }
      }
    }
  }

  lemma PresentTextsSnoc(render: string -> string, col: seq<Cell>, c: Cell)
    requires forall i | 0 <= i < |col| :: !IsList(col[i])
    requires !IsList(c)
    ensures PresentTexts(render, col + [c]) ==
      PresentTexts(render, col) + (if c == Empty then [] else [AsText(render, c)])
  {
    assert (col + [c])[..|col|] == col;
  }

  /** A present cell's text sits in `PresentTexts` at the number of present
      cells above it. */
  lemma {:induction false} PresentTextsAt(render: string -> string, col: seq<Cell>, i: nat)
    requires forall m | 0 <= m < |col| :: !IsList(col[m])
    requires i < |col| && col[i] != Empty
    ensures CountPresent(col[..i]) < |PresentTexts(render, col)|
    ensures PresentTexts(render, col)[CountPresent(col[..i])] == AsText(render, col[i])
  {
    var p := col[..|col| - 1];
    if i < |p| {
      PresentTextsAt(render, p, i);
      assert p[..i] == col[..i];
    } else {
      assert col[..i] == p;
    }
  }

  /** Every entry of `PresentTexts` is the text of a present cell, found
      after as many present cells as the entry's position. */
  lemma {:induction false} PresentTextsSource(render: string -> string, col: seq<Cell>, k: nat) returns (i: nat)
    requires forall m | 0 <= m < |col| :: !IsList(col[m])
    requires k < |PresentTexts(render, col)|
    ensures i < |col| && col[i] != Empty && CountPresent(col[..i]) == k
    ensures PresentTexts(render, col)[k] == AsText(render, col[i])
  {
    var p := col[..|col| - 1];
    if k < |PresentTexts(render, p)| {
      i := PresentTextsSource(render, p, k);
      assert p[..i] == col[..i];
    } else {
      i := |col| - 1;
      assert col[..i] == p;
    }
  }
}

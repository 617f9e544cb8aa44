/**
 The editable grid of a rendered table (`TableManager` in
 static/api/js/table_manager.js): the header captions in column order and,
 per body row, the cell inputs' values in the same order. Adding a column,
 the per-column text filter and the sort-direction toggle act on it. For
 `addColumn` the grid is the first table on the page
 (`document.querySelector('table')`), whichever table's button was pressed.
 */
module Grids {
  import opened Text
  import opened Wrappers

  datatype Grid = Grid(headers: seq<string>, rows: seq<seq<string>>)

  /** Every row has one cell per header, as `createTable` builds it. */
  predicate Rectangular(g: Grid) {
    forall i | 0 <= i < |g.rows| :: |g.rows[i]| == |g.headers|
  }

  // ---------------------------------------------------------------------------
  // addColumn

  /** `addColumn(name)` on the first table of the page: an empty name is
      ignored; otherwise one header and one empty input per body row are
      appended. A name already in use is not
      rejected. */
  function AddColumn(g: Grid, name: string): (r: Grid)
    ensures name == "" ==> r == g
    ensures name != "" ==> |r.headers| == |g.headers| + 1 && |r.rows| == |g.rows|
    ensures Rectangular(g) ==> Rectangular(r)
  {
    if name == "" then g
    else Grid(g.headers + [name], seq(|g.rows|, i requires 0 <= i < |g.rows| => g.rows[i] + [""]))
  }

  /** Removes the last column of a grid: header and last cell of each row. */
  function DropLastColumn(g: Grid): (r: Grid)
    requires |g.headers| > 0
    requires forall i | 0 <= i < |g.rows| :: |g.rows[i]| > 0
    ensures |r.headers| == |g.headers| - 1 && |r.rows| == |g.rows|
  {
    Grid(g.headers[..|g.headers| - 1],
         seq(|g.rows|, i requires 0 <= i < |g.rows| => g.rows[i][..|g.rows[i]| - 1]))
  }

  /** A non-empty name lands last, with an empty cell closing every row, and
      dropping that column gives the grid back: nothing else changes. */
  lemma AddColumnThenDrop(g: Grid, name: string)
    requires name != ""
    ensures AddColumn(g, name).headers[|g.headers|] == name
    ensures forall i | 0 <= i < |g.rows| ::
              AddColumn(g, name).rows[i][|g.rows[i]|] == "" && |AddColumn(g, name).rows[i]| == |g.rows[i]| + 1
    ensures DropLastColumn(AddColumn(g, name)) == g
  {
    var r := AddColumn(g, name);
    assert r.headers[..|r.headers| - 1] == g.headers;
    assert forall i | 0 <= i < |g.rows| :: r.rows[i][..|r.rows[i]| - 1] == g.rows[i];
  }

  /** Adding a name that is already a header still adds a column: the grid then
      has two columns with that caption. */
  lemma AddColumnKeepsDuplicates(g: Grid, name: string)
    requires name != "" && name in g.headers
    ensures |AddColumn(g, name).headers| == |g.headers| + 1
    ensures Duplicated(AddColumn(g, name).headers, name)
  {
    var i :| 0 <= i < |g.headers| && g.headers[i] == name;
    var h := AddColumn(g, name).headers;
    assert h[i] == name && h[|g.headers|] == name;
  }

  /** Two distinct positions of `s` hold `x`. */
  predicate Duplicated(s: seq<string>, x: string) {
    exists i, j | 0 <= i < j < |s| :: s[i] == x && s[j] == x
  }

  // ---------------------------------------------------------------------------
  // filterTable

  /** Whether one cell passes the filter: its lower-cased text includes the
      lower-cased filter text. */
  predicate Shown(cell: string, filter: string) {
    Contains(Lower(cell), Lower(filter))
  }

  /** `filterTable(table, col, filter)`: for each body row, whether it stays
      displayed. */
  function FilterTable(g: Grid, col: nat, filter: string): (shown: seq<bool>)
    requires Rectangular(g)
    requires col < |g.headers|
    ensures |shown| == |g.rows|
    ensures forall i | 0 <= i < |g.rows| :: shown[i] == Shown(g.rows[i][col], filter)
  {
    seq(|g.rows|, i requires 0 <= i < |g.rows| => Shown(g.rows[i][col], filter))
  }

  /** An empty filter shows every row. */
  lemma EmptyFilterShowsAll(g: Grid, col: nat)
    requires Rectangular(g)
    requires col < |g.headers|
    ensures forall i | 0 <= i < |g.rows| :: FilterTable(g, col, "")[i]
  {
    forall i | 0 <= i < |g.rows|
      ensures Shown(g.rows[i][col], "")
    {
      ContainsEmpty(Lower(g.rows[i][col]));
    }
  }

  /** Lower-casing distributes over concatenation. */
  lemma LowerAppend(a: string, b: string)
    ensures Lower(a + b) == Lower(a) + Lower(b)
  {
  }

  /** Typing more filter text never reveals a hidden row: a row shown by
      `filter + more` is shown by `filter`. */
  lemma FilterNarrows(cell: string, filter: string, more: string)
    requires Shown(cell, filter + more)
    ensures Shown(cell, filter)
  {
    LowerAppend(filter, more);
    var c := Lower(cell);
    var f := Lower(filter) + Lower(more);
    var i :| 0 <= i <= |c| && OccursAt(c, f, i);
    assert c[i..i + |Lower(filter)|] == f[..|Lower(filter)|];
    assert OccursAt(c, Lower(filter), i);
  }

  /** The filter ignores the case of ASCII letters in the filter text. */
  lemma FilterCaseInsensitive(cell: string, filter: string)
    ensures Shown(cell, filter) == Shown(cell, Lower(filter))
  {
    assert Lower(Lower(filter)) == Lower(filter);
  }

  // ---------------------------------------------------------------------------
  // sortTable direction

  datatype Direction = Asc | Desc

  /** `sortDirection` of a sort, from the body's stored direction: `desc`
      after an `asc` sort, `asc` otherwise (including the first sort). */
  function NextDirection(stored: Option<Direction>): (d: Direction)
    ensures d == Desc <==> stored == Some(Asc)
  {
    if stored == Some(Asc) then Desc else Asc
  }

  /** The direction stored on the body after `n` sorts of a fresh table. */
  function DirectionAfter(n: nat): Option<Direction> {
    if n == 0 then None else Some(NextDirection(DirectionAfter(n - 1)))
  }

  /** Sorts alternate asc, desc, asc, ... starting from asc. */
  lemma {:induction false} DirectionAlternates(n: nat)
    requires n >= 1
    ensures DirectionAfter(n) == Some(if n % 2 == 1 then Asc else Desc)
  {
    if n > 1 {
      DirectionAlternates(n - 1);
    }
  }
}

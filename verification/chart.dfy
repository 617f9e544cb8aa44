/**
 `DataVisualizer` (static/api/js/data_visualizer.js): which columns can be
 charted, which two the first chart uses, the series a chart is built from and
 the colour palette. Chart.js, the modal's DOM and `parseFloat` are not
 modelled: y values are carried as the cell texts `parseFloat` would read.
 */
module Chart {
  import opened Wrappers
  import opened Rows

  /** A column is chartable when its inferred type is `numeric` or `currency`. */
  predicate Chartable(kind: string) {
    kind == "numeric" || kind == "currency"
  }

  /** The positions, in `Object.keys` order, of the chartable columns of
      `columnTypes` (name, type). */
  function ChartableIndices(types: seq<(string, string)>): (idx: seq<nat>)
    ensures forall k | 0 <= k < |idx| :: idx[k] < |types| && Chartable(types[idx[k]].1)
    ensures forall k, l | 0 <= k < l < |idx| :: idx[k] < idx[l]
    ensures forall i | 0 <= i < |types| && Chartable(types[i].1) :: i in idx
  {
    if |types| == 0 then []
    else
      var n := |types| - 1;
      var front := ChartableIndices(types[..n]);
      assert forall i | 0 <= i < n :: types[..n][i] == types[i];
      if Chartable(types[n].1) then front + [n] else front
  }

  /** `numericColumns`: the names of the chartable columns, in key order. */
  function NumericColumns(types: seq<(string, string)>): (cols: seq<string>)
    ensures |cols| == |ChartableIndices(types)|
    ensures forall k | 0 <= k < |cols| :: cols[k] == types[ChartableIndices(types)[k]].0
  {
    var idx := ChartableIndices(types);
    seq(|idx|, k requires 0 <= k < |idx| => types[idx[k]].0)
  }

  /** A column name is offered for charting exactly when some entry gives it a
      numeric or currency type. */
  lemma NumericColumnsExact(types: seq<(string, string)>, name: string)
    ensures name in NumericColumns(types) <==>
            exists i | 0 <= i < |types| :: types[i].0 == name && Chartable(types[i].1)
  {
    var idx := ChartableIndices(types);
    var cols := NumericColumns(types);
    if name in cols {
      var k :| 0 <= k < |cols| && cols[k] == name;
      assert types[idx[k]].0 == name && Chartable(types[idx[k]].1);
    }
    if exists i | 0 <= i < |types| :: types[i].0 == name && Chartable(types[i].1) {
      var i :| 0 <= i < |types| && types[i].0 == name && Chartable(types[i].1);
      var k :| 0 <= k < |idx| && idx[k] == i;
      assert cols[k] == name;
    }
  }

  /** `createChartModal(data, columnTypes)`: no chartable column means an alert
      and no chart (`None`); otherwise the first chart plots the first two
      chartable columns (fewer when there are fewer). */
  function CreateChartModal(types: seq<(string, string)>): (initial: Option<seq<string>>)
    ensures initial.None? <==> forall i | 0 <= i < |types| :: !Chartable(types[i].1)
    ensures initial.Some? ==>
              var cols := NumericColumns(types);
              && 1 <= |initial.value| <= 2 && |initial.value| <= |cols|
              && initial.value == cols[..|initial.value|]
              && (|cols| >= 2 ==> |initial.value| == 2)
  {
    var cols := NumericColumns(types);
    var idx := ChartableIndices(types);
    assert |idx| > 0 ==> Chartable(types[idx[0]].1);
    if |cols| == 0 then
      None
    else
      Some(if |cols| < 2 then cols else cols[..2])
  }

  /** `row[key]`: the raw property, `None` for `undefined`. */
  function Lookup(row: Row, key: string): Option<string> {
    if key in row.cells then Some(row.cells[key]) else None
  }

  /** `String(x)` of a possibly undefined column name. */
  function Display(x: Option<string>): string {
    match x
    case Some(s) => s
    case None => "undefined"
  }

  /** The data a chart is built from. */
  datatype Series = Series(title: string, labels: seq<Option<string>>, values: seq<Option<string>>, colors: seq<string>)

  /** `renderChart(data, columns, ...)`: `const [xColumn, yColumn] = columns`
      leaves a missing column `undefined`, and `row[undefined]` reads the
      property named "undefined". */
  function RenderSeries(data: seq<Row>, columns: seq<string>): (s: Series)
    ensures |s.labels| == |data| && |s.values| == |data| && |s.colors| == |data|
    ensures forall i | 0 <= i < |data| ::
              && s.labels[i] == Lookup(data[i], Display(if |columns| > 0 then Some(columns[0]) else None))
              && s.values[i] == Lookup(data[i], Display(if |columns| > 1 then Some(columns[1]) else None))
    ensures forall i | 0 <= i < |data| :: s.colors[i] == Colors[i % 10]
  {
    var x := if |columns| > 0 then Some(columns[0]) else None;
    var y := if |columns| > 1 then Some(columns[1]) else None;
    Series(Display(y) + " by " + Display(x),
           seq(|data|, i requires 0 <= i < |data| => Lookup(data[i], Display(x))),
           seq(|data|, i requires 0 <= i < |data| => Lookup(data[i], Display(y))),
           GenerateColorPalette(|data|))
  }

  /** The ten colours of the palette. */
  const Colors: seq<string> := [
    "rgba(255, 99, 132, 0.6)",
    "rgba(54, 162, 235, 0.6)",
    "rgba(255, 206, 86, 0.6)",
    "rgba(75, 192, 192, 0.6)",
    "rgba(153, 102, 255, 0.6)",
    "rgba(255, 159, 64, 0.6)",
    "rgba(199, 199, 199, 0.6)",
    "rgba(83, 102, 255, 0.6)",
    "rgba(40, 159, 64, 0.6)",
    "rgba(210, 99, 132, 0.6)"
  ]

  /** `generateColorPalette(count)`: one colour per data point, cycling
      through the ten colours in order. */
  function GenerateColorPalette(count: nat): (p: seq<string>)
    ensures |p| == count
    ensures forall i | 0 <= i < count :: p[i] == Colors[i % 10]
  {
    if count == 0 then [] else GenerateColorPalette(count - 1) + [Colors[(count - 1) % 10]]
  }

  /** Colours repeat every ten data points. */
  lemma PalettePeriodic(count: nat, i: nat)
    requires i + 10 < count
    ensures GenerateColorPalette(count)[i] == GenerateColorPalette(count)[i + 10]
  {
    assert (i + 10) % 10 == i % 10;
  }

  /** A longer palette starts with the shorter one: adding data points never
      recolours the earlier ones. */
  lemma PalettePrefix(count: nat, m: nat)
    requires m <= count
    ensures GenerateColorPalette(count)[..m] == GenerateColorPalette(m)
  {
  }
}

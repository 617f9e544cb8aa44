/**
 `TableManager.cleanData` (static/api/js/table_manager.js): gives every row
 the key list of the first row, filling missing or empty cells with "", and
 renames the columns `Column 1` ... `Column n` by position when every key of
 the first row is a pandas placeholder starting with `Unnamed:`.
 */
module Cleaning {
  import opened Text
  import opened Rows

  const UnnamedPrefix: string := "Unnamed:"

  /** `s.startsWith(prefix)`. */
  predicate StartsWith(s: string, prefix: string) {
    |prefix| <= |s| && s[..|prefix|] == prefix
  }

  /** `keys.every(key => key.startsWith('Unnamed:'))`. */
  predicate AllUnnamed(keys: seq<string>) {
    forall i | 0 <= i < |keys| :: StartsWith(keys[i], UnnamedPrefix)
  }

  /** The name given to the column at 0-based position `i`: `Column ${i + 1}`. */
  function ColumnName(i: nat): (name: string)
    ensures !StartsWith(name, UnnamedPrefix)
  {
    var name := "Column " + NatToString(i + 1);
    assert name[0] == 'C';
    name
  }

  /** Different positions get different names. */
  lemma ColumnNameInjective(i: nat, j: nat)
    requires ColumnName(i) == ColumnName(j)
    ensures i == j
  {
    var p := "Column ";
    assert ColumnName(i)[|p|..] == NatToString(i + 1);
    assert ColumnName(j)[|p|..] == NatToString(j + 1);
    NatToStringInjective(i + 1, j + 1);
  }

  /** `Column 1` ... `Column n`: distinct, and none is a placeholder. */
  function ColumnNames(n: nat): (names: seq<string>)
    ensures |names| == n
    ensures forall i | 0 <= i < n :: names[i] == ColumnName(i)
    ensures Distinct(names)
  {
    var names := seq(n, i requires 0 <= i < n => ColumnName(i));
    assert Distinct(names) by {
      forall i, j | 0 <= i < j < n
        ensures names[i] != names[j]
      {
        if names[i] == names[j] {
          ColumnNameInjective(i, j);
        }
      }
    }
    names
  }

  /** The values of `row` under `keys`, each `row[key] || ''`. */
  function ValuesOf(row: Row, keys: seq<string>): (vs: seq<string>)
    ensures |vs| == |keys|
    ensures forall j | 0 <= j < |keys| :: vs[j] == row.Get(keys[j])
  {
    seq(|keys|, j requires 0 <= j < |keys| => row.Get(keys[j]))
  }

  /** One cleaned row: the value under `keys[j]` is stored under `names[j]`. */
  function CleanRow(keys: seq<string>, names: seq<string>, row: Row): (r: Row)
    requires |keys| == |names|
    ensures r.Valid()
  {
    Build(Zip(names, ValuesOf(row, keys)))
  }

  /** Every row cleaned against the same keys and names. */
  function CleanRows(keys: seq<string>, names: seq<string>, raw: seq<Row>): (out: seq<Row>)
    requires |keys| == |names|
    ensures |out| == |raw|
    ensures forall i | 0 <= i < |raw| :: out[i] == CleanRow(keys, names, raw[i])
  {
    seq(|raw|, i requires 0 <= i < |raw| => CleanRow(keys, names, raw[i]))
  }

  /** `cleanData(rawData)`. No data, or a first row without keys, gives `[]`;
      otherwise there is one valid row per input row, all with the same key
      list. */
  function CleanData(raw: seq<Row>): (out: seq<Row>)
    ensures (|raw| == 0 || |raw[0].keys| == 0) ==> out == []
    ensures (|raw| > 0 && |raw[0].keys| > 0) ==> |out| == |raw|
    ensures forall i | 0 <= i < |out| :: out[i].Valid()
    ensures forall i, j | 0 <= i < |out| && 0 <= j < |out| :: out[i].keys == out[j].keys
  {
    if |raw| == 0 then []
    else
      var keys := raw[0].keys;
      if |keys| == 0 then []
      else
        var names := if AllUnnamed(keys) then ColumnNames(|keys|) else keys;
        CleanRowsSameKeys(keys, names, raw);
        CleanRows(keys, names, raw)
  }

  /** Rows cleaned against the same keys and names share one key list. */
  lemma CleanRowsSameKeys(keys: seq<string>, names: seq<string>, raw: seq<Row>)
    requires |keys| == |names|
    ensures forall i, j | 0 <= i < |raw| && 0 <= j < |raw| ::
              CleanRows(keys, names, raw)[i].keys == CleanRows(keys, names, raw)[j].keys
  {
    forall i, j | 0 <= i < |raw| && 0 <= j < |raw|
      ensures CleanRow(keys, names, raw[i]).keys == CleanRow(keys, names, raw[j]).keys
    {
      KeysOfBuild(Zip(names, ValuesOf(raw[i], keys)), Zip(names, ValuesOf(raw[j], keys)));
    }
  }

  /** The key list of a built object depends only on the keys of the pairs. */
  lemma {:induction false} KeysOfBuild(p: seq<(string, string)>, q: seq<(string, string)>)
    requires Firsts(p) == Firsts(q)
    ensures Build(p).keys == Build(q).keys
  {
    if |p| > 0 {
      var n := |p| - 1;
      assert Firsts(p[..n]) == Firsts(p)[..n];
      assert Firsts(q[..n]) == Firsts(q)[..n];
      KeysOfBuild(p[..n], q[..n]);
      assert p[n].0 == q[n].0;
    }
  }

  /** Placeholder headers: every row is keyed `Column 1` ... `Column n` in the
      first row's key order, and `Column j+1` holds the row's value under the
      first row's `j`-th key, or "" when that is missing or empty. */
  lemma CleanRenamesUnnamed(raw: seq<Row>)
    requires |raw| > 0 && |raw[0].keys| > 0
    requires AllUnnamed(raw[0].keys)
    ensures var keys := raw[0].keys;
            forall i | 0 <= i < |raw| ::
              && CleanData(raw)[i].keys == ColumnNames(|keys|)
              && forall j | 0 <= j < |keys| :: CleanData(raw)[i].cells[ColumnName(j)] == raw[i].Get(keys[j])
  {
    var keys := raw[0].keys;
    var names := ColumnNames(|keys|);
    forall i | 0 <= i < |raw|
      ensures CleanData(raw)[i].keys == names
      ensures forall j | 0 <= j < |keys| :: CleanData(raw)[i].cells[ColumnName(j)] == raw[i].Get(keys[j])
    {
      BuildDistinct(names, ValuesOf(raw[i], keys));
    }
  }

  /** Named headers: every row is keyed exactly by the first row's keys, in
      order, holds the row's own value or "" under each, and nothing else:
      keys that appear only in later rows are dropped. */
  lemma CleanKeepsNamed(raw: seq<Row>)
    requires |raw| > 0 && |raw[0].keys| > 0
    requires raw[0].Valid()
    requires !AllUnnamed(raw[0].keys)
    ensures var keys := raw[0].keys;
            forall i | 0 <= i < |raw| ::
              && CleanData(raw)[i].keys == keys
              && (forall k | k in keys :: CleanData(raw)[i].cells[k] == raw[i].Get(k))
              && (forall k | k !in keys :: k !in CleanData(raw)[i].cells)
  {
    var keys := raw[0].keys;
    forall i | 0 <= i < |raw|
      ensures CleanData(raw)[i].keys == keys
      ensures forall k | k in keys :: CleanData(raw)[i].cells[k] == raw[i].Get(k)
    {
      BuildDistinct(keys, ValuesOf(raw[i], keys));
    }
  }

  /** A valid row rebuilt from its own keys and values is itself. */
  lemma RebuildRow(r: Row)
    requires r.Valid()
    ensures CleanRow(r.keys, r.keys, r) == r
  {
    var vs := ValuesOf(r, r.keys);
    var c := CleanRow(r.keys, r.keys, r);
    BuildDistinct(r.keys, vs);
    forall j | 0 <= j < |r.keys|
      ensures c.cells[r.keys[j]] == r.cells[r.keys[j]]
    {
      assert c.cells[r.keys[j]] == vs[j];
    }
    SameRow(c, r);
  }

  /** Two valid rows with the same key list and the same value under each
      key are equal. */
  lemma SameRow(a: Row, b: Row)
    requires a.Valid() && b.Valid() && a.keys == b.keys
    requires forall j | 0 <= j < |a.keys| :: a.cells[a.keys[j]] == b.cells[a.keys[j]]
    ensures a == b
  {
    assert a.cells.Keys == b.cells.Keys;
    forall k | k in a.cells
      ensures a.cells[k] == b.cells[k]
    {
      var j :| 0 <= j < |a.keys| && a.keys[j] == k;
    }
  }

  /** Rows that already share one non-placeholder key list, each a valid
      object, are left as they are. */
  lemma CleanFixed(rows: seq<Row>)
    requires |rows| > 0 && |rows[0].keys| > 0
    requires !AllUnnamed(rows[0].keys)
    requires forall i | 0 <= i < |rows| :: rows[i].Valid() && rows[i].keys == rows[0].keys
    ensures CleanData(rows) == rows
  {
    var k := rows[0].keys;
    forall i | 0 <= i < |rows|
      ensures CleanRow(k, k, rows[i]) == rows[i]
    {
      RebuildRow(rows[i]);
    }
  }

  /** The first cleaned row's keys are never all placeholders. */
  lemma CleanedKeysNamed(raw: seq<Row>)
    requires |raw| > 0 && |raw[0].keys| > 0
    requires raw[0].Valid()
    ensures |CleanData(raw)[0].keys| > 0
    ensures !AllUnnamed(CleanData(raw)[0].keys)
  {
    var keys := raw[0].keys;
    if AllUnnamed(keys) {
      CleanRenamesUnnamed(raw);
      assert !StartsWith(CleanData(raw)[0].keys[0], UnnamedPrefix);
    } else {
      CleanKeepsNamed(raw);
      var j :| 0 <= j < |keys| && !StartsWith(keys[j], UnnamedPrefix);
    }
  }

  /** Cleaning cleaned data changes nothing: renamed `Column i` keys never
      start with `Unnamed:`, so a second pass keeps every row as it is. */
  lemma CleanIdempotent(raw: seq<Row>)
    requires |raw| > 0 ==> raw[0].Valid()
    ensures CleanData(CleanData(raw)) == CleanData(raw)
  {
    var out := CleanData(raw);
    if |out| > 0 {
      CleanedKeysNamed(raw);
      CleanFixed(out);
    }
  }
}

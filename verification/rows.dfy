/**
 A row as the table code sees it: a JavaScript plain object whose values are
 strings. The object's own keys are kept in insertion order next to the
 key-to-value map, so that `Object.keys(row)` is `row.keys`.
 */
module Rows {
  import opened Text

  datatype Row = Row(keys: seq<string>, cells: map<string, string>) {

    /** The object invariant: each key once, and exactly the mapped keys. */
    predicate Valid() {
      && Distinct(keys)
      && (forall k | k in cells :: k in keys)
      && (forall k | k in keys :: k in cells)
    }

    /** Every value is the empty string. */
    predicate AllEmpty() {
      forall k | k in cells :: cells[k] == ""
    }

    /** `row[key] || ''`: a missing key and an empty value both read as "". */
    function Get(key: string): string {
      if key in cells then cells[key] else ""
    }
  }

  /** `{}` */
  const EmptyRow: Row := Row([], map[])

  /** `obj[key] = value`: a new key goes last, an existing key keeps its place. */
  function Assign(r: Row, key: string, value: string): Row {
    Row(if key in r.keys then r.keys else r.keys + [key], r.cells[key := value])
  }

  /** An assignment keeps the object invariant and adds exactly its key. */
  lemma AssignValid(r: Row, key: string, value: string)
    requires r.Valid()
    ensures Assign(r, key, value).Valid()
    ensures forall k :: k in Assign(r, key, value).keys <==> k in r.keys || k == key
  {
  }

  /** The keys of a list of key/value pairs, in order. */
  function Firsts(pairs: seq<(string, string)>): (ks: seq<string>)
    ensures |ks| == |pairs|
    ensures forall i | 0 <= i < |pairs| :: ks[i] == pairs[i].0
  {
    seq(|pairs|, i requires 0 <= i < |pairs| => pairs[i].0)
  }

  /** No later pair of `pairs` has the key of pair `i`. */
  predicate LastWithKey(pairs: seq<(string, string)>, i: int)
    requires 0 <= i < |pairs|
  {
    forall j | i < j < |pairs| :: pairs[j].0 != pairs[i].0
  }

  /** The object obtained by assigning the pairs one after the other to `{}`,
      as `reduce((obj, ...) => { obj[k] = v; return obj }, {})` does: it is
      a valid object whose keys are exactly the keys of the pairs. */
  function Build(pairs: seq<(string, string)>): (r: Row)
    ensures r.Valid()
    ensures forall k :: k in r.keys <==> k in Firsts(pairs)
  {
    if |pairs| == 0 then EmptyRow
    else
      var init := pairs[..|pairs| - 1];
      var last := pairs[|pairs| - 1];
      assert Firsts(pairs) == Firsts(init) + [last.0];
      AssignValid(Build(init), last.0, last.1);
      Assign(Build(init), last.0, last.1)
  }

  /** A key's value is the one of its last pair: a later assignment of the
      same key overwrites an earlier one. */
  lemma {:induction false} BuildLastWins(pairs: seq<(string, string)>, i: int)
    requires 0 <= i < |pairs|
    requires LastWithKey(pairs, i)
    ensures Build(pairs).cells[pairs[i].0] == pairs[i].1
  {
    var init := pairs[..|pairs| - 1];
    if i < |pairs| - 1 {
      assert LastWithKey(init, i);
      BuildLastWins(init, i);
    }
  }

  /** With distinct keys, the object keeps the pairs' key order. */
  lemma {:induction false} BuildKeyOrder(pairs: seq<(string, string)>)
    requires Distinct(Firsts(pairs))
    ensures Build(pairs).keys == Firsts(pairs)
  {
    if |pairs| > 0 {
      var init := pairs[..|pairs| - 1];
      assert Firsts(pairs) == Firsts(init) + [pairs[|pairs| - 1].0];
      BuildKeyOrder(init);
    }
  }

  /** The values of a list of key/value pairs, in order. */
  function Seconds(pairs: seq<(string, string)>): (vs: seq<string>)
    ensures |vs| == |pairs|
    ensures forall i | 0 <= i < |pairs| :: vs[i] == pairs[i].1
  {
    seq(|pairs|, i requires 0 <= i < |pairs| => pairs[i].1)
  }

  /** Every value of the built object is the value of one of the pairs. */
  lemma {:induction false} BuildValuesFromPairs(pairs: seq<(string, string)>)
    ensures forall k | k in Build(pairs).cells :: Build(pairs).cells[k] in Seconds(pairs)
  {
    if |pairs| > 0 {
      var init := pairs[..|pairs| - 1];
      BuildValuesFromPairs(init);
      assert Seconds(pairs) == Seconds(init) + [pairs[|pairs| - 1].1];
    }
  }

  /** Pairs each key with the value at the same position. */
  function Zip(keys: seq<string>, values: seq<string>): (pairs: seq<(string, string)>)
    requires |keys| == |values|
    ensures |pairs| == |keys|
    ensures Firsts(pairs) == keys
  {
    seq(|keys|, i requires 0 <= i < |keys| => (keys[i], values[i]))
  }

  /** With distinct keys, building from zipped pairs gives each key its own
      value, in the given key order. */
  lemma BuildDistinct(keys: seq<string>, values: seq<string>)
    requires |keys| == |values|
    requires Distinct(keys)
    ensures Build(Zip(keys, values)).keys == keys
    ensures forall i | 0 <= i < |keys| :: Build(Zip(keys, values)).cells[keys[i]] == values[i]
  {
    var pairs := Zip(keys, values);
    BuildKeyOrder(pairs);
    forall i | 0 <= i < |keys|
      ensures Build(pairs).cells[keys[i]] == values[i]
    {
      assert LastWithKey(pairs, i);
      BuildLastWins(pairs, i);
    }
  }
}

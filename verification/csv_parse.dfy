/**
 The client's CSV decoder (`parseCSV` in static/api/js/pdf_processor.js): it
 splits on line feeds and commas, ignores quoting entirely, trims every field
 and keys each data line by the trimmed header names.
 */
module CsvParse {
  import opened Text
  import opened Rows

  /** `values[index]?.trim() || ''`: a missing field reads as "". */
  function FieldAt(values: seq<string>, index: nat): string {
    if index < |values| then Trim(values[index]) else ""
  }

  /** The values assigned for one data line, one per header position. */
  function LineValues(line: string, n: nat): (vs: seq<string>)
    ensures |vs| == n
    ensures forall i | 0 <= i < n :: vs[i] == FieldAt(Split(line, ','), i)
  {
    var values := Split(line, ',');
    seq(n, i requires 0 <= i < n => FieldAt(values, i))
  }

  /** One data line as an object keyed by the trimmed header names; with
      distinct names the keys come in header order. */
  function ParseLine(names: seq<string>, line: string): (r: Row)
    ensures r.Valid()
    ensures forall k :: k in r.keys <==> k in names
    ensures Distinct(names) ==> r.keys == names
  {
    var pairs := Zip(names, LineValues(line, |names|));
    assert Distinct(names) ==> Build(pairs).keys == names by {
      if Distinct(names) {
        BuildKeyOrder(pairs);
      }
    }
    Build(pairs)
  }

  /** The header fields of a text: the comma-separated pieces of its first line. */
  function HeaderFields(text: string): (headers: seq<string>)
    ensures |headers| > 0
  {
    Split(Split(text, '\n')[0], ',')
  }

  /** The trimmed comma-separated pieces of a header line: the keys of every row. */
  function HeaderNames(headerLine: string): (names: seq<string>)
    ensures |names| == |Split(headerLine, ',')|
    ensures forall i | 0 <= i < |names| :: names[i] == Trim(Split(headerLine, ',')[i])
  {
    var headers := Split(headerLine, ',');
    seq(|headers|, i requires 0 <= i < |headers| => Trim(headers[i]))
  }

  /** The trimmed header names of a text. */
  function TrimmedHeaders(text: string): (names: seq<string>)
    ensures |names| == |HeaderFields(text)|
    ensures forall i | 0 <= i < |names| :: names[i] == Trim(HeaderFields(text)[i])
  {
    HeaderNames(Split(text, '\n')[0])
  }

  /** `parseCSV(text)`: one object per line after the first; every object is a
      valid row whose keys are exactly the trimmed header names. */
  function ParseCSV(text: string): (rows: seq<Row>)
    ensures |rows| == Count(text, '\n')
    ensures forall i | 0 <= i < |rows| :: rows[i].Valid()
    ensures forall i, k | 0 <= i < |rows| :: k in rows[i].keys <==> k in TrimmedHeaders(text)
  {
    ParseSplitLines(Split(text, '\n'))
  }

  /** The rows of already split lines: the first line is the header. */
  function ParseSplitLines(lines: seq<string>): (rows: seq<Row>)
    requires |lines| > 0
    ensures |rows| == |lines| - 1
  {
    ParseLines(HeaderNames(lines[0]), lines[1..])
  }

  /** Each line parsed against the same header names. */
  function ParseLines(names: seq<string>, lines: seq<string>): (rows: seq<Row>)
    ensures |rows| == |lines|
    ensures forall i | 0 <= i < |lines| :: rows[i] == ParseLine(names, lines[i])
  {
    seq(|lines|, i requires 0 <= i < |lines| => ParseLine(names, lines[i]))
  }

  /** A text without a line feed is a header line only and yields no rows. */
  lemma HeaderOnlyIsEmpty(text: string)
    requires '\n' !in text
    ensures ParseCSV(text) == []
  {
    CountZeroIsAbsent(text, '\n');
  }

  /** The last piece of a split of a string ending in the separator is empty. */
  lemma {:induction false} SplitTrailingSep(s: string, sep: char)
    requires |s| > 0 && s[|s| - 1] == sep
    ensures Split(s, sep)[|Split(s, sep)| - 1] == ""
    decreases |s|
  {
    if |s| > 1 {
      SplitTrailingSep(s[1..], sep);
    }
  }

  /** A line with no text gives a row whose every value is "". */
  lemma EmptyLineGivesEmptyRow(names: seq<string>)
    ensures ParseLine(names, "").AllEmpty()
  {
    var vs := LineValues("", |names|);
    assert Split("", ',') == [""];
    TrimFixed("");
    assert forall i | 0 <= i < |vs| :: vs[i] == "";
    var pairs := Zip(names, vs);
    BuildValuesFromPairs(pairs);
  }

  /** A trailing line feed produces a final row whose every value is "". */
  lemma TrailingNewlineGivesEmptyRow(text: string)
    requires |text| > 0 && text[|text| - 1] == '\n'
    ensures |ParseCSV(text)| > 0
    ensures ParseCSV(text)[|ParseCSV(text)| - 1].AllEmpty()
  {
    var lines := Split(text, '\n');
    SplitTrailingSep(text, '\n');
    CountZeroIsAbsent(text, '\n');
    EmptyLineGivesEmptyRow(TrimmedHeaders(text));
  }

  /** Row `r` of the text is line `r + 1` parsed against the header names. */
  lemma ParseCSVRow(text: string, r: int)
    requires 0 <= r < |ParseCSV(text)|
    ensures ParseCSV(text)[r] == ParseLine(TrimmedHeaders(text), Split(text, '\n')[r + 1])
  {
  }

  /** Under the name of header `j` a parsed line holds its trimmed field `j`,
      or "" when the line is short; `j` must be the last header with that
      name, since a later assignment to the same name overwrites. */
  lemma ParseLineValue(names: seq<string>, line: string, j: int)
    requires 0 <= j < |names|
    requires forall m | j < m < |names| :: names[m] != names[j]
    ensures names[j] in ParseLine(names, line).cells
    ensures ParseLine(names, line).cells[names[j]] == FieldAt(Split(line, ','), j)
  {
    var pairs := Zip(names, LineValues(line, |names|));
    assert LastWithKey(pairs, j);
    BuildLastWins(pairs, j);
  }

  /** Row `r` holds, under the trimmed name of header `j`, the trimmed field
      `j` of its line, or "" when the line is short; when several headers trim
      to the same name, the last of them decides (`j` is that last one). */
  lemma ParseValue(text: string, r: int, j: int)
    requires 0 <= r < Count(text, '\n')
    requires 0 <= j < |HeaderFields(text)|
    requires forall m | j < m < |HeaderFields(text)| :: Trim(HeaderFields(text)[m]) != Trim(HeaderFields(text)[j])
    ensures Trim(HeaderFields(text)[j]) in ParseCSV(text)[r].cells
    ensures ParseCSV(text)[r].cells[Trim(HeaderFields(text)[j])]
              == FieldAt(Split(Split(text, '\n')[r + 1], ','), j)
  {
    ParseCSVRow(text, r);
    ParseLineValue(TrimmedHeaders(text), Split(text, '\n')[r + 1], j);
  }

  /** Every value of a parsed line is already trimmed. */
  lemma ParseLineTrimmed(names: seq<string>, line: string, k: string)
    requires k in ParseLine(names, line).cells
    ensures Trim(ParseLine(names, line).cells[k]) == ParseLine(names, line).cells[k]
  {
    var vs := LineValues(line, |names|);
    var pairs := Zip(names, vs);
    BuildValuesFromPairs(pairs);
    var v := ParseLine(names, line).cells[k];
    assert v in Seconds(pairs);
    var i :| 0 <= i < |pairs| && Seconds(pairs)[i] == v;
    var values := Split(line, ',');
    if i < |values| {
      TrimIdempotent(values[i]);
    } else {
      TrimFixed("");
    }
  }

  /** Every value the decoder produces is already trimmed. */
  lemma ParsedValuesTrimmed(text: string, r: int, k: string)
    requires 0 <= r < |ParseCSV(text)|
    requires k in ParseCSV(text)[r].cells
    ensures Trim(ParseCSV(text)[r].cells[k]) == ParseCSV(text)[r].cells[k]
  {
    ParseCSVRow(text, r);
    ParseLineTrimmed(TrimmedHeaders(text), Split(text, '\n')[r + 1], k);
  }

  /** The header line of one comma-free, trimmed field names one column. */
  lemma OneHeaderName(h: string)
    requires ',' !in h && Trim(h) == h
    ensures HeaderNames(h) == [h]
  {
    SplitNoSep(h, ',');
  }

  /** A comma-free, trimmed line gives its whole text as the first value. */
  lemma OneLineValue(v: string)
    requires ',' !in v && Trim(v) == v
    ensures LineValues(v, 1) == [v]
  {
    SplitNoSep(v, ',');
  }

  /** Two lines with one comma-free, already trimmed field each parse to
      one row mapping the first line to the second. */
  lemma ParseOneColumn(h: string, v: string)
    requires ',' !in h && ',' !in v
    requires Trim(h) == h && Trim(v) == v
    ensures |ParseSplitLines([h, v])| == 1
    ensures ParseSplitLines([h, v])[0].keys == [h]
    ensures ParseSplitLines([h, v])[0].cells == map[h := v]
  {
    OneHeaderName(h);
    OneLineValue(v);
    assert [h, v][1..] == [v];
    assert ParseSplitLines([h, v])[0] == ParseLine([h], v);
    BuildDistinct([h], [v]);
  }

  /** A text of exactly two lines, each one comma-free trimmed field, parses
      to one row mapping the first line to the second. */
  lemma ParseTwoLines(text: string, h: string, v: string)
    requires Split(text, '\n') == [h, v]
    requires ',' !in h && ',' !in v
    requires Trim(h) == h && Trim(v) == v
    ensures |ParseCSV(text)| == 1
    ensures ParseCSV(text)[0].keys == [h]
    ensures ParseCSV(text)[0].cells == map[h := v]
  {
    ParseOneColumn(h, v);
  }

  /** When the trimmed header names are distinct, every row lists its keys in
      header order, which is the column order `Object.keys` later reports. */
  lemma ParseCSVKeyOrder(text: string, r: int)
    requires Distinct(TrimmedHeaders(text))
    requires 0 <= r < |ParseCSV(text)|
    ensures ParseCSV(text)[r].keys == TrimmedHeaders(text)
  {
    ParseCSVRow(text, r);
  }
}

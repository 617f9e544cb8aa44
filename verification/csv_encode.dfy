/**
 The CSV text built by `updateCSVContent` (static/api/js/table_manager.js):
 every header caption and cell value is wrapped in double quotes with each
 inner quote doubled, fields are joined with commas and lines with line
 feeds. A quote-aware reader is defined next to it to show that this text
 loses nothing; the client's own reader (`CsvParse.ParseCSV`) ignores quotes
 and is not an inverse.
 */
module CsvEncode {
  import opened Wrappers
  import opened Text
  import opened Grids
  import CsvParse

  const Quote: char := '"'

  /** `value.replace(/"/g, '""')`. */
  function DoubleQuotes(s: string): string {
    if |s| == 0 then ""
    else (if s[0] == Quote then [Quote, Quote] else [s[0]]) + DoubleQuotes(s[1..])
  }

  /** Doubling adds exactly one character per quote. */
  lemma {:induction false} DoubleQuotesLength(s: string)
    ensures |DoubleQuotes(s)| == |s| + Count(s, Quote)
  {
    if |s| > 0 {
      DoubleQuotesLength(s[1..]);
    }
  }

  /** Doubling quotes adds no character other than the quote. */
  lemma {:induction false} DoubleQuotesExcludes(s: string, c: char)
    requires c != Quote && c !in s
    ensures c !in DoubleQuotes(s)
  {
    if |s| > 0 {
      DoubleQuotesExcludes(s[1..], c);
    }
  }

  /** One field as written: `"${value.replace(/"/g, '""')}"`. */
  function EscapeField(s: string): (f: string)
    ensures |f| >= 2 && f[0] == Quote && f[|f| - 1] == Quote
  {
    [Quote] + DoubleQuotes(s) + [Quote]
  }

  /** Each field escaped, in order. */
  function EscapeAll(fields: seq<string>): (fs: seq<string>)
    ensures |fs| == |fields|
    ensures forall i | 0 <= i < |fields| :: fs[i] == EscapeField(fields[i])
  {
    seq(|fields|, i requires 0 <= i < |fields| => EscapeField(fields[i]))
  }

  /** One line: the escaped fields joined with commas. */
  function EncodeLine(fields: seq<string>): string {
    Join(EscapeAll(fields), ',')
  }

  /** The escaped line of every row, in order. */
  function EncodeRows(rows: seq<seq<string>>): (lines: seq<string>)
    ensures |lines| == |rows|
    ensures forall i | 0 <= i < |rows| :: lines[i] == EncodeLine(rows[i])
  {
    seq(|rows|, i requires 0 <= i < |rows| => EncodeLine(rows[i]))
  }

  /** The CSV text of a grid: when no caption or cell holds a line feed, its
      lines are the header line followed by exactly one line per body row. */
  function EncodeCSV(g: Grid): (text: string)
    ensures NoLineFeeds(g) ==> Split(text, '\n') == [EncodeLine(g.headers)] + EncodeRows(g.rows)
  {
    var lines := [EncodeLine(g.headers)] + EncodeRows(g.rows);
    assert NoLineFeeds(g) ==> Split(Join(lines, '\n'), '\n') == lines by {
      if NoLineFeeds(g) {
        GridLines(g);
      }
    }
    Join(lines, '\n')
  }

  // ---------------------------------------------------------------------------
  // A quote-aware reader, the inverse of the writer above

  /** Reads the inside of a quoted field, starting just after its opening
      quote: a doubled quote stands for one quote, a single quote closes the
      field. Returns the field and the text after the closing quote. */
  function ReadQuoted(t: string): (res: Option<(string, string)>)
    ensures res.Some? ==> |res.value.1| < |t|
  {
    if |t| == 0 then None
    else if t[0] == Quote then
      if |t| >= 2 && t[1] == Quote then
        match ReadQuoted(t[2..])
        case None => None
        case Some((f, rest)) => Some(([Quote] + f, rest))
      else Some(("", t[1..]))
    else
      match ReadQuoted(t[1..])
      case None => None
      case Some((f, rest)) => Some(([t[0]] + f, rest))
  }

  /** Reading an escaped field back yields the field and leaves the rest,
      provided the rest does not itself start with a quote. */
  lemma {:induction false} ReadQuotedEscaped(s: string, rest: string)
    requires |rest| == 0 || rest[0] != Quote
    ensures ReadQuoted(DoubleQuotes(s) + [Quote] + rest) == Some((s, rest))
  {
    var t := DoubleQuotes(s) + [Quote] + rest;
    if |s| == 0 {
      assert t == [Quote] + rest;
      assert t[1..] == rest;
    } else {
      var tail := DoubleQuotes(s[1..]) + [Quote] + rest;
      ReadQuotedEscaped(s[1..], rest);
      if s[0] == Quote {
        assert t == [Quote, Quote] + tail;
        assert t[2..] == tail;
        assert ReadQuoted(t) == Some(([Quote] + s[1..], rest));
        assert [Quote] + s[1..] == s;
      } else {
        assert t == [s[0]] + tail;
        assert t[1..] == tail;
        assert ReadQuoted(t) == Some(([s[0]] + s[1..], rest));
        assert [s[0]] + s[1..] == s;
      }
    }
  }

  /** Field escaping is injective: distinct values are written differently. */
  lemma EscapeFieldInjective(a: string, b: string)
    requires EscapeField(a) == EscapeField(b)
    ensures a == b
  {
    ReadQuotedEscaped(a, "");
    ReadQuotedEscaped(b, "");
    assert EscapeField(a)[1..] == DoubleQuotes(a) + [Quote] + "";
    assert EscapeField(b)[1..] == DoubleQuotes(b) + [Quote] + "";
  }

  /** Reads one or more comma-separated quoted fields filling the whole text. */
  function DecodeFields(line: string): Option<seq<string>>
    decreases |line|
  {
    if |line| == 0 || line[0] != Quote then None
    else
      match ReadQuoted(line[1..])
      case None => None
      case Some((f, rest)) =>
        if |rest| == 0 then Some([f])
        else if rest[0] != ',' then None
        else
          match DecodeFields(rest[1..])
          case None => None
          case Some(fs) => Some([f] + fs)
  }

  /** Reads one line: the empty line holds no fields. */
  function DecodeLine(line: string): Option<seq<string>> {
    if |line| == 0 then Some([]) else DecodeFields(line)
  }

  /** Reading a written non-empty field list gives the fields back. */
  lemma {:induction false} DecodeFieldsEncoded(fields: seq<string>)
    requires |fields| > 0
    ensures DecodeFields(EncodeLine(fields)) == Some(fields)
    decreases |fields|
  {
    var es := EscapeAll(fields);
    var line := EncodeLine(fields);
    if |fields| == 1 {
      assert line == [Quote] + DoubleQuotes(fields[0]) + [Quote];
      assert line[1..] == DoubleQuotes(fields[0]) + [Quote] + "";
      ReadQuotedEscaped(fields[0], "");
      assert [fields[0]] == fields;
    } else {
      assert es[1..] == EscapeAll(fields[1..]);
      var tail := EncodeLine(fields[1..]);
      assert line == es[0] + [','] + tail;
      var rest := [','] + tail;
      assert line[1..] == DoubleQuotes(fields[0]) + [Quote] + rest;
      ReadQuotedEscaped(fields[0], rest);
      assert rest[1..] == tail;
      DecodeFieldsEncoded(fields[1..]);
      assert [fields[0]] + fields[1..] == fields;
    }
  }

  /** Every line is read back exactly, whatever its fields contain. */
  lemma DecodeLineEncoded(fields: seq<string>)
    ensures DecodeLine(EncodeLine(fields)) == Some(fields)
  {
    if |fields| > 0 {
      DecodeFieldsEncoded(fields);
      assert EscapeAll(fields)[0][0] == Quote;
      assert |EncodeLine(fields)| > 0 by {
        if |fields| > 1 {
          assert EncodeLine(fields) == EscapeAll(fields)[0] + [','] + Join(EscapeAll(fields)[1..], ',');
        }
      }
    }
  }

  /** Reads every line, failing if any line fails. */
  function DecodeLines(lines: seq<string>): (res: Option<seq<seq<string>>>)
    ensures res.Some? ==> |res.value| == |lines|
  {
    if |lines| == 0 then Some([])
    else
      match DecodeLine(lines[0])
      case None => None
      case Some(fs) =>
        match DecodeLines(lines[1..])
        case None => None
        case Some(rest) => Some([fs] + rest)
  }

  /** Reads a whole CSV text: the first line is the header, the others rows. */
  function DecodeCSV(text: string): Option<Grid> {
    var lines := Split(text, '\n');
    match DecodeLine(lines[0])
    case None => None
    case Some(headers) =>
      match DecodeLines(lines[1..])
      case None => None
      case Some(rows) => Some(Grid(headers, rows))
  }

  /** No header caption and no cell holds a line feed. */
  predicate NoLineFeeds(g: Grid) {
    && (forall j | 0 <= j < |g.headers| :: '\n' !in g.headers[j])
    && (forall i, j | 0 <= i < |g.rows| && 0 <= j < |g.rows[i]| :: '\n' !in g.rows[i][j])
  }

  /** A line of fields free of line feeds is itself free of line feeds. */
  lemma EncodeLineNoLineFeed(fields: seq<string>)
    requires forall j | 0 <= j < |fields| :: '\n' !in fields[j]
    ensures '\n' !in EncodeLine(fields)
  {
    var es := EscapeAll(fields);
    forall j | 0 <= j < |fields|
      ensures '\n' !in es[j]
    {
      DoubleQuotesExcludes(fields[j], '\n');
    }
    JoinExcludes(es, ',', '\n');
  }

  /** Joining a grid's lines with line feeds and splitting them again gives
      the lines back, as long as no caption or cell holds a line feed. */
  lemma GridLines(g: Grid)
    requires NoLineFeeds(g)
    ensures Split(Join([EncodeLine(g.headers)] + EncodeRows(g.rows), '\n'), '\n')
            == [EncodeLine(g.headers)] + EncodeRows(g.rows)
  {
    var lines := [EncodeLine(g.headers)] + EncodeRows(g.rows);
    EncodeLineNoLineFeed(g.headers);
    forall i | 0 <= i < |g.rows|
      ensures '\n' !in EncodeLine(g.rows[i])
    {
      EncodeLineNoLineFeed(g.rows[i]);
    }
    assert forall i | 0 <= i < |lines| :: '\n' !in lines[i];
    SplitJoin(lines, '\n');
  }

  /** Reading back the written lines of rows gives the rows. */
  lemma {:induction false} DecodeLinesEncoded(rows: seq<seq<string>>)
    ensures DecodeLines(EncodeRows(rows)) == Some(rows)
  {
    if |rows| > 0 {
      DecodeLineEncoded(rows[0]);
      assert EncodeRows(rows)[1..] == EncodeRows(rows[1..]);
      DecodeLinesEncoded(rows[1..]);
      assert [rows[0]] + rows[1..] == rows;
    }
  }

  /** The written text loses nothing: when no value holds a line feed, the
      quote-aware reader restores the grid exactly. */
  lemma DecodeEncodeCSV(g: Grid)
    requires NoLineFeeds(g)
    ensures DecodeCSV(EncodeCSV(g)) == Some(g)
  {
    var lines := [EncodeLine(g.headers)] + EncodeRows(g.rows);
    assert lines[1..] == EncodeRows(g.rows);
    DecodeLineEncoded(g.headers);
    DecodeLinesEncoded(g.rows);
  }

  /** The client's own reader does not read this text back: the one-cell grid
      with header `a` and value `b` is written as `"a"` / `"b"`, and
      `parseCSV` keys the row by `"a"` (quotes kept) with value `"b"`, so the
      row has nothing under `a`. */
  lemma ParseCSVIsNotTheInverse(g: Grid)
    requires g.headers == ["a"] && g.rows == [["b"]]
    ensures |CsvParse.ParseCSV(EncodeCSV(g))| == 1
    ensures CsvParse.ParseCSV(EncodeCSV(g))[0].Get("a") == ""
    ensures CsvParse.ParseCSV(EncodeCSV(g))[0].Get("\"a\"") == "\"b\""
  {
    var qa, qb := "\"a\"", "\"b\"";
    OneCellLines(g);
    TrimFixed(qa);
    TrimFixed(qb);
    CsvParse.ParseTwoLines(EncodeCSV(g), qa, qb);
    assert "a" != qa;
  }

  /** The text of the one-cell grid is the two lines `"a"` and `"b"`. */
  lemma OneCellLines(g: Grid)
    requires g.headers == ["a"] && g.rows == [["b"]]
    ensures Split(EncodeCSV(g), '\n') == ["\"a\"", "\"b\""]
  {
    var qa, qb := "\"a\"", "\"b\"";
    assert EncodeLine(["a"]) == qa by {
      assert DoubleQuotes("a") == "a";
      assert EscapeField("a") == qa;
      assert EscapeAll(["a"]) == [qa];
    }
    assert EncodeRows([["b"]]) == [qb] by {
      assert DoubleQuotes("b") == "b";
      assert EscapeField("b") == qb;
      assert EscapeAll(["b"]) == [qb];
      assert EncodeLine(["b"]) == qb;
    }
    assert NoLineFeeds(g);
  }
}

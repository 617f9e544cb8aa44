# pdftable.online client core in Dafny

This project models the browser side of pdftable.online. That side receives
the tables a server extracts from a PDF over a WebSocket. It turns each table
into rows and keeps an undo/redo history of them. It lets the user add
columns, filter, sort and export, and it picks columns to chart. Three
scripts are modelled:

- `PDFProcessor` (static/api/js/pdf_processor.js). This covers the
  reconnect counter, the dispatch of incoming frames, the upload guard, the
  history, the keyboard shortcuts and the CSV decoder `parseCSV`. It lives in
  modules `Processor`, `Connection`, `History`, `Shortcuts` and `CsvParse`.
- `TableManager` (static/api/js/table_manager.js). This covers `cleanData`,
  the CSV text built by `updateCSVContent`, `addColumn`, the `filterTable`
  predicate and the `sortTable` direction toggle. It lives in modules
  `Cleaning`, `CsvEncode` and `Grids`.
- `DataVisualizer` (static/api/js/data_visualizer.js). This covers the
  choice of chartable columns, the series a chart is built from and the
  colour palette. It lives in module `Chart`.

How JavaScript values are represented:

- A JavaScript object row is a `Rows.Row`: an ordered key list plus a map.
  It is built by assigning keys in order, as `obj[k] = v` does inside
  `reduce`/`forEach`. So the first assignment fixes a key's position and the
  last one fixes its value.
- `String.prototype.split`, `trim`, `includes`, `toLowerCase` and decimal
  formatting are spelled out in module `Text`.
- A frame's optional JSON fields are `Option`s. A handler returns the next
  state plus the list of its effects on the page and the socket.

Some behaviour one might expect is absent from the code, and the model
follows the code:

- There is no column-type inference and no statistics engine: `columnTypes`
  is read by the chart code but never produced.
- Editing a cell does not push a snapshot onto the history.
- `addColumn` accepts a name that is already in use (`Grids.AddColumnKeepsDuplicates`).
- `parseCSV` is not the inverse of the CSV writer: it keeps the quotes the
  writer adds (`CsvEncode.ParseCSVIsNotTheInverse`). A separate quote-aware
  reader is defined, and it does invert the writer (`CsvEncode.DecodeEncodeCSV`).

## Model

| member | source | states |
|---|---|---|
| Text.Split | static/api/js/pdf_processor.js:287-291 | `split` on one character gives one more piece than there are separators, and no piece contains the separator |
| Text.JoinSplit | static/api/js/pdf_processor.js:287-291 | joining the pieces of a split with the same separator gives the original text back |
| Text.SplitJoin | static/api/js/table_manager.js:244-256 | splitting a join of separator-free pieces gives back exactly those pieces |
| Text.Trim | static/api/js/pdf_processor.js:293 | `trim` removes only white space and only at the two ends, and leaves none at either end |
| Text.TrimIdempotent | static/api/js/pdf_processor.js:293 | trimming twice equals trimming once |
| Text.NatToString | static/api/js/table_manager.js:18 | the decimal text of a number is non-empty and all digits, with no leading zero unless the number is 0 |
| Text.ParseNatToString | static/api/js/table_manager.js:18 | reading the decimal text back gives the number, so different numbers get different texts |
| Rows.BuildLastWins | static/api/js/pdf_processor.js:292-295 | when the same key is assigned several times while building an object, the last assignment's value is kept |
| Rows.BuildKeyOrder | static/api/js/pdf_processor.js:292-295 | with distinct keys, the object's key order is the assignment order |
| CsvParse.ParseCSV | static/api/js/pdf_processor.js:286-297 | one object per line after the first, so as many as there are line feeds; each object is well formed, and its keys are exactly the trimmed header fields |
| CsvParse.HeaderOnlyIsEmpty | static/api/js/pdf_processor.js:287-290 | a text with no line feed yields no rows |
| CsvParse.TrailingNewlineGivesEmptyRow | static/api/js/pdf_processor.js:287-295 | a text ending in a line feed yields a last row whose every value is "" |
| CsvParse.ParseValue | static/api/js/pdf_processor.js:288-295 | under the trimmed name of header j, row r holds the trimmed field j of line r+1, or "" when the line is short; with duplicated names the last header wins |
| CsvParse.ParseLineValue | static/api/js/pdf_processor.js:291-294 | one line keyed by header names: the value under the last header with a name is that position's trimmed field, or "" when missing |
| CsvParse.ParsedValuesTrimmed | static/api/js/pdf_processor.js:293 | every value the decoder produces is already trimmed |
| CsvParse.ParseLine | static/api/js/pdf_processor.js:290-296 | one data line becomes a well-formed object whose keys are exactly the header names, in header order when they are distinct; its values are given by `ParseLineValue` |
| CsvParse.ParseCSVKeyOrder | static/api/js/pdf_processor.js:286-297 | with distinct trimmed header names, every row lists its keys in header order, the column order later read through `Object.keys` |
| CsvParse.ParseTwoLines | static/api/js/pdf_processor.js:286-297 | a two-line text of single comma-free trimmed fields parses to one row mapping the first line to the second |
| CsvEncode.EscapeField | static/api/js/table_manager.js:245-253 | every written field starts and ends with a double quote |
| CsvEncode.DoubleQuotesLength | static/api/js/table_manager.js:252 | doubling quotes lengthens a value by exactly its number of quotes |
| CsvEncode.ReadQuotedEscaped | static/api/js/table_manager.js:245-253 | a quote-aware reader recovers a field's value from its escaped form, and leaves the rest of the text unread |
| CsvEncode.EscapeFieldInjective | static/api/js/table_manager.js:245-253 | different values are always written differently |
| CsvEncode.EncodeCSV | static/api/js/table_manager.js:244-256 | the text `updateCSVContent` builds: when no cell holds a line feed, its lines are the header line followed by one line per row, in order; `DecodeEncodeCSV` shows it loses nothing |
| CsvEncode.DecodeEncodeCSV | static/api/js/table_manager.js:244-256 | when no cell holds a line feed, a quote-aware reader recovers the exact headers and rows from the written text |
| CsvEncode.ParseCSVIsNotTheInverse | static/api/js/table_manager.js:244-256 | the client's own `parseCSV` misreads the written text: for header `a` and value `b` it keys the row by `"a"` with the quotes kept, so nothing is under `a` |
| Cleaning.ColumnName | static/api/js/table_manager.js:18 | a positional name `Column n` never starts with `Unnamed:` |
| Cleaning.ColumnNames | static/api/js/table_manager.js:15-21 | the positional names are distinct, one per column, and the i-th is `Column i+1` |
| Cleaning.CleanData | static/api/js/table_manager.js:2-32 | no rows, or a first row without keys, gives `[]`; otherwise there is one well-formed row per input row, and all rows share one key list |
| Cleaning.CleanRenamesUnnamed | static/api/js/table_manager.js:12-21 | when every first-row key starts with `Unnamed:`, each row is keyed `Column 1`..`Column n` in the first row's key order, and `Column j+1` holds the row's value under the j-th key, or "" when that is missing or empty |
| Cleaning.CleanKeepsNamed | static/api/js/table_manager.js:24-31 | otherwise each row is keyed exactly by the first row's keys in order and holds its own value or "" under each; keys found only in later rows are dropped |
| Cleaning.RebuildRow | static/api/js/table_manager.js:25-31 | cleaning a well-formed row against its own keys gives the row back |
| Cleaning.CleanFixed | static/api/js/table_manager.js:24-31 | rows that already share one well-formed, not-all-placeholder key list come back unchanged |
| Cleaning.CleanedKeysNamed | static/api/js/table_manager.js:12-31 | the first cleaned row has keys, and they are never all placeholders |
| Cleaning.CleanIdempotent | static/api/js/table_manager.js:2-32 | cleaning cleaned data changes nothing |
| Grids.AddColumn | static/api/js/table_manager.js:189-237 | an empty name changes nothing; otherwise one header is added and each row gets one more cell; a rectangular grid stays rectangular |
| Grids.AddColumnThenDrop | static/api/js/table_manager.js:189-237 | the new header comes last and every row ends with an empty cell; removing that column gives back the original grid |
| Grids.AddColumnKeepsDuplicates | static/api/js/table_manager.js:189-190 | a name already in use is still added, so the caption then appears twice |
| Grids.FilterTable | static/api/js/table_manager.js:177-187 | one visibility flag per body row: a row is shown exactly when its lower-cased cell contains the lower-cased filter |
| Grids.EmptyFilterShowsAll | static/api/js/table_manager.js:177-187 | an empty filter shows every row |
| Grids.FilterNarrows | static/api/js/table_manager.js:182-185 | typing more filter text never reveals a hidden row |
| Grids.FilterCaseInsensitive | static/api/js/table_manager.js:182-185 | lower-casing the filter text first does not change any row's visibility |
| Grids.NextDirection | static/api/js/table_manager.js:159 | the new sort is descending exactly when the stored direction is ascending |
| Grids.DirectionAlternates | static/api/js/table_manager.js:156-175 | successive sorts of a table go ascending, descending, ascending, and so on, starting ascending |
| History.Empty | static/api/js/pdf_processor.js:9-10 | the initial history is empty and satisfies the cursor invariant |
| History.AddToHistory | static/api/js/pdf_processor.js:203-209 | entries after the cursor are discarded, the snapshot is appended, and the cursor points at it; the cursor invariant holds afterwards |
| History.Undo | static/api/js/pdf_processor.js:211-216 | the entries never change; a cursor at 0 or below stays put; otherwise the cursor moves back one; the invariant is kept |
| History.Redo | static/api/js/pdf_processor.js:218-223 | the entries never change; a cursor at the last entry stays put; otherwise the cursor moves forward one; the invariant is kept |
| History.UpdateButtons | static/api/js/pdf_processor.js:233-239 | the undo button is disabled exactly when undo would do nothing, and the redo button exactly when redo would do nothing |
| History.AddLeavesNothingToRedo | static/api/js/pdf_processor.js:203-209 | after a push nothing can be redone, and the pushed snapshot is the one shown |
| History.UndoAfterAdd | static/api/js/pdf_processor.js:203-216 | undoing a push shows again what was shown before it |
| History.UndoNMoves | static/api/js/pdf_processor.js:211-216 | n undos from a cursor of at least n move it back by exactly n |
| History.RedoNMoves | static/api/js/pdf_processor.js:218-223 | n redos with at least n entries ahead move the cursor forward by exactly n |
| History.UndoRedoRoundTrip | static/api/js/pdf_processor.js:211-223 | n undos followed by n redos restore the history whenever the undos all moved |
| Connection.Initial | static/api/js/pdf_processor.js:5-11 | a new client has counter 0 and a connecting socket |
| Connection.OnOpen | static/api/js/pdf_processor.js:23-27 | opening resets the counter to 0 |
| Connection.OnClose | static/api/js/pdf_processor.js:299-309 | below five attempts, a close counts one more attempt and schedules it after 1000 ms times the new count; at five it schedules nothing and gives up; the counter never exceeds five |
| Connection.OnReconnectTimer | static/api/js/pdf_processor.js:304-305 | a scheduled reconnect starts a new connecting socket without touching the counter |
| Connection.CloseStreakDelays | static/api/js/pdf_processor.js:299-309 | from counter a, the n-th close of a failing streak schedules attempt a+n+1 after 1000·(a+n+1) ms while that is at most five; the close after that gives up and the streak ends |
| Connection.BackoffAfterOpen | static/api/js/pdf_processor.js:299-309 | after an open, the n-th failed reconnect in a row waits 1000·n ms for n = 1..5, and the sixth close gives up |
| Shortcuts.Shortcut | static/api/js/pdf_processor.js:183-201 | a key press triggers at most one action, so never both undo and redo, and none without Ctrl or Cmd |
| Shortcuts.ShortcutKeys | static/api/js/pdf_processor.js:186-199 | an action is taken exactly for Ctrl/Cmd with `z`, `y` or `s`; with `z`, Shift picks redo and its absence undo; `y` always redoes and `s` always downloads, whatever Shift says |
| Shortcuts.UpperCaseIgnored | static/api/js/pdf_processor.js:186-199 | a press reporting `Z`, `Y` or `S` triggers nothing |
| Processor.Init | static/api/js/pdf_processor.js:2-14 | a new processor stores no CSV, counts no tables, has an empty history and satisfies the invariant |
| Processor.HandleMessage | static/api/js/pdf_processor.js:34-100 | the invariant and the session are kept; unparsable text only prints "Error processing data"; a progress frame shows its message and percentage; an error frame shows its text and an error notice; neither changes the state |
| Processor.HandleTable | static/api/js/pdf_processor.js:45-83 | the table case keeps the history invariant and the session |
| Processor.ShowTable | static/api/js/pdf_processor.js:75-82 | drawing a cleaned table changes nothing but the history |
| Processor.ShowTablePushes | static/api/js/pdf_processor.js:75-82 | a cleaned table with rows becomes the shown last entry with nothing to redo, and the entries up to the old cursor stay; an empty one leaves the history alone |
| Processor.TableFrameDispatch | static/api/js/pdf_processor.js:39-45 | a frame of type `table` is handled by the table case |
| Processor.OnlyTableFramesChangeState | static/api/js/pdf_processor.js:39-99 | any frame that changes the state is a `table` frame; progress, error, unknown and unparsable frames change nothing |
| Processor.TableFramePushes | static/api/js/pdf_processor.js:45-83 | a table frame with content and columns stores the content and counts the table; it changes the history, pushing and showing the cleaned table, exactly when cleaning leaves a row |
| Processor.MissingColumnsDropsTable | static/api/js/pdf_processor.js:45-99 | a table frame without `columns` stores the content and counts the table, but draws nothing, leaves the history alone and ends by printing "Error processing data" |
| Processor.ServerTablesNeverShown | static/api/js/pdf_processor.js:45-99 | as written, a frame shaped like the server's (type and content only) is never drawn and never reaches the history |
| Processor.HandleMessageTolerant | static/api/js/pdf_processor.js:45-83 | the corrected handler keeps the invariant and agrees with the original on every frame that carries `columns` |
| Processor.TolerantShowsTables | static/api/js/pdf_processor.js:45-83 | with the corrected handler, every table frame with content whose cleaned form has a row is drawn and pushed as the current entry |
| Processor.ProcessFile | static/api/js/pdf_processor.js:321-369 | without a file, or with a socket that is not open, the state is unchanged; otherwise the stored CSV is cleared; the counter and the session are never touched |
| Processor.UploadIffReady | static/api/js/pdf_processor.js:321-362 | an upload is sent exactly when a file is chosen, the socket is open and the read succeeds; it carries the name, operation and data URL and resets the history to the initial empty one (no entries, cursor -1); otherwise the history is kept |
| Processor.FileChosen | static/api/js/pdf_processor.js:108-117 | choosing a file processes it with the `basic` operation; clearing the choice does nothing |
| Processor.ClearTables | static/api/js/pdf_processor.js:150-168 | from any state, clearing leaves no CSV, a zero count and the initial empty history, and keeps the connection |
| Processor.Cleanup | static/api/js/pdf_processor.js:431-446 | cleanup resets the history and nothing else |
| Processor.RenderHistoryState | static/api/js/pdf_processor.js:225-231 | the redraw shows a table exactly when the cursor points at an entry, and that table is the entry; the output is cleared, the entry drawn and the buttons refreshed, while a cursor on no entry makes `createTable` throw after the output is cleared, so nothing else happens |
| Processor.UndoStep | static/api/js/pdf_processor.js:211-216 | the undo button only moves the history cursor, never the stored CSV; it has an effect exactly when the button is enabled |
| Processor.RedoStep | static/api/js/pdf_processor.js:218-223 | the redo button only moves the history cursor, never the stored CSV; it has an effect exactly when the button is enabled |
| Processor.UndoRedoShowEntries | static/api/js/pdf_processor.js:211-231 | in a valid state, an undo or redo that does anything redraws a table from the history |
| Processor.DownloadStep | static/api/js/pdf_processor.js:272-284 | download offers the stored CSV exactly when there is one, and changes no state |
| Processor.CopyStep | static/api/js/pdf_processor.js:120-125 | copy puts the stored CSV on the clipboard exactly when there is one, and changes no state |
| Processor.RunActions | static/api/js/pdf_processor.js:183-201 | running shortcut actions keeps the invariant, the stored CSV, the count, the session and the history's entries |
| Processor.HandleKey | static/api/js/pdf_processor.js:183-201 | a key press only moves the history cursor or downloads, and one without Ctrl or Cmd does nothing |
| Processor.Opened | static/api/js/pdf_processor.js:23-27 | opening resets the counter and marks the socket open, leaving history and CSV alone |
| Processor.Closed | static/api/js/pdf_processor.js:299-309 | a close keeps the invariant, the history and the CSV |
| Processor.ReconnectFired | static/api/js/pdf_processor.js:304-305 | a fired reconnect only replaces the socket |
| Processor.RunKeepsValid | static/api/js/pdf_processor.js:203-239 | with either handler, after any sequence of frames, clicks, key presses and socket events, the cursor stays in range (-1 exactly when the history is empty) and the counter stays at most five |
| Chart.ChartableIndices | static/api/js/data_visualizer.js:4-5 | the selected positions are increasing, each typed `numeric` or `currency`, and every such position is selected |
| Chart.NumericColumns | static/api/js/data_visualizer.js:4-5 | the selected names are those at the selected positions, in key order |
| Chart.NumericColumnsExact | static/api/js/data_visualizer.js:4-5 | a name is offered exactly when some entry types it `numeric` or `currency` |
| Chart.CreateChartModal | static/api/js/data_visualizer.js:2-10 | no chart is built exactly when no column is numeric or currency; otherwise the first chart uses the first two selected columns (line 127), or the only one |
| Chart.RenderSeries | static/api/js/data_visualizer.js:142-147 | one label, one value and one colour per data row; label i is row i's x-column property and value i its y-column property, with a missing column read as the property "undefined" |
| Chart.GenerateColorPalette | static/api/js/data_visualizer.js:199-215 | the palette has `count` entries, and entry i is colour i mod 10 of the ten listed |
| Chart.PalettePeriodic | static/api/js/data_visualizer.js:213-214 | colours repeat every ten data points |
| Chart.PalettePrefix | static/api/js/data_visualizer.js:213-214 | a longer palette starts with the shorter one |

## Findings

| source | as written | input that shows it | evidently intended | confidence | as-written member | corrected member |
|---|---|---|---|---|---|---|
| static/api/js/pdf_processor.js:60-66 | the `table` case reads `data.columns.length` and `data.columns.join`, but the server's table frames (api/consumers.py:53-56) carry only `type` and `content`; the handler throws, prints "Error processing data", and never draws or records the table | the frame `{"type": "table", "content": "A\n1"}` | a table frame without metadata is still drawn and pushed onto the history | high; not executed | Processor.ServerTablesNeverShown | Processor.TolerantShowsTables |

`Processor.HandleMessage` models the handler as written. `Processor.HandleMessageTolerant`
reads an absent `columns` as an empty list. Whole sessions (`Processor.Run`)
are defined for both handlers, and `Processor.RunKeepsValid` covers both.

## Left out

- DOM building and rendering (`createTable`, `createToolbar`, `updateOutput` markup, notification timing, the progress bar, table-count styling). These are effects in `Processor.Event` and are not drawn.
- Cell edits are not inputs of the model, and history entries are immutable values. In the code, `renderHistoryState` hands the stored entry object itself to `createTable`, and a cell's `onchange` writes `row[header]` into that object. So an edit made after an undo or redo rewrites the saved snapshot in place. An edit to a freshly extracted table goes to `cleanedData`, which `addToHistory` deep-copied, so the next undo or redo loses it. This sharing is not modelled.
- Reading the grid back from the page (`getTableData`, the DOM side of `updateCSVContent`, `exportToCSV`), and the write to `window.pdfProcessor`. `window.pdfProcessor` is never assigned in the code, so the write has no target. The writer is modelled as a function of the headers and cell texts (`CsvEncode.EncodeCSV`).
- Browser I/O: the WebSocket object, `FileReader`, Blob and URL downloads, the clipboard, `localStorage` (`autoSave`, `restoreAutoSave`, and the storage calls in `cleanup`) and `setTimeout`. A file read is an input, a scheduled reconnect is an effect carrying its delay, and the timer firing is a separate input.
- `localeCompare` collation in `sortTable`. It depends on the locale; only the direction toggle is modelled.
- `parseFloat` and the Chart.js configuration in `renderChart`. Y values are kept as the cell texts `parseFloat` would read.
- `validateFile`. Nothing calls it, and it depends on browser `File` metadata.
- api/consumers.py, core/asgi.py, core/urls.py and api/views.py (server side). They are not part of this model beyond the frame shape the server sends.
- Reordering of integer-like object keys. JavaScript lists such keys first; the model keeps insertion order.
- Built-in properties reached by `row[key]`, such as `constructor`. They are not modelled.
- Text.Lower: lower-cases ASCII letters only. `toLowerCase` also maps other Unicode letters, and that is not modelled.
- Processor.HandleTable: a `table` frame without `content` stores `undefined` as the CSV, and the model stores "". Both values are treated as "no CSV" by the copy and download buttons.
- Processor.HandleMessage: assumes `TableManager` is reachable as a global, since how the scripts are loaded is not part of this model. Frame fields are assumed to have their JSON types (text, numbers, a list of names). Values of other types are not modelled.
- Processor.ProcessFile: does not model a second upload started while a read is still pending (the `await` in `processFile`). Each call runs to completion.
- Cleaning.CleanData: a `null` input is not modelled; the input is always a sequence of rows.
- Grids.AddColumn: acts on a single grid. The code always edits the first table on the page (`document.querySelector('table')`), so with two or more tables shown, Add Column on a later table changes the first one. The page's list of tables is not modelled, so which table gets edited is not part of the contract.
- Grids.FilterTable: requires a rectangular grid and an existing column index. Filter inputs only exist for existing columns of a grid that `createTable` or `addColumn` built.

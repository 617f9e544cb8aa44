/**
 `PDFProcessor` (static/api/js/pdf_processor.js) as a state machine: the last
 CSV text received, the extracted-table counter, the undo/redo history of
 cleaned tables and the WebSocket session. Every handler maps a state and an
 input to the next state and the effects it has on the page and the socket,
 in order. DOM rendering, timers and the `FileReader` are not modelled: what
 they produce is an input, and what is drawn is an event.
 */
module Processor {
  import opened Wrappers
  import opened Text
  import opened Rows
  import CsvParse
  import Cleaning
  import History
  import Connection
  import Shortcuts

  type Table = seq<Row>

  datatype Processor = Processor(
    csvContent: string,
    extractedTables: nat,
    history: History.History<Table>,
    session: Connection.Session)

  /** The history cursor is in range and the reconnect counter within bounds. */
  predicate Valid(p: Processor) {
    History.Valid(p.history) && Connection.Valid(p.session)
  }

  /** The constructor together with `setupEventListeners`. */
  function Init(): (p: Processor)
    ensures Valid(p)
    ensures p.csvContent == "" && p.extractedTables == 0 && |p.history.entries| == 0
  {
    Processor("", 0, History.Empty(), Connection.Initial())
  }

  /** A parsed frame: each field of the JSON object, `None` when absent. */
  datatype Frame =
    | Unparsable
    | Frame(
        kind: Option<string>,
        message: Option<string>,
        percentage: Option<int>,
        traceback: Option<string>,
        content: Option<string>,
        tableNumber: Option<int>,
        totalTables: Option<int>,
        pageNumber: Option<int>,
        rowCount: Option<int>,
        columns: Option<seq<string>>,
        tableArea: Option<string>)

  /** The notifications `showNotification` pops up. */
  datatype Notice =
    | TableExtracted(tableNumber: Option<int>, pageNumber: Option<int>)
    | ErrorProcessingFile
    | AllTablesCleared
    | NoFileSelected
    | ConnectionLost
    | ProcessingStarted
    | ErrorReadingFile
    | TableDownloaded
    | CsvCopied

  /** What a handler does to the page and the socket. */
  datatype Event =
    | Output(text: string)
    | ProgressMessage(message: Option<string>)
    | ErrorReport(report: Option<string>)
    | ProgressBar(percent: int)
    | TableCount(count: nat)
    | TableDetails(tableNumber: Option<int>, totalTables: Option<int>, rowCount: Option<int>,
                   columns: seq<string>, pageNumber: Option<int>, tableArea: Option<string>)
    | TableShown(table: Table)
    | OutputCleared
    | ButtonsUpdated(buttons: History.Buttons)
    | Notify(notice: Notice)
    | ScheduleReconnect(delay: nat)
    | Upload(filename: string, operation: string, content: string)
    | Download(text: string)
    | Copy(text: string)

  datatype Step = Step(state: Processor, events: seq<Event>)

  const ErrorProcessingData: string := "Error processing data"
  const NoValidData: string := "No valid data found in the table"

  /** Whether the effects include a table being drawn. */
  predicate ShowsTable(events: seq<Event>) {
    exists i | 0 <= i < |events| :: events[i].TableShown?
  }

  /** Whether the effects include an upload sent over the socket. */
  predicate Sends(events: seq<Event>) {
    exists i | 0 <= i < |events| :: events[i].Upload?
  }

  // ---------------------------------------------------------------------------
  // handleWebSocketMessage

  /** `data.percentage || 0`. */
  function Percentage(f: Frame): (pct: int)
    requires f.Frame?
    ensures f.percentage.Some? ==> pct == f.percentage.value
    ensures f.percentage.None? ==> pct == 0
  {
    f.percentage.GetOr(0)
  }

  /** `data.traceback || data.message`: an empty traceback counts as absent. */
  function ErrorText(f: Frame): (text: Option<string>)
    requires f.Frame?
    ensures f.traceback.Some? && f.traceback.value != "" ==> text == f.traceback
    ensures (f.traceback.None? || f.traceback.value == "") ==> text == f.message
  {
    if f.traceback.Some? && f.traceback.value != "" then f.traceback else f.message
  }

  /** The cleaned table a `table` frame's content gives. */
  function CleanedTable(content: string): Table {
    Cleaning.CleanData(CsvParse.ParseCSV(content))
  }

  /** The `table` case. Without `content`, `parseCSV` throws before anything
      is counted; without `columns`, the details markup throws after the
      counter has been bumped; either way the catch prints "Error processing
      data". */
  function HandleTable(p: Processor, f: Frame): (r: Step)
    requires f.Frame?
    ensures History.Valid(p.history) ==> History.Valid(r.state.history)
    ensures r.state.session == p.session
  {
    match f.content
    case None => Step(p.(csvContent := ""), [Output(ErrorProcessingData)])
    case Some(c) =>
      var p1 := p.(csvContent := c, extractedTables := p.extractedTables + 1);
      var counted := [TableCount(p1.extractedTables)];
      match f.columns
      case None => Step(p1, counted + [Output(ErrorProcessingData)])
      case Some(cols) =>
        var shown := ShowTable(p1, f, CleanedTable(c));
        Step(shown.state, counted + [TableDetails(f.tableNumber, f.totalTables, f.rowCount, cols, f.pageNumber, f.tableArea)] + shown.events)
  }

  /** The end of the `table` case: a cleaned table with rows is drawn, pushed
      onto the history and announced; an empty one only prints "No valid data
      found in the table". */
  function ShowTable(p: Processor, f: Frame, cleaned: Table): (r: Step)
    requires f.Frame?
    ensures History.Valid(p.history) ==> History.Valid(r.state.history)
    ensures r.state == p.(history := r.state.history)
  {
    if |cleaned| > 0 then
      var h := History.AddToHistory(p.history, cleaned);
      Step(p.(history := h),
           [TableShown(cleaned), ButtonsUpdated(History.UpdateButtons(h)),
            Notify(TableExtracted(f.tableNumber, f.pageNumber))])
    else
      Step(p, [Output(NoValidData)])
  }

  /** A table with rows becomes the shown, last history entry, with nothing
      left to redo and the entries up to the old cursor kept; an empty one
      leaves the history untouched. */
  lemma ShowTablePushes(p: Processor, f: Frame, cleaned: Table)
    requires f.Frame? && History.Valid(p.history)
    ensures var r := ShowTable(p, f, cleaned);
            && (r.state.history != p.history <==> |cleaned| > 0)
            && (|cleaned| > 0 ==>
                  && r.state.history == History.AddToHistory(p.history, cleaned)
                  && History.Current(r.state.history) == Some(cleaned)
                  && History.UpdateButtons(r.state.history).redoDisabled
                  && r.state.history.entries[..p.history.cursor + 1] == p.history.entries[..p.history.cursor + 1]
                  && ShowsTable(r.events))
  {
    var r := ShowTable(p, f, cleaned);
    if |cleaned| > 0 {
      History.AddLeavesNothingToRedo(p.history, cleaned);
      assert r.state.history.cursor == p.history.cursor + 1;
      assert r.events[0].TableShown?;
    }
  }

  /** `handleWebSocketMessage(e)`: switch on `data.type`; unknown types are
      ignored and unparsable text only prints "Error processing data". */
  function HandleMessage(p: Processor, f: Frame): (r: Step)
    ensures Valid(p) ==> Valid(r.state)
    ensures r.state.session == p.session
    ensures f.Unparsable? ==> r == Step(p, [Output(ErrorProcessingData)])
    ensures f.Frame? && f.kind == Some("progress") ==>
              r == Step(p, [ProgressMessage(f.message), ProgressBar(Percentage(f))])
    ensures f.Frame? && f.kind == Some("error") ==>
              r == Step(p, [ErrorReport(ErrorText(f)), Notify(ErrorProcessingFile)])
  {
    match f
    case Unparsable => Step(p, [Output(ErrorProcessingData)])
    case Frame(_, _, _, _, _, _, _, _, _, _, _) =>
      if f.kind == Some("progress") then
        Step(p, [ProgressMessage(f.message), ProgressBar(Percentage(f))])
      else if f.kind == Some("table") then
        HandleTable(p, f)
      else if f.kind == Some("error") then
        Step(p, [ErrorReport(ErrorText(f)), Notify(ErrorProcessingFile)])
      else
        Step(p, [])
  }

  /** A `table` frame goes to the `table` case. */
  lemma TableFrameDispatch(p: Processor, f: Frame)
    requires f.Frame? && f.kind == Some("table")
    ensures HandleMessage(p, f) == HandleTable(p, f)
  {
    assert "table" != "progress" && "table" != "error";
  }

  /** Only a `table` frame changes the state; every other frame, parsable or
      not, leaves it exactly as it was. */
  lemma OnlyTableFramesChangeState(p: Processor, f: Frame)
    requires HandleMessage(p, f).state != p
    ensures f.Frame? && f.kind == Some("table")
  {
  }

  /** A `table` frame with content and columns stores the content, counts the
      table, and pushes the cleaned table onto the history, making it the
      shown entry, exactly when cleaning leaves at least one row; otherwise
      the history is untouched. */
  lemma TableFramePushes(p: Processor, f: Frame, c: string)
    requires History.Valid(p.history)
    requires f.Frame? && f.kind == Some("table") && f.content == Some(c) && f.columns.Some?
    ensures var r := HandleMessage(p, f);
            && r.state.csvContent == c
            && r.state.extractedTables == p.extractedTables + 1
            && (r.state.history != p.history <==> |CleanedTable(c)| > 0)
            && (|CleanedTable(c)| > 0 ==>
                  && r.state.history == History.AddToHistory(p.history, CleanedTable(c))
                  && History.Current(r.state.history) == Some(CleanedTable(c))
                  && ShowsTable(r.events))
  {
    var p1 := p.(csvContent := c, extractedTables := p.extractedTables + 1);
    var t := CleanedTable(c);
    ShowTablePushes(p1, f, t);
    var shown := ShowTable(p1, f, t);
    TableFrameDispatch(p, f);
    var r := HandleTable(p, f);
    assert r.state == shown.state && r.events[2..] == shown.events;
    if |t| > 0 {
      var k :| 0 <= k < |shown.events| && shown.events[k].TableShown?;
      assert r.events[k + 2] == shown.events[k];
    }
  }

  /** A `table` frame without `columns` counts the table and stores its text,
      but neither draws it nor records it: the history is unchanged. */
  lemma MissingColumnsDropsTable(p: Processor, f: Frame, c: string)
    requires f.Frame? && f.kind == Some("table") && f.content == Some(c) && f.columns.None?
    ensures var r := HandleMessage(p, f);
            && r.state == p.(csvContent := c, extractedTables := p.extractedTables + 1)
            && !ShowsTable(r.events)
            && r.events[|r.events| - 1] == Output(ErrorProcessingData)
  {
  }

  /** The frame api/consumers.py sends for each table: `type` and `content`
      only. */
  function ServerTableFrame(c: string): Frame {
    Frame(Some("table"), None, None, None, Some(c), None, None, None, None, None, None)
  }

  /** As written, no table the server sends is ever drawn or recorded,
      whatever its content. */
  lemma ServerTablesNeverShown(p: Processor, c: string)
    ensures var r := HandleMessage(p, ServerTableFrame(c));
            && r.state.history == p.history
            && !ShowsTable(r.events)
  {
    MissingColumnsDropsTable(p, ServerTableFrame(c), c);
  }

  /** The handler with absent metadata read as empty: missing `columns` is
      taken as no column names instead of throwing. */
  function HandleMessageTolerant(p: Processor, f: Frame): (r: Step)
    ensures Valid(p) ==> Valid(r.state)
    ensures f.Frame? && f.columns.Some? ==> r == HandleMessage(p, f)
  {
    match f
    case Unparsable => HandleMessage(p, f)
    case Frame(_, _, _, _, _, _, _, _, _, _, _) =>
      HandleMessage(p, f.(columns := Some(f.columns.GetOr([]))))
  }

  /** With the tolerant handler every table frame with content, the server's
      included, is drawn and becomes the current history entry whenever its
      cleaned form has a row, whether or not it carries `columns`. */
  lemma TolerantShowsTables(p: Processor, f: Frame, c: string)
    requires History.Valid(p.history)
    requires f.Frame? && f.kind == Some("table") && f.content == Some(c)
    requires |CleanedTable(c)| > 0
    ensures var r := HandleMessageTolerant(p, f);
            && r.state.history == History.AddToHistory(p.history, CleanedTable(c))
            && History.Current(r.state.history) == Some(CleanedTable(c))
            && ShowsTable(r.events)
  {
    var g := f.(columns := Some(f.columns.GetOr([])));
    TableFramePushes(p, g, c);
  }

  // ---------------------------------------------------------------------------
  // processFile

  /** `processFile(file, operation)`, `file` being the chosen file's name and
      `read` the `FileReader` data URL, `None` when reading fails. Without a
      file, or without an open socket, nothing happens beyond a message.
      Otherwise the stored CSV is cleared first; a failed read keeps the
      history, and a successful one sends the upload and resets the history. */
  function ProcessFile(p: Processor, file: Option<string>, operation: string, read: Option<string>): (r: Step)
    ensures Valid(p) ==> Valid(r.state)
    ensures r.state.session == p.session && r.state.extractedTables == p.extractedTables
    ensures (file.None? || p.session.ready != Connection.Open) ==> r.state == p
    ensures file.Some? && p.session.ready == Connection.Open ==> r.state.csvContent == ""
  {
    if file.None? then
      Step(p, [Output("Please select a PDF file"), Notify(NoFileSelected)])
    else if p.session.ready != Connection.Open then
      Step(p, [Output("Connection lost - Please wait"), Notify(ConnectionLost)])
    else
      var p1 := p.(csvContent := "");
      match read
      case None => Step(p1, [Output("Error reading file"), Notify(ErrorReadingFile)])
      case Some(dataUrl) =>
        var h := History.Empty();
        Step(p1.(history := h),
             [ProgressBar(0), Upload(file.value, operation, dataUrl), Output("Processing PDF..."),
              Notify(ProcessingStarted), ButtonsUpdated(History.UpdateButtons(h))])
  }

  /** An upload is sent exactly when a file was chosen, the socket is open and
      the file could be read; it carries the file's name, the operation and
      the data URL, and afterwards the history is empty. */
  lemma UploadIffReady(p: Processor, file: Option<string>, operation: string, read: Option<string>)
    ensures var r := ProcessFile(p, file, operation, read);
            && (Sends(r.events) <==> file.Some? && p.session.ready == Connection.Open && read.Some?)
            && (Sends(r.events) ==>
                  && Upload(file.value, operation, read.value) in r.events
                  && r.state.history == History.Empty())
            && (!Sends(r.events) ==> r.state.history == p.history)
  {
    var r := ProcessFile(p, file, operation, read);
    if file.Some? && p.session.ready == Connection.Open && read.Some? {
      assert r.events[1].Upload?;
    }
  }

  /** The file input's `change` listener: a chosen file is processed with the
      `basic` operation; clearing the selection does nothing. */
  function FileChosen(p: Processor, file: Option<string>, read: Option<string>): (r: Step)
    ensures file.None? ==> r == Step(p, [])
    ensures file.Some? ==> r == ProcessFile(p, file, "basic", read)
  {
    if file.None? then Step(p, []) else ProcessFile(p, file, "basic", read)
  }

  // ---------------------------------------------------------------------------
  // Buttons and resets

  /** `clearTables()`: no CSV, no tables counted, an empty history. */
  function ClearTables(p: Processor): (r: Step)
    ensures Valid(p) ==> Valid(r.state)
    ensures r.state.csvContent == "" && r.state.extractedTables == 0 && |r.state.history.entries| == 0
    ensures r.state.history == History.Empty()
    ensures r.state.session == p.session
  {
    var h := History.Empty();
    Step(p.(csvContent := "", extractedTables := 0, history := h),
         [OutputCleared, TableCount(0), ButtonsUpdated(History.UpdateButtons(h)), Notify(AllTablesCleared)])
  }

  /** `cleanup()`: only the history is reset; the stored CSV and the counter
      stay. */
  function Cleanup(p: Processor): (r: Step)
    ensures Valid(p) ==> Valid(r.state)
    ensures r.state == p.(history := History.Empty())
  {
    var h := History.Empty();
    Step(p.(history := h), [ButtonsUpdated(History.UpdateButtons(h)), OutputCleared, ProgressBar(0)])
  }

  /** The effects of `renderHistoryState()` for the cursor `h` points at:
      the output is cleared, the entry is drawn and the buttons are refreshed.
      Without an entry under the cursor, `createTable(undefined)` throws right
      after the output is cleared, so the buttons are not refreshed. */
  function RenderHistoryState(h: History.History<Table>): (events: seq<Event>)
    ensures ShowsTable(events) <==> History.Current(h).Some?
    ensures History.Current(h).Some? ==>
              events == [OutputCleared, TableShown(History.Current(h).value),
                         ButtonsUpdated(History.UpdateButtons(h))]
    ensures History.Current(h).None? ==> events == [OutputCleared]
  {
    match History.Current(h)
    case Some(t) =>
      var events := [OutputCleared, TableShown(t), ButtonsUpdated(History.UpdateButtons(h))];
      assert events[1].TableShown?;
      events
    case None => [OutputCleared]
  }

  /** `undo()`: moves the history cursor back and redraws, or does nothing. */
  function UndoStep(p: Processor): (r: Step)
    ensures Valid(p) ==> Valid(r.state)
    ensures r.state == p.(history := History.Undo(p.history))
    ensures r.events == [] <==> History.UpdateButtons(p.history).undoDisabled
  {
    if p.history.cursor > 0 then
      var h := History.Undo(p.history);
      Step(p.(history := h), RenderHistoryState(h))
    else
      Step(p, [])
  }

  /** `redo()`: moves the history cursor forward and redraws, or does nothing. */
  function RedoStep(p: Processor): (r: Step)
    ensures Valid(p) ==> Valid(r.state)
    ensures r.state == p.(history := History.Redo(p.history))
    ensures r.events == [] <==> History.UpdateButtons(p.history).redoDisabled
  {
    if p.history.cursor < |p.history.entries| - 1 then
      var h := History.Redo(p.history);
      Step(p.(history := h), RenderHistoryState(h))
    else
      Step(p, [])
  }

  /** `downloadCurrentTable()`: offers the stored CSV as a file when there is
      one. */
  function DownloadStep(p: Processor): (r: Step)
    ensures r.state == p
    ensures r.events != [] <==> p.csvContent != ""
    ensures p.csvContent != "" ==> r.events[0] == Download(p.csvContent)
  {
    if p.csvContent == "" then Step(p, []) else Step(p, [Download(p.csvContent), Notify(TableDownloaded)])
  }

  /** The copy button: puts the stored CSV on the clipboard when there is one. */
  function CopyStep(p: Processor): (r: Step)
    ensures r.state == p
    ensures r.events != [] <==> p.csvContent != ""
    ensures p.csvContent != "" ==> r.events[0] == Copy(p.csvContent)
  {
    if p.csvContent == "" then Step(p, []) else Step(p, [Copy(p.csvContent), Notify(CsvCopied)])
  }

  /** Runs the actions of one key press in order. */
  function RunActions(p: Processor, actions: seq<Shortcuts.Action>): (r: Step)
    ensures Valid(p) ==> Valid(r.state)
    ensures r.state.csvContent == p.csvContent && r.state.extractedTables == p.extractedTables
    ensures r.state.history.entries == p.history.entries && r.state.session == p.session
    decreases |actions|
  {
    if |actions| == 0 then Step(p, [])
    else
      var first := match actions[0]
        case UndoKey => UndoStep(p)
        case RedoKey => RedoStep(p)
        case SaveKey => DownloadStep(p);
      var rest := RunActions(first.state, actions[1..]);
      Step(rest.state, first.events + rest.events)
  }

  /** The `keydown` listener: a shortcut only moves the history cursor or
      downloads; the stored CSV, the counter and the history's entries stay. */
  function HandleKey(p: Processor, e: Shortcuts.KeyEvent): (r: Step)
    ensures Valid(p) ==> Valid(r.state)
    ensures r.state.csvContent == p.csvContent && r.state.extractedTables == p.extractedTables
    ensures r.state.history.entries == p.history.entries && r.state.session == p.session
    ensures !Shortcuts.Modified(e) ==> r == Step(p, [])
  {
    RunActions(p, Shortcuts.Shortcut(e))
  }

  // ---------------------------------------------------------------------------
  // Socket events

  /** `onopen`. */
  function Opened(p: Processor): (r: Step)
    ensures Valid(p) ==> Valid(r.state)
    ensures r.state.session.attempts == 0 && r.state.session.ready == Connection.Open
    ensures r.state.history == p.history && r.state.csvContent == p.csvContent
  {
    Step(p.(session := Connection.OnOpen(p.session)), [Output("Connected and ready for PDFs")])
  }

  /** `handleWebSocketClose()`: reports the attempt as `Reconnecting (n/5)...`
      and schedules it, or reports that the client gave up. */
  function Closed(p: Processor): (r: Step)
    ensures Valid(p) ==> Valid(r.state)
    ensures r.state.history == p.history && r.state.csvContent == p.csvContent
  {
    var (s, outcome) := Connection.OnClose(p.session);
    var events := match outcome
      case Reconnect(d) =>
        [Output("Reconnecting (" + NatToString(s.attempts) + "/" + NatToString(Connection.MaxReconnectAttempts) + ")..."),
         ScheduleReconnect(d)]
      case GiveUp => [Output("Connection failed - Please refresh")];
    Step(p.(session := s), events)
  }

  /** A scheduled reconnect fires. */
  function ReconnectFired(p: Processor): (r: Step)
    ensures Valid(p) ==> Valid(r.state)
    ensures r.state == p.(session := Connection.OnReconnectTimer(p.session))
  {
    Step(p.(session := Connection.OnReconnectTimer(p.session)), [])
  }

  // ---------------------------------------------------------------------------
  // Whole sessions

  /** Everything that can happen to the page. */
  datatype Input =
    | Message(frame: Frame)
    | ChooseFile(file: Option<string>, read: Option<string>)
    | Submit(file: Option<string>, operation: string, read: Option<string>)
    | ClearButton
    | CopyButton
    | DownloadButton
    | UndoButton
    | RedoButton
    | Key(event: Shortcuts.KeyEvent)
    | CleanupCall
    | SocketOpened
    | SocketClosed
    | TimerFired

  /** Which message handler a session runs: the one in the source, or the
      one that reads absent metadata as empty. */
  datatype Handler = AsWritten | Tolerant

  function Apply(p: Processor, input: Input, handler: Handler): Step {
    match input
    case Message(f) =>
      (match handler
       case AsWritten => HandleMessage(p, f)
       case Tolerant => HandleMessageTolerant(p, f))
    case ChooseFile(file, read) => FileChosen(p, file, read)
    case Submit(file, op, read) => ProcessFile(p, file, op, read)
    case ClearButton => ClearTables(p)
    case CopyButton => CopyStep(p)
    case DownloadButton => DownloadStep(p)
    case UndoButton => UndoStep(p)
    case RedoButton => RedoStep(p)
    case Key(e) => HandleKey(p, e)
    case CleanupCall => Cleanup(p)
    case SocketOpened => Opened(p)
    case SocketClosed => Closed(p)
    case TimerFired => ReconnectFired(p)
  }

  /** The state after a sequence of inputs. */
  function Run(p: Processor, inputs: seq<Input>, handler: Handler): Processor
    decreases |inputs|
  {
    if |inputs| == 0 then p else Run(Apply(p, inputs[0], handler).state, inputs[1..], handler)
  }

  /** From the constructor on, whatever happens and with either handler, the
      history cursor stays in range (so undo and redo always redraw an
      existing table) and the reconnect counter never exceeds five. */
  lemma {:induction false} RunKeepsValid(p: Processor, inputs: seq<Input>, handler: Handler)
    requires Valid(p)
    ensures Valid(Run(p, inputs, handler))
    decreases |inputs|
  {
    if |inputs| > 0 {
      RunKeepsValid(Apply(p, inputs[0], handler).state, inputs[1..], handler);
    }
  }

  /** In a valid state undo and redo always redraw a table that is in the
      history. */
  lemma UndoRedoShowEntries(p: Processor)
    requires Valid(p)
    ensures UndoStep(p).events != [] ==> ShowsTable(UndoStep(p).events)
    ensures RedoStep(p).events != [] ==> ShowsTable(RedoStep(p).events)
  {
    if UndoStep(p).events != [] {
      assert UndoStep(p).events[1].TableShown?;
    }
    if RedoStep(p).events != [] {
      assert RedoStep(p).events[1].TableShown?;
    }
  }
}

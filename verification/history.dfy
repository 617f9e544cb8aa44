/**
 The undo/redo history of `PDFProcessor` (static/api/js/pdf_processor.js):
 a list of snapshots and a cursor (`currentHistoryIndex`) that starts at -1.
 Pushing a snapshot discards everything after the cursor; undo and redo only
 move the cursor.
 */
module History {
  import opened Wrappers

  datatype History<T> = History(entries: seq<T>, cursor: int)

  /** `history = []; currentHistoryIndex = -1`: the constructor's state and
      what `clearTables`, `processFile` and `cleanup` reset to. */
  function Empty<T>(): (h: History<T>)
    ensures Valid(h) && |h.entries| == 0
  {
    History([], -1)
  }

  /** The cursor points at an entry, or is -1 exactly when there is none. */
  predicate Valid<T>(h: History<T>) {
    && -1 <= h.cursor < |h.entries|
    && (h.cursor == -1 <==> |h.entries| == 0)
  }

  /** `s.slice(0, end)`: a negative `end` counts from the back, and the result
      is clamped to the sequence. */
  function SlicePrefix<T>(s: seq<T>, end: int): (r: seq<T>)
    ensures 0 <= end <= |s| ==> r == s[..end]
    ensures |r| <= |s| && r == s[..|r|]
  {
    var n := if end < 0 then |s| + end else end;
    var k := if n < 0 then 0 else if n > |s| then |s| else n;
    s[..k]
  }

  /** `addToHistory(data)`: keeps the entries up to the cursor, appends the
      snapshot and points the cursor at it. */
  function AddToHistory<T>(h: History<T>, data: T): (r: History<T>)
    ensures Valid(r)
    ensures |r.entries| > 0 && r.cursor == |r.entries| - 1 && r.entries[r.cursor] == data
    ensures Valid(h) ==> r.entries == h.entries[..h.cursor + 1] + [data]
  {
    var es := SlicePrefix(h.entries, h.cursor + 1) + [data];
    History(es, |es| - 1)
  }

  /** `undo()`: steps the cursor back unless it is at 0 or below. */
  function Undo<T>(h: History<T>): (r: History<T>)
    ensures r.entries == h.entries
    ensures h.cursor <= 0 ==> r == h
    ensures h.cursor > 0 ==> r.cursor == h.cursor - 1
    ensures Valid(h) ==> Valid(r)
  {
    if h.cursor > 0 then h.(cursor := h.cursor - 1) else h
  }

  /** `redo()`: steps the cursor forward unless it is at the last entry. */
  function Redo<T>(h: History<T>): (r: History<T>)
    ensures r.entries == h.entries
    ensures h.cursor >= |h.entries| - 1 ==> r == h
    ensures h.cursor < |h.entries| - 1 ==> r.cursor == h.cursor + 1
    ensures Valid(h) ==> Valid(r)
  {
    if h.cursor < |h.entries| - 1 then h.(cursor := h.cursor + 1) else h
  }

  /** The snapshot the cursor points at, which `renderHistoryState` shows. */
  function Current<T>(h: History<T>): Option<T> {
    if 0 <= h.cursor < |h.entries| then Some(h.entries[h.cursor]) else None
  }

  /** The disabled flags of the undo and redo buttons. */
  datatype Buttons = Buttons(undoDisabled: bool, redoDisabled: bool)

  /** `updateUndoRedoButtons()`: each button is disabled exactly when
      pressing it would do nothing. */
  function UpdateButtons<T>(h: History<T>): (b: Buttons)
    ensures b.undoDisabled <==> Undo(h) == h
    ensures b.redoDisabled <==> Redo(h) == h
  {
    Buttons(h.cursor <= 0, h.cursor >= |h.entries| - 1)
  }

  /** After a push nothing is left to redo, and the pushed snapshot is shown. */
  lemma AddLeavesNothingToRedo<T>(h: History<T>, data: T)
    ensures Redo(AddToHistory(h, data)) == AddToHistory(h, data)
    ensures UpdateButtons(AddToHistory(h, data)).redoDisabled
    ensures Current(AddToHistory(h, data)) == Some(data)
  {
  }

  /** Undoing a push shows again what was shown before it. */
  lemma UndoAfterAdd<T>(h: History<T>, data: T)
    requires Valid(h) && |h.entries| > 0
    ensures Current(Undo(AddToHistory(h, data))) == Current(h)
  {
    var r := AddToHistory(h, data);
    assert r.entries[h.cursor] == h.entries[h.cursor];
  }

  /** `n` presses of undo. */
  function UndoN<T>(h: History<T>, n: nat): History<T>
    decreases n
  {
    if n == 0 then h else UndoN(Undo(h), n - 1)
  }

  /** `n` presses of redo. */
  function RedoN<T>(h: History<T>, n: nat): History<T>
    decreases n
  {
    if n == 0 then h else RedoN(Redo(h), n - 1)
  }

  /** `n` undos from a cursor at least `n` move it back by exactly `n`. */
  lemma {:induction false} UndoNMoves<T>(h: History<T>, n: nat)
    requires n <= h.cursor
    ensures UndoN(h, n) == h.(cursor := h.cursor - n)
    decreases n
  {
    if n > 0 {
      UndoNMoves(Undo(h), n - 1);
    }
  }

  /** `n` redos with at least `n` entries ahead move forward by exactly `n`. */
  lemma {:induction false} RedoNMoves<T>(h: History<T>, n: nat)
    requires h.cursor + n <= |h.entries| - 1
    ensures RedoN(h, n) == h.(cursor := h.cursor + n)
    decreases n
  {
    if n > 0 {
      RedoNMoves(Redo(h), n - 1);
    }
  }

  /** `n` undos followed by `n` redos restore the history, and so the shown
      snapshot, whenever the undos all moved. */
  lemma UndoRedoRoundTrip<T>(h: History<T>, n: nat)
    requires Valid(h) && n <= h.cursor
    ensures RedoN(UndoN(h, n), n) == h
  {
    UndoNMoves(h, n);
    RedoNMoves(h.(cursor := h.cursor - n), n);
  }
}

/**
 The document-wide `keydown` listener of `PDFProcessor`
 (static/api/js/pdf_processor.js): Ctrl or Cmd with `z` undoes, with Shift+`z`
 or `y` redoes, and with `s` downloads the current CSV.
 */
module Shortcuts {

  /** The fields of a `KeyboardEvent` the listener reads. */
  datatype KeyEvent = KeyEvent(key: string, ctrl: bool, meta: bool, shift: bool)

  datatype Action = UndoKey | RedoKey | SaveKey

  /** `e.ctrlKey || e.metaKey`. */
  predicate Modified(e: KeyEvent) {
    e.ctrl || e.meta
  }

  /** The actions one key press triggers: the three independent checks in
      source order, each of which also prevents the browser default. */
  function Shortcut(e: KeyEvent): (actions: seq<Action>)
    ensures |actions| <= 1
    ensures !Modified(e) ==> actions == []
  {
    (if Modified(e) && e.key == "z" && !e.shift then [UndoKey] else [])
    + (if Modified(e) && ((e.key == "z" && e.shift) || e.key == "y") then [RedoKey] else [])
    + (if Modified(e) && e.key == "s" then [SaveKey] else [])
  }

  /** A press is taken over (default prevented) exactly when Ctrl or Cmd is
      held with `z`, `y` or `s`: `z` undoes (redoes with Shift), `y` redoes
      and `s` downloads; Shift never matters for `y` or `s`. */
  lemma ShortcutKeys(e: KeyEvent)
    ensures |Shortcut(e)| == 1 <==> Modified(e) && e.key in ["z", "y", "s"]
    ensures e.key == "y" || e.key == "s" ==> Shortcut(e) == Shortcut(e.(shift := !e.shift))
    ensures Modified(e) && e.key == "z" ==> Shortcut(e) == [if e.shift then RedoKey else UndoKey]
    ensures Modified(e) && e.key == "y" ==> Shortcut(e) == [RedoKey]
    ensures Modified(e) && e.key == "s" ==> Shortcut(e) == [SaveKey]
  {
  }

  /** Only lower-case key values are recognised: a press reporting `Z` (as
      Shift+Z usually does) triggers nothing. */
  lemma UpperCaseIgnored(e: KeyEvent)
    requires e.key in ["Z", "Y", "S"]
    ensures Shortcut(e) == []
  {
  }
}

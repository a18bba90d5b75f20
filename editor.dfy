/**
 * The editor of js/editor.js: a textarea and a bounded undo/redo history, and
 * the cursor queries (line, column, current line).
 *
 * The history is a value, `History(entries, index)`, with one function per
 * operation; the `Editor` class holds the same two fields and its methods are
 * proved to move them as those functions do. The textarea is a class of its
 * own, with the behaviour the HTML standard gives a `<textarea>`: assigning a
 * different value moves the caret to the end, and the selection setters clamp
 * into the text.
 */
module Editing {
  import opened Strings

  // ------------------------------------------------------------------ history

  /** At most this many entries are kept (js/editor.js:53). */
  const Limit: nat := 50

  datatype History = History(entries: seq<string>, index: int)

  /** A fresh or cleared editor (js/editor.js:9-10, 109-110). */
  const Empty := History([], -1)

  /** `array.slice(0, k)`: a negative k counts from the end, and k is clamped. */
  function SliceTo(s: seq<string>, k: int): (r: seq<string>)
    ensures 0 <= k <= |s| ==> r == s[..k]
    ensures k > |s| ==> r == s
  {
    if k < 0 then (if |s| + k < 0 then [] else s[..|s| + k])
    else if k > |s| then s
    else s[..k]
  }

  /** `history[k]` as JavaScript reads it: an index outside the array gives
      `undefined`, which becomes the string "undefined" once it is stored in a
      textarea. */
  function EntryAt(h: History, k: int): string
  {
    if 0 <= k < |h.entries| then h.entries[k] else "undefined"
  }

  /** `addToHistory` (js/editor.js:47-56): advance the index, drop the entries
      after it, append, and drop the oldest entry beyond the limit; the index is
      not moved back by that last step. */
  function Added(h: History, text: string): History
  {
    var index := h.index + 1;
    var pushed := SliceTo(h.entries, index) + [text];
    History(if |pushed| > Limit then pushed[1..] else pushed, index)
  }

  predicate CanUndo(h: History) { h.index > 0 }

  /** `undo` (js/editor.js:58-65) on the history. */
  function Undone(h: History): History
  {
    if CanUndo(h) then h.(index := h.index - 1) else h
  }

  predicate CanRedo(h: History) { h.index < |h.entries| - 1 }

  /** `redo` (js/editor.js:67-74) on the history. */
  function Redone(h: History): History
  {
    if CanRedo(h) then h.(index := h.index + 1) else h
  }

  /** The history never grows past the limit. */
  lemma AddedBounded(h: History, text: string)
    requires |h.entries| <= Limit
    ensures |Added(h, text).entries| <= Limit
    ensures |Added(h, text).entries| >= 1
  {
  }

  /** Below the limit an addition keeps the entries up to the index, puts the
      text at the new index, and leaves nothing to redo. */
  lemma AddedOnTop(h: History, text: string)
    requires -1 <= h.index < |h.entries| && h.index + 1 < Limit
    ensures var a := Added(h, text);
      a.index == h.index + 1 && a.entries == h.entries[..h.index + 1] + [text] &&
      EntryAt(a, a.index) == text && !CanRedo(a)
  {
  }

  /** Once the limit is reached, the dropped oldest entry is not accounted for:
      the index points one past the last entry. */
  lemma AddedAtLimit(h: History, text: string)
    requires h.index == |h.entries| - 1 && |h.entries| == Limit
    ensures var a := Added(h, text);
      |a.entries| == Limit && a.index == |a.entries| && EntryAt(a, a.index) == "undefined"
  {
  }

  /** The history after a run of additions. */
  function AddedAll(h: History, texts: seq<string>): History
    decreases |texts|
  {
    if texts == [] then h else AddedAll(Added(h, texts[0]), texts[1..])
  }

  /** From an empty history, n additions leave the index at n - 1 and
      min(n, 50) entries. */
  lemma {:induction false} AddedAllShape(h: History, texts: seq<string>, k: nat)
    requires h.index == k - 1 && |h.entries| == if k < Limit then k else Limit
    ensures AddedAll(h, texts).index == k + |texts| - 1
    ensures |AddedAll(h, texts).entries| == if k + |texts| < Limit then k + |texts| else Limit
    decreases |texts|
  {
    if texts != [] {
      var a := Added(h, texts[0]);
      assert SliceTo(h.entries, h.index + 1) == h.entries;
      AddedAllShape(a, texts[1..], k + 1);
    }
  }

  /** After 51 or more additions the index is outside the history; after 52 or
      more an undo stores "undefined" in the textarea. */
  lemma IndexDrifts(texts: seq<string>)
    requires |texts| > Limit
    ensures var a := AddedAll(Empty, texts);
      a.index >= |a.entries| && CanUndo(a) &&
      (|texts| > Limit + 1 ==> EntryAt(Undone(a), Undone(a).index) == "undefined")
  {
    AddedAllShape(Empty, texts, 0);
  }

  /** Undo then redo comes back to the same place while the index is within
      the history. */
  lemma UndoThenRedo(h: History)
    requires CanUndo(h) && h.index < |h.entries|
    ensures CanRedo(Undone(h)) && Redone(Undone(h)) == h
  {
  }

  /** Redo then undo comes back too, from any index that is not negative. */
  lemma RedoThenUndo(h: History)
    requires CanRedo(h) && h.index >= 0
    ensures CanUndo(Redone(h)) && Undone(Redone(h)) == h
  {
  }

  /** Undo from the start and redo from the end change nothing. */
  lemma UndoRedoStop(h: History)
    ensures !CanUndo(h) ==> Undone(h) == h
    ensures !CanRedo(h) ==> Redone(h) == h
    ensures h == Empty ==> !CanUndo(h) && !CanRedo(h)
  {
  }

  // ---------------------------------------------------------- cursor queries

  /** `getLineNumber` (js/editor.js:83-85). */
  function LineNumber(value: string, pos: int): nat
  {
    |Split(Substring(value, 0, pos), "\n")|
  }

  /** The line number is one more than the newlines before the cursor. */
  lemma LineNumberCounts(value: string, pos: nat)
    requires pos <= |value|
    ensures LineNumber(value, pos) == 1 + CountChar(value[..pos], '\n')
  {
    SplitCount(value[..pos], '\n');
  }

  /** `getColumnNumber` (js/editor.js:87-90). */
  function ColumnNumber(value: string, pos: int): int
  {
    var last := LastIndexOf(value, '\n', pos);
    pos - (if last == -1 then 0 else last + 1)
  }

  /** Away from a newline under the cursor, the column counts the characters
      between the line's start and the cursor; on a newline it is -1, since
      `lastIndexOf` looks at the cursor's own character too. */
  lemma ColumnOf(value: string, pos: nat)
    requires pos <= |value|
    ensures pos < |value| && value[pos] == '\n' ==> ColumnNumber(value, pos) == -1
    ensures pos == |value| || value[pos] != '\n' ==>
      var c := ColumnNumber(value, pos);
      0 <= c <= pos && (forall k :: pos - c <= k < pos ==> value[k] != '\n') &&
      (pos - c == 0 || value[pos - c - 1] == '\n')
  {
  }

  /** `getCurrentLine` (js/editor.js:92-97). */
  function CurrentLine(value: string, pos: nat): string
  {
    var start := LastIndexOf(value, '\n', pos) + 1;
    var end := match IndexFrom(value, "\n", pos) case Some(e) => e as int case None => -1;
    Substring(value, start, if end == -1 then |value| else end)
  }

  /** Away from a newline under the cursor, the current line is the stretch
      around the cursor between two newlines (or the ends of the text). */
  lemma CurrentLineOf(value: string, pos: nat)
    requires pos <= |value| && (pos == |value| || value[pos] != '\n')
    ensures var r := CurrentLine(value, pos);
      '\n' !in r && exists a, b :: (0 <= a <= pos <= b <= |value| && r == value[a..b] &&
        (a == 0 || value[a - 1] == '\n') && (b == |value| || value[b] == '\n'))
  {
    var a := LastIndexOf(value, '\n', pos) + 1;
    var e := IndexFrom(value, "\n", pos);
    var b := match e case Some(j) => j case None => |value|;
    if e.Some? { HasAtSingle(value, b, '\n'); }
    forall k | pos <= k < b ensures value[k] != '\n' { HasAtSingle(value, k, '\n'); }
    assert CurrentLine(value, pos) == value[a..b];
    forall k | a <= k < b ensures value[k] != '\n' { }
  }

  /** On a newline the two searches cross and `substring` swaps its ends: the
      current line is the newline itself. */
  lemma CurrentLineOnNewline(value: string, pos: nat)
    requires pos < |value| && value[pos] == '\n'
    ensures CurrentLine(value, pos) == "\n"
  {
    HasAtSingle(value, pos, '\n');
    assert value[pos..pos + 1] == "\n";
  }

  /** `replaceLine` (js/editor.js:99-105): the new text, or None when the line
      number is outside the text. */
  function ReplacedLine(value: string, lineNumber: int, newContent: string): Option<string>
  {
    var lines := Split(value, "\n");
    if 0 <= lineNumber < |lines| then Some(Join(lines[lineNumber := newContent], "\n")) else None
  }

  /** In range, the line is replaced, the others are kept, and the line count
      stays when the new content has no newline. */
  lemma ReplacedLineOf(value: string, lineNumber: int, newContent: string)
    requires '\n' !in newContent
    ensures var lines := Split(value, "\n");
      ReplacedLine(value, lineNumber, newContent).Some? <==> 0 <= lineNumber < |lines|
    ensures var lines := Split(value, "\n");
      0 <= lineNumber < |lines| ==>
        var r := Split(ReplacedLine(value, lineNumber, newContent).value, "\n");
        |r| == |lines| && r[lineNumber] == newContent &&
        forall k :: 0 <= k < |r| && k != lineNumber ==> r[k] == lines[k]
  {
    var lines := Split(value, "\n");
    if 0 <= lineNumber < |lines| {
      var ls := lines[lineNumber := newContent];
      forall k | 0 <= k < |ls| ensures '\n' !in ls[k] {
        if k != lineNumber {
          assert !Contains(lines[k], "\n");
          forall j | 0 <= j < |ls[k]| ensures ls[k][j] != '\n' { HasAtSingle(ls[k], j, '\n'); }
        }
      }
      SplitJoin(ls, '\n');
    }
  }

  // -------------------------------------------------------------- the textarea

  /** A `<textarea>`: its value and selection. */
  class TextArea {
    var value: string
    var selectionStart: nat
    var selectionEnd: nat

    ghost predicate Valid()
      reads this
    {
      selectionStart <= selectionEnd <= |value|
    }

    constructor()
      ensures Valid() && value == [] && selectionStart == 0 && selectionEnd == 0
    {
      value, selectionStart, selectionEnd := [], 0, 0;
    }

    /** The selection as assigning `value` leaves it: a caret at the end of a
        changed text, the old selection when the text is the same. */
    twostate predicate SelectionAfterSet()
      reads this
    {
      (value != old(value) ==> selectionStart == |value| && selectionEnd == |value|) &&
      (value == old(value) ==> selectionStart == old(selectionStart) && selectionEnd == old(selectionEnd))
    }

    /** Assigning `value`: a different text puts the caret at its end. */
    method SetValue(v: string)
      requires Valid()
      modifies this
      ensures Valid() && value == v
      ensures v != old(value) ==> selectionStart == |v| && selectionEnd == |v|
      ensures v == old(value) ==> selectionStart == old(selectionStart) && selectionEnd == old(selectionEnd)
    {
      if v != value {
        value, selectionStart, selectionEnd := v, |v|, |v|;
      }
    }

    /** Assigning `selectionStart`: the end is pushed along when the start
        passes it, and both are clamped to the text. */
    method SetSelectionStart(n: nat)
      requires Valid()
      modifies this
      ensures Valid() && value == old(value)
      ensures selectionStart == Min(n, |value|)
      ensures selectionEnd == Min(Max(n, old(selectionEnd)), |value|)
    {
      var end := Min(Max(n, selectionEnd), |value|);
      selectionStart, selectionEnd := Min(n, end), end;
    }

    /** Assigning `selectionEnd`: clamped to the text, and the start is pulled
        back when the end falls before it. */
    method SetSelectionEnd(n: nat)
      requires Valid()
      modifies this
      ensures Valid() && value == old(value)
      ensures selectionEnd == Min(n, |value|)
      ensures selectionStart == Min(old(selectionStart), selectionEnd)
    {
      var end := Min(n, |value|);
      selectionStart, selectionEnd := Min(selectionStart, end), end;
    }
  }

  function Min(a: int, b: int): int { if a <= b then a else b }
  function Max(a: int, b: int): int { if a <= b then b else a }

  // ---------------------------------------------------------------- the editor

  /** `Editor` (js/editor.js:6-131). */
  class Editor {
    const element: TextArea
    var history: seq<string>
    var historyIndex: int

    function State(): History
      reads this
    {
      History(history, historyIndex)
    }

    constructor(textarea: TextArea)
      ensures element == textarea && State() == Empty
    {
      element := textarea;
      history := [];
      historyIndex := -1;
    }

    method GetText() returns (text: string)
      ensures text == element.value
    {
      text := element.value;
    }

    /** js/editor.js:47-56. */
    method AddToHistory(text: string)
      modifies this
      ensures State() == Added(old(State()), text)
    {
      historyIndex := historyIndex + 1;
      history := SliceTo(history, historyIndex);
      history := history + [text];
      if |history| > Limit {
        history := history[1..];
      }
    }

    /** js/editor.js:33-36. */
    method SetText(text: string)
      requires element.Valid()
      modifies this, element
      ensures element.Valid() && element.value == text && element.SelectionAfterSet()
      ensures State() == Added(old(State()), text)
    {
      element.SetValue(text);
      AddToHistory(text);
    }

    /** js/editor.js:38-45: the text goes in at `position`, or at the start of
        the selection when none is given; it is not recorded in the history. */
    method InsertText(text: string, position: Option<int>)
      requires element.Valid()
      modifies element
      ensures element.Valid() && element.SelectionAfterSet()
      ensures var p := if position.Some? then position.value else old(element.selectionStart);
        element.value == Substring(old(element.value), 0, p) + text + Substring(old(element.value), p, |old(element.value)|)
    {
      var p := if position.Some? then position.value else element.selectionStart;
      var before := Substring(element.value, 0, p);
      var after := Substring(element.value, p, |element.value|);
      element.SetValue(before + text + after);
    }

    /** js/editor.js:58-65. */
    method Undo() returns (done: bool)
      requires element.Valid()
      modifies this, element
      ensures element.Valid() && element.SelectionAfterSet() && done == CanUndo(old(State()))
      ensures State() == Undone(old(State()))
      ensures done ==> element.value == EntryAt(State(), historyIndex)
      ensures !done ==> element.value == old(element.value)
    {
      if historyIndex > 0 {
        historyIndex := historyIndex - 1;
        element.SetValue(EntryAt(State(), historyIndex));
        return true;
      }
      return false;
    }

    /** js/editor.js:67-74. */
    method Redo() returns (done: bool)
      requires element.Valid()
      modifies this, element
      ensures element.Valid() && element.SelectionAfterSet() && done == CanRedo(old(State()))
      ensures State() == Redone(old(State()))
      ensures done ==> element.value == EntryAt(State(), historyIndex)
      ensures !done ==> element.value == old(element.value)
    {
      if historyIndex < |history| - 1 {
        historyIndex := historyIndex + 1;
        element.SetValue(EntryAt(State(), historyIndex));
        return true;
      }
      return false;
    }

    /** js/editor.js:76-81. */
    method GetSelectedText() returns (text: string)
      requires element.Valid()
      ensures text == element.value[element.selectionStart..element.selectionEnd]
    {
      text := Substring(element.value, element.selectionStart, element.selectionEnd);
    }

    method GetLineNumber() returns (n: nat)
      ensures n == LineNumber(element.value, element.selectionStart)
    {
      n := |Split(Substring(element.value, 0, element.selectionStart), "\n")|;
    }

    method GetColumnNumber() returns (n: int)
      ensures n == ColumnNumber(element.value, element.selectionStart)
    {
      var lastNewline := LastIndexOf(element.value, '\n', element.selectionStart);
      n := element.selectionStart - (if lastNewline == -1 then 0 else lastNewline + 1);
    }

    method GetCurrentLine() returns (line: string)
      ensures line == CurrentLine(element.value, element.selectionStart)
    {
      var text := element.value;
      var start := LastIndexOf(text, '\n', element.selectionStart) + 1;
      var end := match IndexFrom(text, "\n", element.selectionStart) case Some(e) => e as int case None => -1;
      line := Substring(text, start, if end == -1 then |text| else end);
    }

    /** js/editor.js:99-105. */
    method ReplaceLine(lineNumber: int, newContent: string)
      requires element.Valid()
      modifies this, element
      ensures element.Valid() && element.SelectionAfterSet()
      ensures match ReplacedLine(old(element.value), lineNumber, newContent)
        case None => element.value == old(element.value) && State() == old(State())
        case Some(v) => element.value == v && State() == Added(old(State()), v)
    {
      var lines := Split(element.value, "\n");
      if 0 <= lineNumber < |lines| {
        lines := lines[lineNumber := newContent];
        SetText(Join(lines, "\n"));
      }
    }

    /** js/editor.js:107-111. */
    method Clear()
      requires element.Valid()
      modifies this, element
      ensures element.Valid() && element.SelectionAfterSet() && element.value == [] && State() == Empty
    {
      element.SetValue([]);
      history := [];
      historyIndex := -1;
    }

    /** js/editor.js:126-130: `end || start`, so a missing end, and an end of 0,
        both give a caret at `start`. */
    method SetCursorPosition(start: nat, end: Option<nat>)
      requires element.Valid()
      modifies element
      ensures element.Valid() && element.value == old(element.value)
      ensures var e := if end.Some? && end.value != 0 then end.value else start;
        element.selectionEnd == Min(e, |element.value|) &&
        element.selectionStart == Min(Min(start, element.selectionEnd), |element.value|)
    {
      element.SetSelectionStart(start);
      element.SetSelectionEnd(if end.Some? && end.value != 0 then end.value else start);
    }
  }
}

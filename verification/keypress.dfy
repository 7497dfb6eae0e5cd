/** Cursor movement and the keypress dispatch of src/Editor.cpp:529-651.
    The function-local counter `quit_times` of processKeypress is carried
    in a Session; the keys that start file or prompt work (Ctrl-S, Ctrl-F)
    and the exit on Ctrl-Q are returned as commands. */
module Keypress {
  import opened Keys
  import opened Faults
  import opened TabRender
  import opened Document
  import opened Buffer

  const QUIT_TIMES: nat := 3

  /** The cursor is on a row at a column within it, or at column 0 of the
      line just past the last row. */
  predicate CursorValid(e: Editor) {
    && e.cy <= |e.rows|
    && (e.cy < |e.rows| ==> e.cx <= |e.rows[e.cy].raw|)
    && (e.cy == |e.rows| ==> e.cx == 0)
  }

  /** `m_rows[i].row.size()`: a fault when there is no row i. */
  function RowLen(e: Editor, i: nat): (r: Result<nat>)
    ensures r.Ok? <==> i < |e.rows|
    ensures r.Ok? ==> r.value == |e.rows[i].raw|
    ensures r.Err? ==> r.fault == RowIndexOutOfRange
  {
    if i < |e.rows| then Ok(|e.rows[i].raw|) else Err(RowIndexOutOfRange)
  }

  /** The switch of moveCursor: the cursor (cx, cy) after the key, before
      the column is clamped. */
  function ArrowStep(e: Editor, key: int): Result<(nat, nat)> {
    if key == ARROW_UP then Ok((e.cx, if e.cy > 0 then e.cy - 1 else e.cy))
    else if key == ARROW_DOWN then Ok((e.cx, if e.cy < |e.rows| then e.cy + 1 else e.cy))
    else if key == ARROW_LEFT then
      if e.cx > 0 then Ok((e.cx - 1, e.cy))
      else if e.cy > 0 then
        var len :- RowLen(e, e.cy - 1);
        Ok((len, e.cy - 1))
      else Ok((e.cx, e.cy))
    else if key == ARROW_RIGHT then
      var len :- RowLen(e, e.cy);
      // Reading row cy succeeded, so cy < N and the cursor can move down.
      if e.cx < len then Ok((e.cx + 1, e.cy)) else Ok((0, e.cy + 1))
    else Ok((e.cx, e.cy))
  }

  /** moveCursor: move by one arrow key, then clamp cx to the length of the
      row the cursor is on. Both the right arrow and the clamp read
      `m_rows[m_cy]`, which is a fault on the line past the last row. */
  function MoveCursor(e: Editor, key: int): (r: Result<Editor>)
    ensures r.Ok? ==> r.value == e.(cx := r.value.cx, cy := r.value.cy)
    ensures r.Ok? ==> r.value.cy < |e.rows| && r.value.cx <= |e.rows[r.value.cy].raw|
    ensures r.Err? ==> r.fault == RowIndexOutOfRange
    ensures |e.rows| == 0 ==> r.Err?
  {
    var p :- ArrowStep(e, key);
    var len :- RowLen(e, p.1);
    Ok(e.(cx := if p.0 > len then len else p.0, cy := p.1))
  }

  /** The length of row i, taking the line past the last row as empty. */
  function RowLenOrEmpty(e: Editor, i: nat): (r: nat)
    ensures RowLen(e, i).Ok? ==> r == RowLen(e, i).value
    ensures i >= |e.rows| ==> r == 0
  {
    if i < |e.rows| then |e.rows[i].raw| else 0
  }

  /** The switch of moveCursor with the line past the last row read as
      empty: the right arrow there stays put instead of faulting. */
  function ArrowStepIntended(e: Editor, key: int): (r: (nat, nat))
    ensures ArrowStep(e, key).Ok? ==> r == ArrowStep(e, key).value
    ensures e.cy <= |e.rows| ==> r.1 <= |e.rows|
    ensures key == ARROW_DOWN && e.cy < |e.rows| ==> r.1 == e.cy + 1
  {
    if key == ARROW_UP then (e.cx, if e.cy > 0 then e.cy - 1 else e.cy)
    else if key == ARROW_DOWN then (e.cx, if e.cy < |e.rows| then e.cy + 1 else e.cy)
    else if key == ARROW_LEFT then
      if e.cx > 0 then (e.cx - 1, e.cy)
      else if e.cy > 0 then (RowLenOrEmpty(e, e.cy - 1), e.cy - 1)
      else (e.cx, e.cy)
    else if key == ARROW_RIGHT then
      if e.cx < RowLenOrEmpty(e, e.cy) then (e.cx + 1, e.cy)
      else if e.cy < |e.rows| then (0, e.cy + 1)
      else (e.cx, e.cy)
    else (e.cx, e.cy)
  }

  /** moveCursor with the evidently intended guard: the line past the last
      row has length 0 instead of being read out of range, so every key
      succeeds and Down reaches that line. */
  function MoveCursorIntended(e: Editor, key: int): (r: Editor)
    ensures r == e.(cx := r.cx, cy := r.cy)
    ensures CursorValid(e) ==> CursorValid(r)
    ensures MoveCursor(e, key).Ok? ==> r == MoveCursor(e, key).value
    ensures key == ARROW_DOWN && e.cy < |e.rows| ==> r.cy == e.cy + 1
  {
    var (x, y) := ArrowStepIntended(e, key);
    var len := RowLenOrEmpty(e, y);
    e.(cx := if x > len then len else x, cy := y)
  }

  /** Down on the only row "a": as written the clamp reads the missing row
      1, while the intended move lands on the empty line past it. */
  lemma DownPastLastRow(e: Editor)
    requires e.rows == [NewRow("a")] && e.cx == 0 && e.cy == 0
    ensures MoveCursor(e, ARROW_DOWN) == Err(RowIndexOutOfRange)
    ensures MoveCursorIntended(e, ARROW_DOWN) == e.(cy := 1)
  {
  }

  lemma PositionBeforeRow(e: Editor)
    requires e.cy < |e.rows|
    ensures |RowsToString(e.rows[..e.cy + 1])| == |RowsToString(e.rows[..e.cy])| + |e.rows[e.cy].raw| + 1
  {
    assert e.rows[..e.cy + 1][..e.cy] == e.rows[..e.cy];
  }

  /** The saved text is at least one character per row. */
  lemma {:induction false} TextCoversRows(rows: seq<Row>)
    ensures |RowsToString(rows)| >= |rows|
    decreases |rows|
  {
    if |rows| > 0 {
      TextCoversRows(rows[..|rows| - 1]);
    }
  }

  /** The right arrow steps one character forward in the saved text (over
      the newline at the end of a row), and it fails exactly when there is
      no next character to step onto: at the end of the last row or on
      the line past it. */
  lemma ArrowRightAdvances(e: Editor)
    requires CursorValid(e)
    ensures Position(e) <= |Text(e)|
    ensures MoveCursor(e, ARROW_RIGHT).Ok? <==> Position(e) + 1 < |Text(e)|
    ensures MoveCursor(e, ARROW_RIGHT).Ok? ==>
      && CursorValid(MoveCursor(e, ARROW_RIGHT).value)
      && Position(MoveCursor(e, ARROW_RIGHT).value) == Position(e) + 1
  {
    var N := |e.rows|;
    if e.cy == N {
      assert e.rows[..e.cy] == e.rows;
    } else {
      RowsToStringSplit(e.rows, e.cy);
      TextCoversRows(e.rows[e.cy + 1..]);
      PositionBeforeRow(e);
      var r := MoveCursor(e, ARROW_RIGHT);
      if e.cx == |e.rows[e.cy].raw| && e.cy + 1 < N {
        assert r.value.cy == e.cy + 1;
      }
    }
  }

  /** The left arrow steps one character back in the saved text, and stays
      put at its start, in a buffer with at least one row. */
  lemma ArrowLeftRetreats(e: Editor)
    requires CursorValid(e) && |e.rows| > 0
    ensures MoveCursor(e, ARROW_LEFT).Ok?
    ensures CursorValid(MoveCursor(e, ARROW_LEFT).value)
    ensures Position(MoveCursor(e, ARROW_LEFT).value) == if Position(e) > 0 then Position(e) - 1 else 0
  {
    var r := MoveCursor(e, ARROW_LEFT);
    if e.cx == 0 && e.cy > 0 {
      var prev := e.(cy := e.cy - 1);
      PositionBeforeRow(prev);
      assert e.rows[..e.cy - 1 + 1] == e.rows[..e.cy];
    }
  }

  /** Up and down keep the column where the new row allows it. Up always
      succeeds in a non-empty buffer; down fails when it would reach the
      line past the last row. */
  lemma ArrowsVertical(e: Editor)
    requires CursorValid(e) && |e.rows| > 0
    ensures var r := MoveCursor(e, ARROW_UP);
      var y := if e.cy > 0 then e.cy - 1 else 0;
      && r.Ok? && r.value.cy == y
      && r.value.cx == (if e.cx <= |e.rows[y].raw| then e.cx else |e.rows[y].raw|)
    ensures var r := MoveCursor(e, ARROW_DOWN);
      && (r.Ok? <==> e.cy + 1 < |e.rows|)
      && (r.Ok? ==> (r.value.cy == e.cy + 1 &&
            r.value.cx == (if e.cx <= |e.rows[e.cy + 1].raw| then e.cx else |e.rows[e.cy + 1].raw|)))
  {
  }

  /** The same arrow key `n` times, stopping at the first fault. */
  function MoveRepeat(e: Editor, key: int, n: nat): (r: Result<Editor>)
    ensures r.Ok? ==> r.value == e.(cx := r.value.cx, cy := r.value.cy)
    ensures r.Ok? && n > 0 ==> r.value.cy < |e.rows| && r.value.cx <= |e.rows[r.value.cy].raw|
    decreases n
  {
    if n == 0 then Ok(e)
    else
      var e1 :- MoveCursor(e, key);
      MoveRepeat(e1, key, n - 1)
  }

  /** `n` up arrows from a line at most one past the last row end
      `n` rows higher, or on the first row. */
  lemma {:induction false} RepeatUp(e: Editor, n: nat)
    requires 0 < |e.rows| && e.cy <= |e.rows| && n > 0
    ensures MoveRepeat(e, ARROW_UP, n).Ok?
    ensures MoveRepeat(e, ARROW_UP, n).value.cy == if e.cy >= n then e.cy - n else 0
    decreases n
  {
    var e1 := MoveCursor(e, ARROW_UP).value;
    if n > 1 {
      RepeatUp(e1, n - 1);
    }
  }

  /** `n` down arrows succeed exactly when they stay above the last row
      boundary, and then end `n` rows lower. */
  lemma {:induction false} RepeatDown(e: Editor, n: nat)
    requires e.cy <= |e.rows| && n > 0
    ensures MoveRepeat(e, ARROW_DOWN, n).Ok? <==> e.cy + n < |e.rows|
    ensures MoveRepeat(e, ARROW_DOWN, n).Ok? ==> MoveRepeat(e, ARROW_DOWN, n).value.cy == e.cy + n
    decreases n
  {
    var r := MoveCursor(e, ARROW_DOWN);
    if r.Ok? && n > 1 {
      RepeatDown(r.value, n - 1);
    }
  }

  datatype Command = Continue | Quit | Save | Find

  /** The editor and the remaining Ctrl-Q warnings. */
  datatype Session = Session(editor: Editor, quitTimes: nat)

  /** The cursor after Page Up or Page Down: first the top line of the
      window, or its bottom line clamped to the line past the last row,
      then `screenrows` arrow moves. */
  function PageMove(e: Editor, c: int): Result<Editor>
    requires e.screenrows >= 1
  {
    var N := |e.rows|;
    var start := if c == PAGE_UP then e.rowoff
                 else if e.rowoff + e.screenrows - 1 > N then N
                 else e.rowoff + e.screenrows - 1;
    MoveRepeat(e.(cy := start), if c == PAGE_UP then ARROW_UP else ARROW_DOWN, e.screenrows)
  }

  /** The editor after a key that processKeypress handles in place, that is
      every key but Ctrl-Q, Ctrl-S and Ctrl-F. */
  function KeyEffect(e: Editor, c: int): (r: Result<Editor>)
    requires e.screenrows >= 1
    ensures r.Ok? ==> r.value.screenrows == e.screenrows
    ensures r.Err? ==> c == ENTER || c == BACKSPACE || c == CtrlKey('h') || c == DEL_KEY
                       || c == PAGE_UP || c == PAGE_DOWN || IsArrow(c)
                       || !(c == HOME_KEY || c == END_KEY || c == CtrlKey('l') || c == ESC)
  {
    if c == ENTER then InsertNewline(e)
    else if c == HOME_KEY then Ok(e.(cx := 0))
    else if c == END_KEY then Ok(if e.cy < |e.rows| then e.(cx := |e.rows[e.cy].raw|) else e)
    else if c == BACKSPACE || c == CtrlKey('h') || c == DEL_KEY then
      var e1 :- if c == DEL_KEY then MoveCursor(e, ARROW_RIGHT) else Ok(e);
      DeleteChar(e1)
    else if c == PAGE_UP || c == PAGE_DOWN then PageMove(e, c)
    else if IsArrow(c) then MoveCursor(e, c)
    else if c == CtrlKey('l') || c == ESC then Ok(e)
    else InsertChar(e, KeyChar(c))
  }

  /** processKeypress for key `c`: the new session and what the caller must
      do next. Every key except a warned Ctrl-Q resets the quit counter. */
  function ProcessKeypress(s: Session, c: int): (r: Result<(Session, Command)>)
    requires s.editor.screenrows >= 1
    ensures c == CtrlKey('q') ==>
      && r.Ok? && r.value.0.editor == s.editor
      && (r.value.1 == Quit <==> s.editor.dirty == 0 || s.quitTimes == 0)
      && (r.value.1 != Quit ==> r.value.0.quitTimes == s.quitTimes - 1 && r.value.1 == Continue)
    ensures c != CtrlKey('q') && r.Ok? ==> r.value.0.quitTimes == QUIT_TIMES && r.value.1 != Quit
    ensures c == CtrlKey('s') ==> r == Ok((Session(s.editor, QUIT_TIMES), Save))
    ensures c == CtrlKey('f') ==> r == Ok((Session(s.editor, QUIT_TIMES), Find))
    ensures c != CtrlKey('q') && c != CtrlKey('s') && c != CtrlKey('f') ==>
      match KeyEffect(s.editor, c)
      case Ok(e1) => r == Ok((Session(e1, QUIT_TIMES), Continue))
      case Err(f) => r == Err(f)
  {
    var e := s.editor;
    if c == CtrlKey('q') then
      if e.dirty != 0 && s.quitTimes > 0 then Ok((Session(e, s.quitTimes - 1), Continue))
      else Ok((s, Quit))
    else if c == CtrlKey('s') then Ok((Session(e, QUIT_TIMES), Save))
    else if c == CtrlKey('f') then Ok((Session(e, QUIT_TIMES), Find))
    else
      var e1 :- KeyEffect(e, c);
      Ok((Session(e1, QUIT_TIMES), Continue))
  }

  /** Ctrl-Q pressed `k` times in a row; after the press that quits, further
      presses are not read. */
  function PressQuit(s: Session, k: nat): (r: (Session, Command))
    requires s.editor.screenrows >= 1
    ensures r.0.editor == s.editor
    ensures r.1 == Continue || r.1 == Quit
  {
    if k == 0 then (s, Continue)
    else
      var p := PressQuit(s, k - 1);
      if p.1 == Quit then p else ProcessKeypress(p.0, CtrlKey('q')).value
  }

  /** With unsaved changes, the editor quits on press number quitTimes + 1
      and not before. */
  lemma {:induction false} QuitPressCount(s: Session, k: nat)
    requires s.editor.screenrows >= 1 && s.editor.dirty != 0
    ensures PressQuit(s, k).1 == Quit <==> k > s.quitTimes
    ensures k <= s.quitTimes ==> PressQuit(s, k).0.quitTimes == s.quitTimes - k
  {
    if k > 0 {
      QuitPressCount(s, k - 1);
    }
  }

  /** After any other key the counter is back at 3, so a modified buffer
      needs four consecutive Ctrl-Q presses; an unmodified one quits on the
      first. */
  lemma DirtyQuitNeedsFourPresses(s: Session, c: int)
    requires s.editor.screenrows >= 1 && c != CtrlKey('q')
    requires ProcessKeypress(s, c).Ok?
    ensures var s1 := ProcessKeypress(s, c).value.0;
      s1.editor.dirty != 0 ==> PressQuit(s1, 3).1 == Continue && PressQuit(s1, 4).1 == Quit
    ensures var s1 := ProcessKeypress(s, c).value.0;
      s1.editor.dirty == 0 ==> PressQuit(s1, 1).1 == Quit
  {
    CtrlKeyCodes();
    var s1 := ProcessKeypress(s, c).value.0;
    if s1.editor.dirty != 0 {
      QuitPressCount(s1, 3);
      QuitPressCount(s1, 4);
    }
  }

  /** HOME goes to column 0 and END to the end of the row; neither changes
      the text or the line. */
  lemma HomeEnd(e: Editor)
    requires e.screenrows >= 1
    ensures KeyEffect(e, HOME_KEY) == Ok(e.(cx := 0))
    ensures var r := KeyEffect(e, END_KEY);
      && r.Ok? && r.value == e.(cx := r.value.cx)
      && (e.cy < |e.rows| ==> r.value.cx == |e.rows[e.cy].raw|)
  {
    CtrlKeyCodes();
  }

  /** Page Up puts the cursor `screenrows` lines above the top of the
      window, or on the first row. */
  lemma PageUp(e: Editor)
    requires e.screenrows >= 1 && 0 < |e.rows| && e.rowoff <= |e.rows|
    ensures var r := KeyEffect(e, PAGE_UP);
      && r.Ok?
      && r.value.cy == (if e.rowoff >= e.screenrows then e.rowoff - e.screenrows else 0)
      && r.value.rows == e.rows
  {
    CtrlKeyCodes();
    RepeatUp(e.(cy := e.rowoff), e.screenrows);
  }

  /** Page Down starts at the bottom line of the window and moves down
      `screenrows` rows; it fails whenever that would reach the line past
      the last row. */
  lemma PageDown(e: Editor)
    requires e.screenrows >= 1
    ensures var r := KeyEffect(e, PAGE_DOWN);
      && (r.Ok? <==> e.rowoff + 2 * e.screenrows - 1 < |e.rows|)
      && (r.Ok? ==> r.value.cy == e.rowoff + 2 * e.screenrows - 1)
  {
    CtrlKeyCodes();
    var N := |e.rows|;
    var top := if e.rowoff + e.screenrows - 1 > N then N else e.rowoff + e.screenrows - 1;
    RepeatDown(e.(cy := top), e.screenrows);
  }

  /** Delete removes the character under the cursor: the text loses the
      character at the cursor's offset and the cursor keeps that offset. */
  lemma DelKeyDeletesUnderCursor(e: Editor)
    requires e.screenrows >= 1 && CursorValid(e)
    requires Position(e) + 1 < |Text(e)|
    ensures var r := KeyEffect(e, DEL_KEY);
      && r.Ok?
      && r.value.cy <= |r.value.rows|
      && Text(r.value) == Text(e)[..Position(e)] + Text(e)[Position(e) + 1..]
      && Position(r.value) == Position(e)
  {
    CtrlKeyCodes();
    ArrowRightAdvances(e);
    var e1 := MoveCursor(e, ARROW_RIGHT).value;
    assert e1.rows == e.rows;
    assert KeyEffect(e, DEL_KEY) == DeleteChar(e1);
    DeleteCharText(e1);
  }

  /** Backspace removes the character before the cursor. */
  lemma BackspaceDeletesBeforeCursor(e: Editor)
    requires e.screenrows >= 1 && CursorValid(e) && e.cy < |e.rows|
    requires Position(e) > 0
    ensures Position(e) < |Text(e)|
    ensures var r := KeyEffect(e, BACKSPACE);
      && r.Ok?
      && Text(r.value) == Text(e)[..Position(e) - 1] + Text(e)[Position(e)..]
      && Position(r.value) == Position(e) - 1
  {
    CtrlKeyCodes();
    DeleteCharText(e);
  }

  lemma InsertNewlineKeepsCursorValid(e: Editor)
    requires CursorValid(e)
    ensures InsertNewline(e).Ok? ==> CursorValid(InsertNewline(e).value)
  {
  }

  lemma InsertCharKeepsCursorValid(e: Editor, ch: char)
    requires CursorValid(e)
    ensures InsertChar(e, ch).Ok? && CursorValid(InsertChar(e, ch).value)
  {
    InsertCharRow(e, ch);
  }

  lemma DeleteCharKeepsCursorValid(e: Editor)
    requires CursorValid(e)
    ensures DeleteChar(e).Ok? && CursorValid(DeleteChar(e).value)
  {
    if e.cy < |e.rows| && e.cx > 0 {
      DeleteCharRow(e);
    }
  }

  lemma DeleteKeyKeepsCursorValid(e: Editor, c: int)
    requires e.screenrows >= 1 && CursorValid(e)
    requires c == BACKSPACE || c == CtrlKey('h') || c == DEL_KEY
    ensures KeyEffect(e, c).Ok? ==> CursorValid(KeyEffect(e, c).value)
  {
    CtrlKeyCodes();
    if c == DEL_KEY {
      var m := MoveCursor(e, ARROW_RIGHT);
      if m.Ok? {
        assert KeyEffect(e, c) == DeleteChar(m.value);
        DeleteCharKeepsCursorValid(m.value);
      }
    } else {
      assert KeyEffect(e, c) == DeleteChar(e);
      DeleteCharKeepsCursorValid(e);
    }
  }

  lemma TypedKeyKeepsCursorValid(e: Editor, c: int)
    requires e.screenrows >= 1 && CursorValid(e)
    requires c != ENTER && c != HOME_KEY && c != END_KEY && c != BACKSPACE && c != CtrlKey('h')
    requires c != DEL_KEY && c != PAGE_UP && c != PAGE_DOWN && !IsArrow(c) && c != CtrlKey('l') && c != ESC
    ensures KeyEffect(e, c).Ok? && CursorValid(KeyEffect(e, c).value)
  {
    CtrlKeyCodes();
    InsertCharKeepsCursorValid(e, KeyChar(c));
  }

  /** Every key processKeypress handles in place keeps the cursor on the
      text: on a row within it, or at column 0 past the last row. */
  lemma KeyEffectKeepsCursorValid(e: Editor, c: int)
    requires e.screenrows >= 1 && CursorValid(e)
    ensures KeyEffect(e, c).Ok? ==> CursorValid(KeyEffect(e, c).value)
  {
    CtrlKeyCodes();
    if c == ENTER {
      InsertNewlineKeepsCursorValid(e);
    } else if c == BACKSPACE || c == CtrlKey('h') || c == DEL_KEY {
      DeleteKeyKeepsCursorValid(e, c);
    } else if c == HOME_KEY || c == END_KEY || c == PAGE_UP || c == PAGE_DOWN
              || IsArrow(c) || c == CtrlKey('l') || c == ESC {
    } else {
      TypedKeyKeepsCursorValid(e, c);
    }
  }

  lemma KeyCharNewline()
    ensures KeyChar(10) == '\n'
  {
  }

  /** Byte 10 (Ctrl-J) reaches the default case: it is typed as '\n'. */
  lemma CtrlJIsTyped(e: Editor)
    requires e.screenrows >= 1
    ensures KeyEffect(e, 10) == InsertChar(e, '\n')
  {
    CtrlKeyCodes();
    KeyCharNewline();
    assert !IsArrow(10) && 10 != CtrlKey('h') && 10 != CtrlKey('l');
  }

  /** Ctrl-J is not a command key: it arrives as byte 10 and is inserted
      into the row as a newline character, after which splitting the saved
      text into lines no longer gives back the rows. */
  lemma CtrlJInsertsNewline(e: Editor)
    requires e.screenrows >= 1 && e.cy < |e.rows| && e.cx <= |e.rows[e.cy].raw|
    ensures var r := KeyEffect(e, 10);
      && r.Ok? && e.cy < |r.value.rows|
      && '\n' in r.value.rows[e.cy].raw
      && Lines(Text(r.value)) != Raws(r.value.rows)
  {
    CtrlJIsTyped(e);
    InsertCharShape(e, '\n');
    var rows := InsertChar(e, '\n').value.rows;
    assert rows[e.cy].raw[e.cx] == '\n';
    LinesOfRowsToString(rows);
  }
}


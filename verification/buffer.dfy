/** The row buffer and the editing operations of src/Editor.cpp:90-195:
    row insertion and deletion, character insertion and deletion inside a
    row, and the cursor-level insertChar, insertNewline and deleteChar. */
module Buffer {
  import opened Keys
  import opened Faults
  import opened TabRender
  import opened Document

  /** The editor's state: the rows, the cursor in buffer (cx, cy) and render
      (rx) coordinates, the scroll offsets, the text area size and the
      8-bit modification counter m_dirty. */
  datatype Editor = Editor(
    rows: seq<Row>,
    cx: nat, cy: nat, rx: nat,
    rowoff: nat, coloff: nat,
    screenrows: nat, screencols: nat,
    dirty: Byte)

  /** m_dirty++ on a uint8_t: wraps from 255 to 0. */
  function Bump(d: Byte): (r: Byte)
    ensures d < 255 ==> r == d + 1
    ensures d == 255 ==> r == 0
  {
    (d + 1) % 256
  }

  /** Cursor, scroll and screen fields agree. */
  predicate SameView(a: Editor, b: Editor) {
    && a.cx == b.cx && a.cy == b.cy && a.rx == b.rx
    && a.rowoff == b.rowoff && a.coloff == b.coloff
    && a.screenrows == b.screenrows && a.screencols == b.screencols
  }

  /** The document text save writes. */
  function Text(e: Editor): string {
    RowsToString(e.rows)
  }

  /** The offset of the cursor in the document text. */
  function Position(e: Editor): nat
    requires e.cy <= |e.rows|
  {
    |RowsToString(e.rows[..e.cy])| + e.cx
  }

  /** insertRow: a blank row holding `s` at index `at`; fails without any
      change unless 0 <= at <= N. */
  function InsertRow(e: Editor, at: int, s: string): (r: (bool, Editor))
    ensures r.0 <==> 0 <= at <= |e.rows|
    ensures !r.0 ==> r.1 == e
    ensures r.0 ==>
      && |r.1.rows| == |e.rows| + 1
      && r.1.rows[at].raw == s && Rendered(r.1.rows[at])
      && (forall i :: 0 <= i < at ==> r.1.rows[i] == e.rows[i])
      && (forall i :: at < i <= |e.rows| ==> r.1.rows[i] == e.rows[i - 1])
      && r.1.dirty == Bump(e.dirty) && SameView(r.1, e)
  {
    if at < 0 || at > |e.rows| then (false, e)
    else (true, e.(rows := e.rows[..at] + [NewRow(s)] + e.rows[at..], dirty := Bump(e.dirty)))
  }

  /** deleteRow: removes row `at`; does nothing unless 0 <= at < N. */
  function DeleteRow(e: Editor, at: int): (r: Editor)
    ensures !(0 <= at < |e.rows|) ==> r == e
    ensures 0 <= at < |e.rows| ==>
      && |r.rows| == |e.rows| - 1
      && (forall i :: 0 <= i < at ==> r.rows[i] == e.rows[i])
      && (forall i :: at <= i < |r.rows| ==> r.rows[i] == e.rows[i + 1])
      && r.dirty == Bump(e.dirty) && SameView(r, e)
  {
    if at < 0 || at >= |e.rows| then e
    else e.(rows := e.rows[..at] + e.rows[at + 1..], dirty := Bump(e.dirty))
  }

  /** insertCharIntoRow's position: a column outside [0, len] means the end. */
  function ClampColumn(at: int, len: nat): (col: nat)
    ensures col <= len
    ensures 0 <= at <= len ==> col == at
    ensures !(0 <= at <= len) ==> col == len
  {
    if at < 0 || at > len then len else at
  }

  /** insertCharIntoRow on row `y`: `c` goes in at the clamped column. */
  function InsertCharIntoRow(e: Editor, y: nat, at: int, c: char): (r: Editor)
    requires y < |e.rows|
    ensures |r.rows| == |e.rows|
    ensures forall i :: 0 <= i < |e.rows| && i != y ==> r.rows[i] == e.rows[i]
    ensures var raw, col := e.rows[y].raw, ClampColumn(at, |e.rows[y].raw|);
      && |r.rows[y].raw| == |raw| + 1
      && r.rows[y].raw[..col] == raw[..col]
      && r.rows[y].raw[col] == c
      && r.rows[y].raw[col + 1..] == raw[col..]
    ensures Rendered(r.rows[y])
    ensures r.dirty == Bump(e.dirty) && SameView(r, e)
  {
    var row := e.rows[y];
    var col := ClampColumn(at, |row.raw|);
    var raw := row.raw[..col] + [c] + row.raw[col..];
    assert raw[col + 1..] == row.raw[col..];
    e.(rows := e.rows[y := UpdateRow(row.(raw := raw))], dirty := Bump(e.dirty))
  }

  /** appendStringToRow on row `y`. If the result is empty the rendering is
      left as it was. */
  function AppendStringToRow(e: Editor, y: nat, s: string): (r: Editor)
    requires y < |e.rows|
    ensures |r.rows| == |e.rows|
    ensures forall i :: 0 <= i < |e.rows| && i != y ==> r.rows[i] == e.rows[i]
    ensures r.rows[y].raw == e.rows[y].raw + s
    ensures |e.rows[y].raw + s| > 0 ==> Rendered(r.rows[y])
    ensures |e.rows[y].raw + s| == 0 ==> r.rows[y].rendered == e.rows[y].rendered
    ensures r.dirty == Bump(e.dirty) && SameView(r, e)
  {
    var row := e.rows[y];
    e.(rows := e.rows[y := UpdateRow(row.(raw := row.raw + s))], dirty := Bump(e.dirty))
  }

  /** deleteCharFromRow on row `y`: removes the character at `at`; does
      nothing unless 0 <= at < |row|. A row emptied this way keeps its old
      rendering. */
  function DeleteCharFromRow(e: Editor, y: nat, at: int): (r: Editor)
    requires y < |e.rows|
    ensures !(0 <= at < |e.rows[y].raw|) ==> r == e
    ensures 0 <= at < |e.rows[y].raw| ==>
      && |r.rows| == |e.rows|
      && (forall i :: 0 <= i < |e.rows| && i != y ==> r.rows[i] == e.rows[i])
      && |r.rows[y].raw| == |e.rows[y].raw| - 1
      && r.rows[y].raw[..at] == e.rows[y].raw[..at]
      && r.rows[y].raw[at..] == e.rows[y].raw[at + 1..]
      && (|r.rows[y].raw| > 0 ==> Rendered(r.rows[y]))
      && (|r.rows[y].raw| == 0 ==> r.rows[y].rendered == e.rows[y].rendered)
      && r.dirty == Bump(e.dirty) && SameView(r, e)
  {
    var row := e.rows[y];
    if at < 0 || at >= |row.raw| then e
    else
      var raw := row.raw[..at] + row.raw[at + 1..];
      assert raw[at..] == row.raw[at + 1..];
      e.(rows := e.rows[y := UpdateRow(row.(raw := raw))], dirty := Bump(e.dirty))
  }

  /** insertChar: on the line past the end a new empty row is added first;
      the character goes in at cx and the cursor moves right. Reading
      m_rows[m_cy] with cy > N is an error. */
  function InsertChar(e: Editor, c: char): (r: Result<Editor>)
    ensures r.Ok? <==> e.cy <= |e.rows|
    ensures r.Ok? ==>
      && r.value.cy == e.cy && r.value.cx == e.cx + 1
      && r.value.cy < |r.value.rows|
      && |r.value.rows| == |e.rows| + (if e.cy == |e.rows| then 1 else 0)
      && Rendered(r.value.rows[e.cy])
      && r.value.dirty == (if e.cy == |e.rows| then Bump(Bump(e.dirty)) else Bump(e.dirty))
  {
    if e.cy > |e.rows| then Err(RowIndexOutOfRange)
    else
      var e1 := if e.cy == |e.rows| then InsertRow(e, e.cy, "").1 else e;
      Ok(InsertCharIntoRow(e1, e.cy, e.cx, c).(cx := e.cx + 1))
  }

  /** insertNewline: at column 0 an empty row is inserted above the cursor
      (silently nothing when cy > N); otherwise the row is split at cx, which
      needs a real row and cx <= |row| (`substr` throws past the end). The
      cursor ends at the start of the next line. */
  function InsertNewline(e: Editor): (r: Result<Editor>)
    ensures r.Ok? <==> e.cx == 0 || (e.cy < |e.rows| && e.cx <= |e.rows[e.cy].raw|)
    ensures e.cx != 0 && e.cy >= |e.rows| ==> r == Err(RowIndexOutOfRange)
    ensures r.Ok? ==>
      && r.value.cy == e.cy + 1 && r.value.cx == 0
      && |r.value.rows| == |e.rows| + (if e.cy <= |e.rows| then 1 else 0)
      && r.value.dirty == (if e.cy <= |e.rows| then Bump(e.dirty) else e.dirty)
  {
    if e.cx == 0 then
      Ok(InsertRow(e, e.cy, "").1.(cy := e.cy + 1, cx := 0))
    else if e.cy >= |e.rows| then Err(RowIndexOutOfRange)
    else if e.cx > |e.rows[e.cy].raw| then Err(SubstrOutOfRange)
    else
      var raw := e.rows[e.cy].raw;
      // insertRow at cy + 1 <= N cannot fail here
      var e1 := InsertRow(e, e.cy + 1, raw[e.cx..]).1;
      var head := UpdateRow(e1.rows[e.cy].(raw := raw[..e.cx]));
      Ok(e1.(rows := e1.rows[e.cy := head], cy := e.cy + 1, cx := 0))
  }

  /** deleteChar: nothing on the line past the end or at the very start;
      otherwise the character left of the cursor goes, or at column 0 the
      row is appended to the previous one and removed. */
  function DeleteChar(e: Editor): (r: Result<Editor>)
    ensures r.Ok? <==> e.cy <= |e.rows|
    ensures e.cy == |e.rows| || (e.cx == 0 && e.cy == 0) ==> r == Ok(e)
    ensures e.cy < |e.rows| && e.cx > 0 ==>
      r.Ok? && r.value.cy == e.cy && r.value.cx == e.cx - 1 && |r.value.rows| == |e.rows|
    ensures e.cy < |e.rows| && e.cx == 0 && e.cy > 0 ==>
      && r.Ok? && r.value.cy == e.cy - 1 && r.value.cx == |e.rows[e.cy - 1].raw|
      && |r.value.rows| == |e.rows| - 1
      && r.value.rows[e.cy - 1].raw == e.rows[e.cy - 1].raw + e.rows[e.cy].raw
      && r.value.dirty == Bump(Bump(e.dirty))
  {
    if e.cy == |e.rows| then Ok(e)
    else if e.cx == 0 && e.cy == 0 then Ok(e)
    else if e.cy > |e.rows| then Err(RowIndexOutOfRange)
    else if e.cx > 0 then
      Ok(DeleteCharFromRow(e, e.cy, e.cx - 1).(cx := e.cx - 1))
    else
      var prevLen := |e.rows[e.cy - 1].raw|;
      var e1 := AppendStringToRow(e, e.cy - 1, e.rows[e.cy].raw);
      var e2 := DeleteRow(e1, e.cy);
      Ok(e2.(cx := prevLen, cy := e.cy - 1))
  }

  /** The row the cursor is on after typing: the character is in at the
      cursor column, clamped to the row (an empty row past the end). */
  lemma InsertCharRow(e: Editor, c: char)
    requires e.cy <= |e.rows|
    ensures InsertChar(e, c).Ok?
    ensures var prior := if e.cy < |e.rows| then e.rows[e.cy].raw else "";
      var col := ClampColumn(e.cx, |prior|);
      InsertChar(e, c).value.rows[e.cy].raw == prior[..col] + [c] + prior[col..]
  {
  }

  /** The row the cursor is on after a backspace inside it: the character
      left of the cursor is gone. */
  lemma DeleteCharRow(e: Editor)
    requires e.cy < |e.rows| && 0 < e.cx <= |e.rows[e.cy].raw|
    ensures DeleteChar(e).Ok?
    ensures DeleteChar(e).value.rows[e.cy].raw == e.rows[e.cy].raw[..e.cx - 1] + e.rows[e.cy].raw[e.cx..]
  {
  }

  // ---- the document text under edits ----

  lemma RowsToStringOne(r: Row)
    ensures RowsToString([r]) == r.raw + "\n"
  {
    assert [r][..0] == [];
  }

  /** Text inserted into the line `raw` of A + raw + newline + B at column
      q lands at offset |A| + q. */
  lemma InsertInLine(a: string, raw: string, b: string, x: string, q: nat)
    requires q <= |raw|
    ensures var t := a + raw + "\n" + b;
      a + (raw[..q] + x + raw[q..]) + "\n" + b == t[..|a| + q] + x + t[|a| + q..]
  {
    var t := a + raw + "\n" + b;
    assert t[..|a| + q] == a + raw[..q];
    assert t[|a| + q..] == raw[q..] + "\n" + b;
  }

  /** Splitting the line `raw` at column q puts a newline at |A| + q. */
  lemma SplitLine(a: string, raw: string, b: string, q: nat)
    requires q <= |raw|
    ensures var t := a + raw + "\n" + b;
      a + raw[..q] + "\n" + (raw[q..] + "\n" + b) == t[..|a| + q] + "\n" + t[|a| + q..]
  {
    var t := a + raw + "\n" + b;
    assert t[..|a| + q] == a + raw[..q];
    assert t[|a| + q..] == raw[q..] + "\n" + b;
  }

  /** Removing the character before column q of the line `raw` removes the
      character before offset |A| + q. */
  lemma DeleteInLine(a: string, raw: string, b: string, q: nat)
    requires 0 < q <= |raw|
    ensures var t := a + raw + "\n" + b;
      a + (raw[..q - 1] + raw[q..]) + "\n" + b == t[..|a| + q - 1] + t[|a| + q..]
  {
    var t := a + raw + "\n" + b;
    assert t[..|a| + q - 1] == a + raw[..q - 1];
    assert t[|a| + q..] == raw[q..] + "\n" + b;
  }

  /** Joining the lines p and c removes the newline between them, at
      offset |A| + |p|. */
  lemma JoinAdjacentLines(a: string, p: string, c: string, b: string)
    ensures var t := a + p + "\n" + (c + "\n" + b);
      a + (p + c) + "\n" + b == t[..|a| + |p|] + t[|a| + |p| + 1..]
  {
    var t := a + p + "\n" + (c + "\n" + b);
    assert t[..|a| + |p|] == a + p;
    assert t[|a| + |p| + 1..] == c + "\n" + b;
  }

  /** A cursor on a real row points inside the text: at most at the row's
      newline. */
  lemma PositionInText(e: Editor)
    requires e.cy < |e.rows| && e.cx <= |e.rows[e.cy].raw|
    ensures Position(e) < |Text(e)|
  {
    RowsToStringSplit(e.rows, e.cy);
  }

  /** The rows after typing inside the document: only the cursor row
      changes, and it gains the character at the cursor column. */
  lemma InsertCharShape(e: Editor, c: char)
    requires e.cy < |e.rows| && e.cx <= |e.rows[e.cy].raw|
    ensures InsertChar(e, c).Ok?
    ensures var e', y, raw := InsertChar(e, c).value, e.cy, e.rows[e.cy].raw;
      && |e'.rows| == |e.rows| && e'.cy == y && e'.cx == e.cx + 1
      && e'.rows[..y] == e.rows[..y] && e'.rows[y + 1..] == e.rows[y + 1..]
      && e'.rows[y].raw == raw[..e.cx] + [c] + raw[e.cx..]
  {
    InsertCharRow(e, c);
    var e', y := InsertChar(e, c).value, e.cy;
    assert e' == InsertCharIntoRow(e, y, e.cx, c).(cx := e.cx + 1);
    assert e'.rows[..y] == e.rows[..y];
    assert e'.rows[y + 1..] == e.rows[y + 1..];
  }

  /** Rows differing only in row y, which gains x at column q: the text
      gains x at that row's offset plus q. */
  lemma InsertIntoRowText(rows: seq<Row>, rows': seq<Row>, y: nat, q: nat, x: string)
    requires y < |rows| == |rows'|
    requires rows'[..y] == rows[..y] && rows'[y + 1..] == rows[y + 1..]
    requires q <= |rows[y].raw| && rows'[y].raw == rows[y].raw[..q] + x + rows[y].raw[q..]
    ensures var t, p := RowsToString(rows), |RowsToString(rows[..y])| + q;
      p < |t| && RowsToString(rows') == t[..p] + x + t[p..]
  {
    var a, b := RowsToString(rows[..y]), RowsToString(rows[y + 1..]);
    RowsToStringSplit(rows, y);
    RowsToStringSplit(rows', y);
    InsertInLine(a, rows[y].raw, b, x, q);
  }

  /** Typing a character inside the document inserts it at the cursor's
      offset in the saved text and moves the cursor past it. */
  lemma InsertCharText(e: Editor, c: char)
    requires e.cy < |e.rows| && e.cx <= |e.rows[e.cy].raw|
    ensures Position(e) < |Text(e)|
    ensures InsertChar(e, c).Ok?
    ensures var e' := InsertChar(e, c).value;
      && Text(e') == Text(e)[..Position(e)] + [c] + Text(e)[Position(e)..]
      && Position(e') == Position(e) + 1
  {
    InsertCharShape(e, c);
    var e' := InsertChar(e, c).value;
    InsertIntoRowText(e.rows, e'.rows, e.cy, e.cx, [c]);
    assert Text(e') == RowsToString(e'.rows);
    assert Position(e') == |RowsToString(e.rows[..e.cy])| + e.cx + 1;
  }

  /** Typing on the line past the end adds a row holding just that character. */
  lemma InsertCharPastEnd(e: Editor, c: char)
    requires e.cy == |e.rows|
    ensures InsertChar(e, c).Ok?
    ensures Text(InsertChar(e, c).value) == Text(e) + [c] + "\n"
  {
    var e' := InsertChar(e, c).value;
    assert e'.rows == e.rows + [e'.rows[e.cy]];
    RowsToStringAppend(e.rows, [e'.rows[e.cy]]);
    RowsToStringOne(e'.rows[e.cy]);
  }

  /** The rows after Enter at column 0: an empty row in front of the cursor
      row. */
  lemma InsertNewlineAtLineStartShape(e: Editor)
    requires e.cy <= |e.rows| && e.cx == 0
    ensures InsertNewline(e).Ok?
    ensures var e', y := InsertNewline(e).value, e.cy;
      && e'.rows == e.rows[..y] + [e'.rows[y]] + e.rows[y..]
      && e'.rows[y].raw == ""
  {
  }

  /** Enter at column 0 inserts an empty row: a newline at the cursor's
      offset. */
  lemma InsertNewlineAtLineStartText(e: Editor)
    requires e.cy <= |e.rows| && e.cx == 0
    ensures Position(e) <= |Text(e)|
    ensures InsertNewline(e).Ok?
    ensures var e' := InsertNewline(e).value;
      && Text(e') == Text(e)[..Position(e)] + "\n" + Text(e)[Position(e)..]
      && Position(e') == Position(e) + 1
  {
    InsertNewlineAtLineStartShape(e);
    var e', y := InsertNewline(e).value, e.cy;
    var pre, blank, post := e.rows[..y], e'.rows[y], e.rows[y..];
    var a, b := RowsToString(pre), RowsToString(post);
    assert Text(e) == a + b by {
      assert e.rows == pre + post;
      RowsToStringAppend(pre, post);
    }
    assert Text(e') == a + "\n" + b by {
      RowsToStringAppend(pre + [blank], post);
      RowsToStringAppend(pre, [blank]);
      RowsToStringOne(blank);
    }
    assert e'.rows[..y + 1] == pre + [blank];
    RowsToStringAppend(pre, [blank]);
    RowsToStringOne(blank);
  }

  /** The rows after Enter inside a row: the head and the tail of the split
      row in its place. */
  lemma InsertNewlineSplitRows(e: Editor)
    requires e.cy < |e.rows| && 0 < e.cx <= |e.rows[e.cy].raw|
    ensures InsertNewline(e).Ok?
    ensures var e', y := InsertNewline(e).value, e.cy;
      && |e'.rows| == |e.rows| + 1
      && e'.rows[..y] == e.rows[..y] && e'.rows[y + 2..] == e.rows[y + 1..]
      && e'.rows[y].raw == e.rows[y].raw[..e.cx]
      && e'.rows[y + 1].raw == e.rows[y].raw[e.cx..]
  {
    var e', y := InsertNewline(e).value, e.cy;
    var e1 := InsertRow(e, y + 1, e.rows[y].raw[e.cx..]).1;
    assert e1.rows == e.rows[..y + 1] + [e1.rows[y + 1]] + e.rows[y + 1..];
    assert e'.rows == e1.rows[y := e'.rows[y]];
    assert e'.rows[..y] == e.rows[..y];
    assert e'.rows[y + 2..] == e.rows[y + 1..];
  }

  /** Rows where row y is split at column q into two rows: the text gains
      a newline at that row's offset plus q. */
  lemma SplitRowText(rows: seq<Row>, rows': seq<Row>, y: nat, q: nat)
    requires y < |rows| && |rows'| == |rows| + 1
    requires rows'[..y] == rows[..y] && rows'[y + 2..] == rows[y + 1..]
    requires q <= |rows[y].raw|
    requires rows'[y].raw == rows[y].raw[..q] && rows'[y + 1].raw == rows[y].raw[q..]
    ensures var t, p := RowsToString(rows), |RowsToString(rows[..y])| + q;
      && p < |t| && RowsToString(rows') == t[..p] + "\n" + t[p..]
      && |RowsToString(rows'[..y + 1])| == p + 1
  {
    var raw := rows[y].raw;
    var a, b := RowsToString(rows[..y]), RowsToString(rows[y + 1..]);
    RowsToStringSplit(rows, y);
    RowsToStringSplit(rows', y);
    RowsToStringCons(rows'[y + 1..]);
    assert rows'[y + 1..][1..] == rows'[y + 2..];
    SplitLine(a, raw, b, q);
    assert rows'[..y + 1] == rows[..y] + [rows'[y]];
    RowsToStringAppend(rows[..y], [rows'[y]]);
    RowsToStringOne(rows'[y]);
  }

  /** Enter inside a row splits it: a newline at the cursor's offset. */
  lemma InsertNewlineSplitText(e: Editor)
    requires e.cy < |e.rows| && 0 < e.cx <= |e.rows[e.cy].raw|
    ensures Position(e) < |Text(e)|
    ensures InsertNewline(e).Ok?
    ensures var e' := InsertNewline(e).value;
      && Text(e') == Text(e)[..Position(e)] + "\n" + Text(e)[Position(e)..]
      && Position(e') == Position(e) + 1
  {
    InsertNewlineSplitRows(e);
    var e' := InsertNewline(e).value;
    SplitRowText(e.rows, e'.rows, e.cy, e.cx);
    assert Text(e') == RowsToString(e'.rows);
    assert Position(e') == |RowsToString(e'.rows[..e.cy + 1])|;
  }

  /** Enter inserts a newline at the cursor's offset in the saved text and
      moves the cursor past it, both when splitting a row and at column 0. */
  lemma InsertNewlineText(e: Editor)
    requires (e.cy < |e.rows| && e.cx <= |e.rows[e.cy].raw|) || (e.cy == |e.rows| && e.cx == 0)
    ensures Position(e) <= |Text(e)|
    ensures InsertNewline(e).Ok?
    ensures var e' := InsertNewline(e).value;
      && Text(e') == Text(e)[..Position(e)] + "\n" + Text(e)[Position(e)..]
      && Position(e') == Position(e) + 1
  {
    if e.cx == 0 {
      InsertNewlineAtLineStartText(e);
    } else {
      InsertNewlineSplitText(e);
    }
  }

  /** The rows after a backspace inside a row: only that row changes, and
      it loses the character left of the cursor. */
  lemma DeleteCharShape(e: Editor)
    requires e.cy < |e.rows| && 0 < e.cx <= |e.rows[e.cy].raw|
    ensures DeleteChar(e).Ok?
    ensures var e', y, raw := DeleteChar(e).value, e.cy, e.rows[e.cy].raw;
      && |e'.rows| == |e.rows| && e'.cy == y && e'.cx == e.cx - 1
      && e'.rows[..y] == e.rows[..y] && e'.rows[y + 1..] == e.rows[y + 1..]
      && e'.rows[y].raw == raw[..e.cx - 1] + raw[e.cx..]
  {
    DeleteCharRow(e);
    var e', y := DeleteChar(e).value, e.cy;
    assert e' == DeleteCharFromRow(e, y, e.cx - 1).(cx := e.cx - 1);
    assert e'.rows[..y] == e.rows[..y];
    assert e'.rows[y + 1..] == e.rows[y + 1..];
  }

  /** Rows differing only in row y, which loses the character before
      column q: the text loses the character before that row's offset plus q. */
  lemma DeleteFromRowText(rows: seq<Row>, rows': seq<Row>, y: nat, q: nat)
    requires y < |rows| == |rows'|
    requires rows'[..y] == rows[..y] && rows'[y + 1..] == rows[y + 1..]
    requires 0 < q <= |rows[y].raw| && rows'[y].raw == rows[y].raw[..q - 1] + rows[y].raw[q..]
    ensures var t, p := RowsToString(rows), |RowsToString(rows[..y])| + q;
      0 < p < |t| && RowsToString(rows') == t[..p - 1] + t[p..]
  {
    var a, b := RowsToString(rows[..y]), RowsToString(rows[y + 1..]);
    RowsToStringSplit(rows, y);
    RowsToStringSplit(rows', y);
    DeleteInLine(a, rows[y].raw, b, q);
  }

  /** Backspace inside a row removes the character before the cursor. */
  lemma DeleteCharInRowText(e: Editor)
    requires e.cy < |e.rows| && 0 < e.cx <= |e.rows[e.cy].raw|
    ensures 0 < Position(e) < |Text(e)|
    ensures DeleteChar(e).Ok?
    ensures var e' := DeleteChar(e).value;
      && Text(e') == Text(e)[..Position(e) - 1] + Text(e)[Position(e)..]
      && Position(e') == Position(e) - 1
  {
    DeleteCharShape(e);
    var e' := DeleteChar(e).value;
    DeleteFromRowText(e.rows, e'.rows, e.cy, e.cx);
    assert Text(e') == RowsToString(e'.rows);
    assert Position(e') == |RowsToString(e.rows[..e.cy])| + e.cx - 1;
  }

  /** Replacing row y - 1 and then removing row y keeps the rows before
      and after the pair. */
  lemma JoinIntoPrevious(rows: seq<Row>, y: nat, joined: Row)
    requires 0 < y < |rows|
    ensures var r := rows[y - 1 := joined][..y] + rows[y - 1 := joined][y + 1..];
      && |r| == |rows| - 1 && r[y - 1] == joined
      && r[..y - 1] == rows[..y - 1] && r[y..] == rows[y + 1..]
  {
    var r1 := rows[y - 1 := joined];
    var r := r1[..y] + r1[y + 1..];
    assert r[..y - 1] == r1[..y - 1];
    assert r[y..] == r1[y + 1..];
  }

  /** The rows after a backspace at column 0: the row is appended to the
      previous one and removed. */
  lemma DeleteCharJoinShape(e: Editor)
    requires 0 < e.cy < |e.rows| && e.cx == 0
    ensures DeleteChar(e).Ok?
    ensures var e', y := DeleteChar(e).value, e.cy;
      && |e'.rows| == |e.rows| - 1
      && e'.rows[..y - 1] == e.rows[..y - 1] && e'.rows[y..] == e.rows[y + 1..]
      && e'.rows[y - 1].raw == e.rows[y - 1].raw + e.rows[y].raw
      && e'.cx == |e.rows[y - 1].raw|
  {
    var y := e.cy;
    var joined := UpdateRow(e.rows[y - 1].(raw := e.rows[y - 1].raw + e.rows[y].raw));
    var rows := e.rows[y - 1 := joined];
    assert DeleteChar(e).value.rows == rows[..y] + rows[y + 1..];
    JoinIntoPrevious(e.rows, y, joined);
  }

  /** Rows where row y is appended to row y - 1 and removed: the text
      loses the newline that ended row y - 1. */
  lemma JoinRowsText(rows: seq<Row>, rows': seq<Row>, y: nat)
    requires 0 < y < |rows| && |rows'| == |rows| - 1
    requires rows'[..y - 1] == rows[..y - 1] && rows'[y..] == rows[y + 1..]
    requires rows'[y - 1].raw == rows[y - 1].raw + rows[y].raw
    ensures var t, p := RowsToString(rows), |RowsToString(rows[..y])|;
      && 0 < p < |t| && RowsToString(rows') == t[..p - 1] + t[p..]
      && |RowsToString(rows'[..y - 1])| + |rows[y - 1].raw| == p - 1
  {
    var p, c := rows[y - 1].raw, rows[y].raw;
    var a, b := RowsToString(rows[..y - 1]), RowsToString(rows[y + 1..]);
    RowsToStringSplit(rows, y - 1);
    RowsToStringCons(rows[y..]);
    assert rows[y..][1..] == rows[y + 1..];
    RowsToStringSplit(rows', y - 1);
    JoinAdjacentLines(a, p, c, b);
    assert rows[..y] == rows[..y - 1] + [rows[y - 1]];
    RowsToStringAppend(rows[..y - 1], [rows[y - 1]]);
    RowsToStringOne(rows[y - 1]);
  }

  /** Backspace at column 0 joins the row to the previous one: the newline
      before the cursor goes. */
  lemma DeleteCharJoinText(e: Editor)
    requires 0 < e.cy < |e.rows| && e.cx == 0
    ensures 0 < Position(e) < |Text(e)|
    ensures DeleteChar(e).Ok?
    ensures var e' := DeleteChar(e).value;
      && Text(e') == Text(e)[..Position(e) - 1] + Text(e)[Position(e)..]
      && Position(e') == Position(e) - 1
  {
    DeleteCharJoinShape(e);
    var e' := DeleteChar(e).value;
    JoinRowsText(e.rows, e'.rows, e.cy);
    assert Text(e') == RowsToString(e'.rows);
    assert Position(e') == |RowsToString(e'.rows[..e.cy - 1])| + |e.rows[e.cy - 1].raw|;
  }

  /** Backspace inside the document removes exactly the character before
      the cursor's offset in the saved text: a row character, or the
      newline ending the previous row when the cursor is at column 0. */
  lemma DeleteCharText(e: Editor)
    requires e.cy < |e.rows| && e.cx <= |e.rows[e.cy].raw|
    requires e.cx > 0 || e.cy > 0
    ensures 0 < Position(e) < |Text(e)|
    ensures DeleteChar(e).Ok?
    ensures var e' := DeleteChar(e).value;
      && Text(e') == Text(e)[..Position(e) - 1] + Text(e)[Position(e)..]
      && Position(e') == Position(e) - 1
  {
    if e.cx > 0 {
      DeleteCharInRowText(e);
    } else {
      DeleteCharJoinText(e);
    }
  }

  /** Deleting the only character of a row leaves its old rendering in
      place, because updateRow returns early on an empty row. */
  lemma StaleRenderAfterEmptyingRow()
    ensures var e := Editor([Row("a", "a")], 1, 0, 1, 0, 0, 10, 10, 0);
      && DeleteChar(e).Ok?
      && DeleteChar(e).value.rows[0] == Row("", "a")
  {
  }
}

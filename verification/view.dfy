/** What refreshScreen computes before writing: the scroll offsets that
    keep the cursor visible (src/Editor.cpp:331-348) and the text rows of
    the screen (src/Editor.cpp:350-391). */
module View {
  import opened Faults
  import opened TabRender
  import opened Buffer
  import opened Screen

  const WELCOME: string := "Kilo++ editor -- version 0.0.1"

  function Min(a: nat, b: nat): nat {
    if a < b then a else b
  }

  /** On a row, the cursor column is within it: what convertRowCxToRx
      needs to read only characters of the row. */
  predicate CursorWithinRow(e: Editor) {
    e.cy < |e.rows| ==> e.cx <= |e.rows[e.cy].raw|
  }

  /** scroll: compute rx for the cursor and move the offsets by the least
      amount that brings the cursor into the text area. */
  function Scroll(e: Editor): (r: Editor)
    requires CursorWithinRow(e)
    ensures r == e.(rx := r.rx, rowoff := r.rowoff, coloff := r.coloff)
    ensures r.rx == (if e.cy < |e.rows| then CxToRx(e.rows[e.cy].raw, e.cx) else e.cx)
    ensures e.screenrows >= 1 ==> r.rowoff <= r.cy < r.rowoff + r.screenrows
    ensures e.screencols >= 1 ==> r.coloff <= r.rx < r.coloff + r.screencols
    ensures e.rowoff <= e.cy < e.rowoff + e.screenrows ==> r.rowoff == e.rowoff
    ensures e.coloff <= r.rx < e.coloff + e.screencols ==> r.coloff == e.coloff
    ensures e.screenrows >= 1 && e.cy < e.rowoff ==> r.rowoff == e.cy
    ensures e.screencols >= 1 && r.rx < e.coloff ==> r.coloff == r.rx
    ensures e.screenrows >= 1 && e.cy >= e.rowoff + e.screenrows ==> r.cy == r.rowoff + r.screenrows - 1
    ensures e.screencols >= 1 && r.rx >= e.coloff + e.screencols ==> r.rx == r.coloff + r.screencols - 1
  {
    var rx := if e.cy < |e.rows| then CxToRx(e.rows[e.cy].raw, e.cx) else e.cx;
    var rowoff := if e.cy < e.rowoff then e.cy else e.rowoff;
    var rowoff := if e.cy >= rowoff + e.screenrows then e.cy - e.screenrows + 1 else rowoff;
    var coloff := if rx < e.coloff then rx else e.coloff;
    var coloff := if rx >= coloff + e.screencols then rx - e.screencols + 1 else coloff;
    e.(rx := rx, rowoff := rowoff, coloff := coloff)
  }

  /** Scrolling again changes nothing. */
  lemma ScrollIdempotent(e: Editor)
    requires CursorWithinRow(e)
    ensures Scroll(Scroll(e)) == Scroll(e)
  {
  }

  /** scroll recomputes rx from the cursor, so an rx left behind by
      earlier code does not matter. */
  lemma ScrollIgnoresRx(e: Editor, rx: nat)
    requires CursorWithinRow(e)
    ensures Scroll(e.(rx := rx)) == Scroll(e)
  {
  }

  /** The part of a rendered row that fits on screen from column coloff. */
  function Window(rendered: string, coloff: nat, cols: nat): (w: string)
    requires coloff <= |rendered|
    ensures |w| <= cols && coloff + |w| <= |rendered|
    ensures w == rendered[coloff..coloff + |w|]
    ensures |w| == cols || coloff + |w| == |rendered|
  {
    rendered[coloff..coloff + Min(|rendered| - coloff, cols)]
  }

  /** What an empty screen line shows: the welcome message on line
      screenrows/3 of an empty buffer, a '~' otherwise. */
  function FillerLine(e: Editor, y: nat): string {
    if |e.rows| == 0 && y == e.screenrows / 3 then WelcomeLine(WELCOME, e.screencols) else "~"
  }

  /** File row y + rowoff, if it is on screen line y, reaches column
      coloff of its rendering. */
  predicate LineFits(e: Editor, y: nat) {
    y + e.rowoff < |e.rows| ==> e.coloff <= |e.rows[y + e.rowoff].rendered|
  }

  /** Screen line y as drawRows writes it, or the fault of `substr` when
      the file row's rendering is shorter than coloff. */
  function ScreenLine(e: Editor, y: nat): (r: Result<string>)
    ensures r.Err? <==> !LineFits(e, y)
    ensures r.Err? ==> r.fault == SubstrOutOfRange
    ensures r.Ok? ==> r.value == VisibleLine(e, y)
  {
    var filerow := y + e.rowoff;
    if filerow >= |e.rows| then Ok(FillerLine(e, y))
    else
      var rendered := e.rows[filerow].rendered;
      // The source clamps a negative length to 0, but substr has already
      // thrown by then whenever the length would be negative.
      if e.coloff > |rendered| then Err(SubstrOutOfRange)
      else Ok(Window(rendered, e.coloff, e.screencols))
  }

  /** Screen line y with short rows shown empty: the window of file row
      y + rowoff starting at coloff, or the filler past the last row. */
  function VisibleLine(e: Editor, y: nat): string {
    var filerow := y + e.rowoff;
    if filerow >= |e.rows| then FillerLine(e, y)
    else
      var rendered := e.rows[filerow].rendered;
      if e.coloff > |rendered| then "" else Window(rendered, e.coloff, e.screencols)
  }

  /** What screen line y shows: at most screencols characters of the file
      row's rendering from coloff on, as many as fit; nothing when the row
      is shorter than coloff; the filler past the last row. */
  lemma VisibleLineShape(e: Editor, y: nat)
    ensures var line := VisibleLine(e, y);
      y + e.rowoff < |e.rows| ==>
      var rendered := e.rows[y + e.rowoff].rendered;
      && |line| <= e.screencols
      && (e.coloff <= |rendered| ==> e.coloff + |line| <= |rendered|)
      && (e.coloff <= |rendered| ==> line == rendered[e.coloff..e.coloff + |line|]
                                     && (|line| == e.screencols || e.coloff + |line| == |rendered|))
      && (e.coloff > |rendered| ==> line == "")
    ensures y + e.rowoff >= |e.rows| ==> VisibleLine(e, y) == FillerLine(e, y)
  {
  }

  /** The screen lines y .. screenrows - 1. */
  function VisibleLines(e: Editor, y: nat): (ls: seq<string>)
    ensures |ls| == if y <= e.screenrows then e.screenrows - y else 0
    ensures forall i :: 0 <= i < |ls| ==> ls[i] == VisibleLine(e, y + i)
    decreases e.screenrows - y
  {
    if y >= e.screenrows then []
    else
      var rest := VisibleLines(e, y + 1);
      assert forall i :: 0 < i <= |rest| ==> ([VisibleLine(e, y)] + rest)[i] == rest[i - 1];
      [VisibleLine(e, y)] + rest
  }

  /** A screen line as drawRows appends it: the text, an erase to end of
      line and a line break. */
  function Piece(line: string): string {
    line + CLEAR_LINE + CRLF
  }

  /** Every line as a piece, in order. */
  function Frame(lines: seq<string>): string {
    if |lines| == 0 then "" else Piece(lines[0]) + Frame(lines[1..])
  }

  lemma FrameStep(ls: seq<string>, acc: string)
    requires |ls| > 0
    ensures acc + Piece(ls[0]) + Frame(ls[1..]) == acc + Frame(ls)
  {
    assert Frame(ls) == Piece(ls[0]) + Frame(ls[1..]);
  }

  /** The frame of lines y .. starts with line y. */
  lemma FrameOfVisibleLines(e: Editor, y: nat, acc: string)
    requires y < e.screenrows
    ensures acc + Piece(VisibleLine(e, y)) + Frame(VisibleLines(e, y + 1))
            == acc + Frame(VisibleLines(e, y))
  {
    var ls := VisibleLines(e, y);
    assert ls == [VisibleLine(e, y)] + VisibleLines(e, y + 1);
    assert ls[1..] == VisibleLines(e, y + 1);
    FrameStep(ls, acc);
  }

  /** The loop of drawRows from line y on, appending to `acc`. */
  function DrawFrom(e: Editor, y: nat, acc: string): (r: Result<string>)
    ensures r.Ok? <==> forall i :: y <= i < e.screenrows ==> LineFits(e, i)
    ensures r.Err? ==> r.fault == SubstrOutOfRange
    ensures r.Ok? ==> r.value == acc + Frame(VisibleLines(e, y))
    decreases e.screenrows - y
  {
    if y >= e.screenrows then Ok(acc)
    else
      match ScreenLine(e, y)
      case Err(f) => Err(f)
      case Ok(line) =>
        FrameOfVisibleLines(e, y, acc);
        DrawFrom(e, y + 1, acc + Piece(line))
  }

  /** drawRows: append the text area to `s`. It fails exactly when some
      visible file row is rendered shorter than coloff; otherwise it
      appends every screen line in order. */
  function DrawRows(e: Editor, s: string): (r: Result<string>)
    ensures r.Ok? <==> forall y :: 0 <= y < e.screenrows ==> LineFits(e, y)
    ensures r.Err? ==> r.fault == SubstrOutOfRange
    ensures r.Ok? ==> r.value == s + Frame(VisibleLines(e, 0))
  {
    DrawFrom(e, 0, s)
  }

  /** drawRows with a row shorter than coloff drawn as an empty line, as
      the clamp of the length to 0 intends: it never fails. */
  function DrawRowsIntended(e: Editor, s: string): (r: string)
    ensures r == s + Frame(VisibleLines(e, 0))
    ensures DrawRows(e, s).Ok? ==> DrawRows(e, s).value == r
  {
    s + Frame(VisibleLines(e, 0))
  }

  /** The editor of DrawRowsThrowsOnShortRow after scrolling: the cursor
      at render column 3 of a 2-column screen scrolls it to column 2, while
      row 0 renders empty. */
  lemma ShortRowScroll(e: Editor)
    requires e == Editor([NewRow(""), NewRow("abc")], 3, 1, 0, 0, 0, 5, 2, 0)
    ensures Scroll(e).coloff == 2 && Scroll(e).rowoff == 0 && Scroll(e).screenrows == 5
    ensures Scroll(e).rows == e.rows && e.rows[0].rendered == ""
  {
    assert NoTabs("abc");
    CxToRxWithoutTabs("abc");
  }

  /** An empty first row under a cursor scrolled two columns right: drawRows
      as written asks for a substring past the end of row 0's rendering and
      throws, where the intended clamp draws an empty line. */
  lemma DrawRowsThrowsOnShortRow()
    ensures var e := Editor([NewRow(""), NewRow("abc")], 3, 1, 0, 0, 0, 5, 2, 0);
      && Scroll(e).coloff == 2
      && DrawRows(Scroll(e), "") == Err(SubstrOutOfRange)
      && |DrawRowsIntended(Scroll(e), "")| > 0
  {
    var e := Editor([NewRow(""), NewRow("abc")], 3, 1, 0, 0, 0, 5, 2, 0);
    ShortRowScroll(e);
    assert !LineFits(Scroll(e), 0);
  }
}

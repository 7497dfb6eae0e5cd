/** Incremental search (src/Editor.cpp:257-327): findCallback with its
    function-local (last_match, direction) carried as a FindState, and the
    find session that runs the prompt and restores the cursor when the
    search is cancelled. */
module Search {
  import opened Keys
  import opened TabRender
  import opened Buffer
  import opened View
  import opened Prompt

  datatype Option<T> = None | Some(value: T)

  /** `q` occurs in `s` at offset k. */
  predicate OccursAt(s: string, q: string, k: nat) {
    k + |q| <= |s| && s[k..k + |q|] == q
  }

  /** std::string::find from offset `from`: the first occurrence. */
  function IndexFrom(s: string, q: string, from: nat): (r: Option<nat>)
    ensures r.Some? ==> from <= r.value && OccursAt(s, q, r.value)
    ensures r.Some? ==> forall k :: from <= k < r.value ==> !OccursAt(s, q, k)
    ensures r.None? ==> forall k :: from <= k ==> !OccursAt(s, q, k)
    decreases |s| - from
  {
    if from + |q| > |s| then None
    else if s[from..from + |q|] == q then Some(from)
    else IndexFrom(s, q, from + 1)
  }

  function IndexOf(s: string, q: string): Option<nat> {
    IndexFrom(s, q, 0)
  }

  /** The rendering of `row` contains `q`. */
  predicate Contains(row: Row, q: string) {
    IndexOf(row.rendered, q).Some?
  }

  /** findCallback's statics: the row of the last match (-1 for none) and
      the search direction. */
  datatype FindState = FindState(lastMatch: int, direction: int)

  const FRESH: FindState := FindState(-1, 1)

  predicate ValidState(fs: FindState, n: nat) {
    -1 <= fs.lastMatch < n && (fs.direction == 1 || fs.direction == -1)
  }

  /** The search origin and direction are usable for a scan of n rows. */
  predicate ScanStart(start: int, dir: int, n: nat) {
    -1 <= start < n && (dir == 1 || dir == -1) && (start == -1 ==> dir == 1)
  }

  /** The row index `current` holds after t steps from `start` in direction
      `dir`, wrapping at both ends of the n rows. */
  function Visit(start: int, t: nat, dir: int, n: nat): (v: int)
    requires ScanStart(start, dir, n) && t <= n
    ensures t == 0 ==> v == start
    ensures t > 0 ==> 0 <= v < n
  {
    if t == 0 then start
    else if dir == 1 then (if start + t < n then start + t else start + t - n)
    else (if start - t >= 0 then start - t else start - t + n)
  }

  /** `current += direction` followed by the wrap-around of findCallback. */
  function Wrap(c: int, n: nat): int {
    if c == -1 then n - 1 else if c == n then 0 else c
  }

  lemma VisitStep(start: int, t: nat, dir: int, n: nat)
    requires ScanStart(start, dir, n) && t < n
    ensures Visit(start, t + 1, dir, n) == Wrap(Visit(start, t, dir, n) + dir, n)
  {
  }

  /** The first n steps visit every row. */
  lemma VisitCovers(start: int, dir: int, n: nat, j: nat) returns (t: nat)
    requires ScanStart(start, dir, n) && j < n
    ensures 1 <= t <= n && Visit(start, t, dir, n) == j
  {
    if dir == 1 {
      t := if j > start then j - start else j - start + n;
    } else {
      t := if j < start then start - j else start - j + n;
    }
  }

  /** The row findCallback reports (`current`) and the offset it found. */
  datatype Hit = Hit(row: nat, offset: nat)

  /** The first row from i on whose rendering contains q. */
  function FirstContaining(rows: seq<Row>, q: string, i: nat): (r: Option<nat>)
    requires i <= |rows|
    ensures r.None? ==> forall j :: i <= j < |rows| ==> !Contains(rows[j], q)
    ensures r.Some? ==> i <= r.value < |rows| && Contains(rows[r.value], q)
    ensures r.Some? ==> forall k :: i <= k < r.value ==> !Contains(rows[k], q)
    decreases |rows| - i
  {
    if i == |rows| then None
    else if Contains(rows[i], q) then Some(i)
    else FirstContaining(rows, q, i + 1)
  }

  /** The loop of findCallback as written, from iteration i: `current`
      follows the visit order, but the row searched is rows[i]. What it
      reports is the first row from i on in plain order that contains q,
      with the visit-order index one step past it. */
  function ScanAsWritten(rows: seq<Row>, q: string, i: nat, current: int, start: int, dir: int): (r: Option<Hit>)
    requires ScanStart(start, dir, |rows|) && i <= |rows| && current == Visit(start, i, dir, |rows|)
    ensures r.None? <==> FirstContaining(rows, q, i).None?
    ensures r.Some? ==> var j := FirstContaining(rows, q, i).value;
      r.value == Hit(Visit(start, j + 1, dir, |rows|), IndexOf(rows[j].rendered, q).value)
    decreases |rows| - i
  {
    if i == |rows| then None
    else
      VisitStep(start, i, dir, |rows|);
      var next := Wrap(current + dir, |rows|);
      match IndexOf(rows[i].rendered, q)
      case Some(k) => Some(Hit(next, k))
      case None => ScanAsWritten(rows, q, i + 1, next, start, dir)
  }

  /** The loop with the evidently intended test of rows[current]. */
  function ScanIntended(rows: seq<Row>, q: string, t: nat, current: int, start: int, dir: int): (r: Option<Hit>)
    requires ScanStart(start, dir, |rows|) && t <= |rows| && current == Visit(start, t, dir, |rows|)
    ensures r.None? ==> forall u :: t < u <= |rows| ==> !Contains(rows[Visit(start, u, dir, |rows|)], q)
    ensures r.Some? ==> exists u :: (t < u <= |rows| && r.value.row == Visit(start, u, dir, |rows|)
      && (forall w :: t < w < u ==> !Contains(rows[Visit(start, w, dir, |rows|)], q)))
    ensures r.Some? ==> (r.value.row < |rows| && Contains(rows[r.value.row], q)
      && r.value.offset == IndexOf(rows[r.value.row].rendered, q).value)
    decreases |rows| - t
  {
    if t == |rows| then None
    else
      VisitStep(start, t, dir, |rows|);
      var next := Wrap(current + dir, |rows|);
      assert next == Visit(start, t + 1, dir, |rows|);
      match IndexOf(rows[next].rendered, q)
      case Some(k) => Some(Hit(next, k))
      case None =>
        assert !Contains(rows[Visit(start, t + 1, dir, |rows|)], q);
        ScanIntended(rows, q, t + 1, next, start, dir)
  }

  /** A full intended scan that finds nothing means no row contains q. */
  lemma ScanIntendedComplete(rows: seq<Row>, q: string, start: int, dir: int)
    requires ScanStart(start, dir, |rows|)
    ensures ScanIntended(rows, q, 0, start, start, dir).None? <==>
            forall j :: 0 <= j < |rows| ==> !Contains(rows[j], q)
  {
    if ScanIntended(rows, q, 0, start, start, dir).None? {
      forall j | 0 <= j < |rows| ensures !Contains(rows[j], q) {
        var t := VisitCovers(start, dir, |rows|, j);
      }
    }
  }

  /** The origin and direction of the scan for `key`: arrows keep the last
      match and set the direction, any other key restarts from the top;
      with no last match the direction is forwards. */
  function Restart(fs: FindState, key: int): (r: FindState)
    requires fs.direction == 1 || fs.direction == -1
    ensures r.lastMatch == (if IsArrow(key) then fs.lastMatch else -1)
    ensures r.direction == 1 || r.direction == -1
    ensures r.lastMatch == -1 ==> r.direction == 1
    ensures r.lastMatch != -1 ==> (r.direction == 1 <==> key == ARROW_RIGHT || key == ARROW_DOWN)
  {
    var fs1 := if key == ARROW_RIGHT || key == ARROW_DOWN then fs.(direction := 1)
               else if key == ARROW_LEFT || key == ARROW_UP then fs.(direction := -1)
               else FRESH;
    if fs1.lastMatch == -1 then fs1.(direction := 1) else fs1
  }

  /** findCallback as written: Enter and ESC reset the statics; otherwise
      the first row in plain order that contains the query is found, but
      the index reported is the visit-order `current` one step past it,
      and the cursor goes to column 0 of that row with rx at the offset. */
  function FindCallback(e: Editor, fs: FindState, q: string, key: int): (r: (Editor, FindState))
    requires ValidState(fs, |e.rows|)
    ensures ValidState(r.1, |e.rows|)
    ensures r.0 == e.(cx := r.0.cx, cy := r.0.cy, rx := r.0.rx)
    ensures key == ENTER || key == ESC ==> r == (e, FRESH)
    ensures key != ENTER && key != ESC && FirstContaining(e.rows, q, 0).None? ==>
      r.0 == e && r.1 == Restart(fs, key)
    ensures key != ENTER && key != ESC && FirstContaining(e.rows, q, 0).Some? ==>
      var j := FirstContaining(e.rows, q, 0).value;
      && r.0.cy < |e.rows| && r.0.cx == 0 && r.1.lastMatch == r.0.cy
      && OccursAt(e.rows[j].rendered, q, r.0.rx)
    ensures key != ENTER && key != ESC && FirstContaining(e.rows, q, 0).Some? ==>
      var j, fs1 := FirstContaining(e.rows, q, 0).value, Restart(fs, key);
      && r.0.cy == Visit(fs1.lastMatch, j + 1, fs1.direction, |e.rows|)
      && r.1 == fs1.(lastMatch := r.0.cy)
      && r.0.rx == IndexOf(e.rows[j].rendered, q).value
    ensures key != ENTER && key != ESC && !IsArrow(key) && FirstContaining(e.rows, q, 0).Some? ==>
      var j := FirstContaining(e.rows, q, 0).value;
      r == (e.(cy := j, rx := IndexOf(e.rows[j].rendered, q).value, cx := 0), FindState(j, 1))
  {
    if key == ENTER || key == ESC then (e, FRESH)
    else
      var fs1 := Restart(fs, key);
      match ScanAsWritten(e.rows, q, 0, fs1.lastMatch, fs1.lastMatch, fs1.direction)
      case None => (e, fs1)
      case Some(hit) => (e.(cy := hit.row, rx := hit.offset, cx := 0), fs1.(lastMatch := hit.row))
  }

  /** findCallback with the row at `current` searched and the cursor column
      converted back from the render offset: the match reported is in the
      row the cursor goes to, it is the first one in visit order, and when
      nothing is found no row contains the query. */
  function FindCallbackIntended(e: Editor, fs: FindState, q: string, key: int): (r: (Editor, FindState))
    requires ValidState(fs, |e.rows|)
    ensures ValidState(r.1, |e.rows|)
    ensures r.0 == e.(cx := r.0.cx, cy := r.0.cy, rx := r.0.rx)
    ensures key == ENTER || key == ESC ==> r == (e, FRESH)
    ensures key != ENTER && key != ESC && (forall j :: 0 <= j < |e.rows| ==> !Contains(e.rows[j], q)) ==>
      r.0 == e && r.1 == Restart(fs, key)
    ensures key != ENTER && key != ESC && (exists j :: 0 <= j < |e.rows| && Contains(e.rows[j], q)) ==>
      && r.0.cy < |e.rows| && r.1.lastMatch == r.0.cy
      && OccursAt(e.rows[r.0.cy].rendered, q, r.0.rx)
      && r.0.cx == RowRxToCxIntended(e.rows[r.0.cy].raw, r.0.rx)
  {
    if key == ENTER || key == ESC then (e, FRESH)
    else
      var fs1 := Restart(fs, key);
      ScanIntendedComplete(e.rows, q, fs1.lastMatch, fs1.direction);
      match ScanIntended(e.rows, q, 0, fs1.lastMatch, fs1.lastMatch, fs1.direction)
      case None => (e, fs1)
      case Some(hit) =>
        var e1 := e.(cy := hit.row, rx := hit.offset, cx := RowRxToCxIntended(e.rows[hit.row].raw, hit.offset));
        (e1, fs1.(lastMatch := hit.row))
  }

  /** Where "foo" occurs in "foo" and in "bar". */
  lemma FooBarIndex()
    ensures IndexOf("foo", "foo") == Some(0)
    ensures IndexOf("bar", "foo") == None
  {
    assert "bar"[0..3][0] != "foo"[0];
  }

  /** The rendered rows "foo" and "bar" and where "foo" occurs in them. */
  lemma FooBarRows(rows: seq<Row>)
    requires rows == [NewRow("foo"), NewRow("bar")]
    ensures rows[0].rendered == "foo" && rows[1].rendered == "bar"
    ensures IndexOf(rows[0].rendered, "foo") == Some(0)
    ensures IndexOf(rows[1].rendered, "foo") == None
  {
    assert NoTabs("foo") && NoTabs("bar");
    NewRowWithoutTabs("foo");
    NewRowWithoutTabs("bar");
    FooBarIndex();
  }

  /** Both scans for "foo" over ["foo", "bar"] going forwards from row 0. */
  lemma FooBarScans(rows: seq<Row>)
    requires rows == [NewRow("foo"), NewRow("bar")]
    ensures ScanAsWritten(rows, "foo", 0, 0, 0, 1) == Some(Hit(1, 0))
    ensures ScanIntended(rows, "foo", 0, 0, 0, 1) == Some(Hit(0, 0))
  {
    FooBarRows(rows);
    assert ScanIntended(rows, "foo", 1, 1, 0, 1) == Some(Hit(0, 0));
  }

  /** Searching forwards for "foo" from a match in row 0 of ["foo", "bar"]:
      findCallback as written tests row 0 again and reports row 1, which
      does not contain "foo"; the intended search wraps round to row 0. */
  lemma FindCallbackReportsWrongRow()
    ensures var e := Editor([NewRow("foo"), NewRow("bar")], 0, 0, 0, 0, 0, 10, 10, 0);
      && FindCallback(e, FindState(0, 1), "foo", ARROW_DOWN).0.cy == 1
      && !Contains(e.rows[1], "foo")
      && FindCallbackIntended(e, FindState(0, 1), "foo", ARROW_DOWN).0.cy == 0
  {
    var e := Editor([NewRow("foo"), NewRow("bar")], 0, 0, 0, 0, 0, 10, 10, 0);
    FooBarRows(e.rows);
    FooBarScans(e.rows);
    assert Restart(FindState(0, 1), ARROW_DOWN) == FindState(0, 1);
  }

  /** Which findCallback the session runs. */
  datatype Callback = AsWritten | Intended

  function RunCallback(cb: Callback, e: Editor, fs: FindState, q: string, key: int): (r: (Editor, FindState))
    requires ValidState(fs, |e.rows|)
    ensures ValidState(r.1, |e.rows|)
    ensures r.0 == e.(cx := r.0.cx, cy := r.0.cy, rx := r.0.rx)
    ensures key == ENTER || key == ESC ==> r == (e, FRESH)
    ensures CursorWithinRow(e) ==> CursorWithinRow(r.0)
  {
    if cb == AsWritten then FindCallback(e, fs, q, key) else FindCallbackIntended(e, fs, q, key)
  }

  /** A search session: still prompting, or closed with the prompt's answer. */
  datatype FindRun =
    | Searching(editor: Editor, state: FindState, buffer: string)
    | Finished(editor: Editor, state: FindState, query: string)

  /** fromPrompt with findCallback as its callback: before each key is read
      the screen is refreshed, which scrolls; the key goes to the prompt and
      then to the callback with the prompt's text. */
  function RunFind(cb: Callback, e: Editor, fs: FindState, buf: string, keys: seq<int>): (r: FindRun)
    requires ValidState(fs, |e.rows|) && CursorWithinRow(e)
    ensures ValidState(r.state, |e.rows|) && CursorWithinRow(r.editor)
    ensures r.editor == e.(cx := r.editor.cx, cy := r.editor.cy, rx := r.editor.rx,
                           rowoff := r.editor.rowoff, coloff := r.editor.coloff)
    ensures r.Finished? ==> r.state == FRESH
    decreases |keys|
  {
    if |keys| == 0 then Searching(e, fs, buf)
    else
      var c := keys[0];
      var (e1, fs1) := RunCallback(cb, Scroll(e), fs, CallbackText(buf, c), c);
      match PromptKey(buf, c)
      case Typing(b) => RunFind(cb, e1, fs1, b, keys[1..])
      case Done(a) => Finished(e1, fs1, a)
  }

  /** The session's text follows the prompt alone: the callback never
      changes what is typed or returned. */
  lemma {:induction false} RunFindFollowsPrompt(cb: Callback, e: Editor, fs: FindState, buf: string, keys: seq<int>)
    requires ValidState(fs, |e.rows|) && CursorWithinRow(e)
    ensures match RunPrompt(buf, keys)
      case Typing(b) => RunFind(cb, e, fs, buf, keys).Searching? && RunFind(cb, e, fs, buf, keys).buffer == b
      case Done(a) => RunFind(cb, e, fs, buf, keys).Finished? && RunFind(cb, e, fs, buf, keys).query == a
    decreases |keys|
  {
    if |keys| > 0 {
      var c := keys[0];
      match PromptKey(buf, c)
      case Typing(b) =>
        var (e1, fs1) := RunCallback(cb, Scroll(e), fs, CallbackText(buf, c), c);
        RunFindFollowsPrompt(cb, e1, fs1, b, keys[1..]);
      case Done(a) =>
    }
  }

  /** find: run the search prompt from the statics `fs`; when it returns
      the empty query (ESC), put back cx, cy, coloff and rowoff as they
      were before the search. */
  function FindSession(cb: Callback, e: Editor, fs: FindState, keys: seq<int>): (r: FindRun)
    requires ValidState(fs, |e.rows|) && CursorWithinRow(e)
    ensures r.editor.rows == e.rows && ValidState(r.state, |e.rows|) && CursorWithinRow(r.editor)
    ensures r.Finished? ==> r.state == FRESH
    ensures r.Finished? && r.query == "" ==>
      && r.editor.cx == e.cx && r.editor.cy == e.cy
      && r.editor.coloff == e.coloff && r.editor.rowoff == e.rowoff
  {
    var run := RunFind(cb, e, fs, "", keys);
    if run.Finished? && run.query == "" then
      Finished(run.editor.(cx := e.cx, cy := e.cy, coloff := e.coloff, rowoff := e.rowoff), run.state, run.query)
    else run
  }

  /** A search ends with a non-empty printable query, or with the empty one
      only after ESC, and leaves the statics ready for a fresh search. A
      search cancelled with ESC leaves the text, the cursor and the scroll
      offsets as they were; rx may differ, but the next refresh recomputes
      it, so the screen is the one shown before the search. */
  lemma FindSessionOutcome(cb: Callback, e: Editor, fs: FindState, keys: seq<int>)
    requires ValidState(fs, |e.rows|) && CursorWithinRow(e)
    ensures var r := FindSession(cb, e, fs, keys);
      r.Finished? ==> r.state == FRESH && PrintableText(r.query) && (r.query == "" ==> ESC in keys)
    ensures var r := FindSession(cb, e, fs, keys);
      r.Finished? && r.query == "" ==> r.editor == e.(rx := r.editor.rx) && Scroll(r.editor) == Scroll(e)
  {
    RunFindFollowsPrompt(cb, e, fs, "", keys);
    RunPromptPrintable("", keys);
    var r := FindSession(cb, e, fs, keys);
    if r.Finished? && r.query == "" {
      ScrollIgnoresRx(e, r.editor.rx);
    }
  }

  /** As written, a match puts the cursor at column 0 of the reported row,
      so the refresh that follows recomputes rx as 0: the cursor is shown at
      the start of the row, not on the match. With at least one screen
      column the horizontal offset drops to 0, so that refresh draws every
      line. */
  lemma AsWrittenRefreshShowsLineStart(e: Editor, fs: FindState, q: string, key: int, s: string)
    requires ValidState(fs, |e.rows|)
    requires key != ENTER && key != ESC && FirstContaining(e.rows, q, 0).Some?
    ensures var r := Scroll(FindCallback(e, fs, q, key).0);
      && r.rx == 0
      && (e.screencols >= 1 ==> r.coloff == 0 && DrawRows(r, s).Ok?)
  {
  }

  /** The intended callback puts the cursor on the character whose cells
      cover the match: after the next refresh rx is that character's first
      cell, at or before the match and within the character. */
  lemma IntendedCursorCoversMatch(e: Editor, fs: FindState, q: string, key: int)
    requires ValidState(fs, |e.rows|)
    requires key != ENTER && key != ESC && FirstContaining(e.rows, q, 0).Some?
    ensures var m := FindCallbackIntended(e, fs, q, key).0;
      var raw := e.rows[m.cy].raw;
      && m.cy < |e.rows| && m.cx <= |raw|
      && Scroll(m).rx == CxToRx(raw, m.cx) <= m.rx
      && (m.cx < |raw| ==> m.rx < CxToRx(raw, m.cx + 1))
  {
    var m := FindCallbackIntended(e, fs, q, key).0;
    var raw := e.rows[m.cy].raw;
    if m.cx > 0 {
      assert CxToRx(raw, m.cx) <= m.rx;
    }
  }

  /** "b" first occurs in "ab" at 1. */
  lemma AbIndex()
    ensures IndexOf("ab", "b") == Some(1)
  {
    assert "ab"[0..1][0] != "b"[0];
    assert "ab"[1..2] == "b";
  }

  /** The row "ab" renders as itself. */
  lemma AbRow(rows: seq<Row>)
    requires rows == [NewRow("ab")]
    ensures rows[0].rendered == "ab"
    ensures IndexOf(rows[0].rendered, "b") == Some(1)
  {
    assert NoTabs("ab");
    NewRowWithoutTabs("ab");
    AbIndex();
  }

  /** Typing "b" over the row "ab" moves the cursor to the match: as
      written to column 0 with rx 1, as intended to column 1. */
  lemma AbTypeB(e: Editor)
    requires e == Editor([NewRow("ab")], 0, 0, 0, 0, 0, 10, 10, 0)
    ensures FindCallback(e, FRESH, "b", 98) == (e.(cy := 0, rx := 1, cx := 0), FindState(0, 1))
    ensures FindCallbackIntended(e, FRESH, "b", 98) == (e.(cy := 0, rx := 1, cx := 1), FindState(0, 1))
  {
    AbRow(e.rows);
    assert FirstContaining(e.rows, "b", 0) == Some(0);
    assert ScanIntended(e.rows, "b", 0, -1, -1, 1) == Some(Hit(0, 1));
    assert CxToRx("ab", 1) == 1 && CxToRx("ab", 2) == 2;
  }

  /** Enter on a non-empty query ends the session after one more refresh,
      with the editor as that refresh left it. */
  lemma EnterEndsSearch(cb: Callback, e: Editor, fs: FindState, buf: string)
    requires ValidState(fs, |e.rows|) && CursorWithinRow(e) && |buf| > 0
    ensures RunFind(cb, e, fs, buf, [ENTER]) == Finished(Scroll(e), FRESH, buf)
  {
    assert PromptKey(buf, ENTER) == Done(buf);
  }

  /** Typing "b" and pressing Enter in a fresh search ends with query "b" and
      the editor as the callback left it, scrolled once more. */
  lemma TypeBThenEnter(cb: Callback, e: Editor)
    requires CursorWithinRow(e)
    ensures FindSession(cb, e, FRESH, [98, ENTER])
         == Finished(Scroll(RunCallback(cb, Scroll(e), FRESH, "b", 98).0), FRESH, "b")
  {
    assert PromptKey("", 98) == Typing("b") && CallbackText("", 98) == "b";
    assert [98, ENTER][1..] == [ENTER];
    var (e1, fs1) := RunCallback(cb, Scroll(e), FRESH, "b", 98);
    assert RunFind(cb, e, FRESH, "", [98, ENTER]) == RunFind(cb, e1, fs1, "b", [ENTER]);
    EnterEndsSearch(cb, e1, fs1, "b");
  }

  /** Searching the row "ab" for "b" and pressing Enter: as written the
      cursor ends at column 0 and the next refresh shows it there, though
      the match is at column 1; the intended callback leaves it on the
      match. */
  lemma SearchLeavesCursorAtLineStart()
    ensures var e := Editor([NewRow("ab")], 0, 0, 0, 0, 0, 10, 10, 0);
      var r := FindSession(AsWritten, e, FRESH, [98, ENTER]);
      && IndexOf(e.rows[0].rendered, "b") == Some(1)
      && r.Finished? && r.query == "b" && r.editor.cy == 0 && r.editor.cx == 0
      && Scroll(r.editor).rx == 0
    ensures var e := Editor([NewRow("ab")], 0, 0, 0, 0, 0, 10, 10, 0);
      var r := FindSession(Intended, e, FRESH, [98, ENTER]);
      && r.Finished? && r.query == "b" && r.editor.cy == 0 && r.editor.cx == 1
      && Scroll(r.editor).rx == 1
  {
    var e := Editor([NewRow("ab")], 0, 0, 0, 0, 0, 10, 10, 0);
    AbTypeB(e);
    assert Scroll(e) == e;
    TypeBThenEnter(AsWritten, e);
    TypeBThenEnter(Intended, e);
    var w := e.(cy := 0, rx := 1, cx := 0);
    assert Scroll(w) == e;
    var c := e.(cy := 0, rx := 1, cx := 1);
    assert Scroll(c) == c;
  }
}

/** The first-stage editor in src/main.cpp: a cursor on a grid the size of
    the terminal, with no text. Its key reader (editorReadKey, 90-179),
    cursor moves (editorMoveCursor, 303-332), key dispatch
    (editorProcessKeypress, 334-368) and screen lines (editorDrawRows,
    244-282). */
module Prototype {
  import opened Keys
  import opened KeyDecoder
  import opened Screen

  /** editorReadKey with its reads in order: the first byte, then up to
      three more while they are available. It decodes exactly as readKey. */
  method EditorReadKey(first: Byte, pending: seq<Byte>) returns (key: int, consumed: nat)
    ensures Decoded(key, consumed) == ReadKey(first, pending)
  {
    if first != ESC {
      return first, 1;
    }
    var got := 0;
    var sq: seq<Byte> := [];
    while got < 2 && got < |pending|
      invariant 0 <= got <= 2 && got <= |pending|
      invariant sq == pending[..got]
    {
      sq := sq + [pending[got]];
      got := got + 1;
    }
    if got < 2 {
      return ESC, got + 1;
    }
    if sq[0] == B('[') {
      if B('0') <= sq[1] <= B('9') {
        if |pending| < 3 {
          return ESC, 3;
        }
        var third := pending[2];
        if third == B('~') {
          var d := sq[1];
          if d == B('1') || d == B('7') {
            return HOME_KEY, 4;
          } else if d == B('3') {
            return DEL_KEY, 4;
          } else if d == B('4') || d == B('8') {
            return END_KEY, 4;
          } else if d == B('5') {
            return PAGE_UP, 4;
          } else if d == B('6') {
            return PAGE_DOWN, 4;
          }
        }
        return ESC, 4;
      } else {
        var x := sq[1];
        if x == B('A') {
          return ARROW_UP, 3;
        } else if x == B('B') {
          return ARROW_DOWN, 3;
        } else if x == B('C') {
          return ARROW_RIGHT, 3;
        } else if x == B('D') {
          return ARROW_LEFT, 3;
        } else if x == B('H') {
          return HOME_KEY, 3;
        } else if x == B('F') {
          return END_KEY, 3;
        }
      }
    } else if sq[0] == B('O') {
      if sq[1] == B('H') {
        return HOME_KEY, 3;
      } else if sq[1] == B('F') {
        return END_KEY, 3;
      }
    }
    return ESC, 3;
  }

  /** The cursor and the terminal size. */
  datatype Grid = Grid(cx: int, cy: int, screenrows: int, screencols: int)

  predicate OnGrid(g: Grid) {
    0 <= g.cx < g.screencols && 0 <= g.cy < g.screenrows
  }

  function Abs(x: int): nat {
    if x < 0 then -x else x
  }

  /** editorMoveCursor: one step in the arrow's direction unless the
      cursor is on that edge. */
  function ProtoMoveCursor(g: Grid, key: int): (r: Grid)
    ensures r == g.(cx := r.cx, cy := r.cy)
    ensures Abs(r.cx - g.cx) + Abs(r.cy - g.cy) <= 1
    ensures OnGrid(g) ==> OnGrid(r)
    ensures !IsArrow(key) ==> r == g
    ensures key == ARROW_LEFT ==> (r == g <==> g.cx == 0) && r.cx <= g.cx
    ensures key == ARROW_RIGHT ==> (r == g <==> g.cx == g.screencols - 1) && r.cx >= g.cx
    ensures key == ARROW_UP ==> (r == g <==> g.cy == 0) && r.cy <= g.cy
    ensures key == ARROW_DOWN ==> (r == g <==> g.cy == g.screenrows - 1) && r.cy >= g.cy
  {
    if key == ARROW_LEFT then (if g.cx != 0 then g.(cx := g.cx - 1) else g)
    else if key == ARROW_RIGHT then (if g.cx != g.screencols - 1 then g.(cx := g.cx + 1) else g)
    else if key == ARROW_UP then (if g.cy != 0 then g.(cy := g.cy - 1) else g)
    else if key == ARROW_DOWN then (if g.cy != g.screenrows - 1 then g.(cy := g.cy + 1) else g)
    else g
  }

  /** The same arrow `n` times. */
  function ProtoRepeat(g: Grid, key: int, n: nat): (r: Grid)
    ensures r == g.(cx := r.cx, cy := r.cy)
    ensures OnGrid(g) ==> OnGrid(r)
    decreases n
  {
    if n == 0 then g else ProtoRepeat(ProtoMoveCursor(g, key), key, n - 1)
  }

  /** `n` up or down moves from a grid position end `n` lines away or on
      the edge, in the same column. */
  lemma {:induction false} ProtoRepeatVertical(g: Grid, n: nat)
    requires OnGrid(g)
    ensures ProtoRepeat(g, ARROW_UP, n) == g.(cy := if g.cy >= n then g.cy - n else 0)
    ensures ProtoRepeat(g, ARROW_DOWN, n) ==
            g.(cy := if g.cy + n <= g.screenrows - 1 then g.cy + n else g.screenrows - 1)
    decreases n
  {
    if n > 0 {
      ProtoRepeatVertical(ProtoMoveCursor(g, ARROW_UP), n - 1);
      ProtoRepeatVertical(ProtoMoveCursor(g, ARROW_DOWN), n - 1);
    }
  }

  /** editorProcessKeypress: the new grid, and whether Ctrl-Q quits. */
  function ProtoProcessKeypress(g: Grid, c: int): (r: (Grid, bool))
    ensures r.1 <==> c == CtrlKey('q')
    ensures r.0 == g.(cx := r.0.cx, cy := r.0.cy)
    ensures OnGrid(g) ==> OnGrid(r.0)
  {
    if c == CtrlKey('q') then (g, true)
    else if c == HOME_KEY then (g.(cx := 0), false)
    else if c == END_KEY then (g.(cx := g.screencols - 1), false)
    else if c == PAGE_UP || c == PAGE_DOWN then
      (ProtoRepeat(g, if c == PAGE_UP then ARROW_UP else ARROW_DOWN, if g.screenrows > 0 then g.screenrows else 0), false)
    else if IsArrow(c) then (ProtoMoveCursor(g, c), false)
    else (g, false)
  }

  /** Home and End go to the first and last column, Page Up and Page Down
      to the top and bottom line, each keeping the other coordinate. */
  lemma ProtoHomeEndPage(g: Grid)
    requires OnGrid(g)
    ensures ProtoProcessKeypress(g, HOME_KEY).0 == g.(cx := 0)
    ensures ProtoProcessKeypress(g, END_KEY).0 == g.(cx := g.screencols - 1)
    ensures ProtoProcessKeypress(g, PAGE_UP).0 == g.(cy := 0)
    ensures ProtoProcessKeypress(g, PAGE_DOWN).0 == g.(cy := g.screenrows - 1)
  {
    ProtoRepeatVertical(g, g.screenrows);
  }

  const PROTO_WELCOME: string := "Kilo editor -- version 0.0.1"

  /** Line y of the prototype's screen with its erase to end of line. */
  function ProtoLine(rows: nat, cols: nat, y: nat): string {
    (if y == rows / 3 then WelcomeLine(PROTO_WELCOME, cols) else "~") + CLEAR_LINE
  }

  /** The lines editorDrawRows writes from line y on. */
  function ProtoLines(rows: nat, cols: nat, y: nat): (ls: seq<string>)
    ensures |ls| == if y <= rows then rows - y else 0
    ensures forall i :: 0 <= i < |ls| ==> ls[i] == ProtoLine(rows, cols, y + i)
    decreases rows - y
  {
    if y >= rows then []
    else [ProtoLine(rows, cols, y)] + ProtoLines(rows, cols, y + 1)
  }

  /** Lines separated by CR LF, with none after the last. */
  function JoinLines(ls: seq<string>): string {
    if |ls| == 0 then "" else if |ls| == 1 then ls[0] else ls[0] + CRLF + JoinLines(ls[1..])
  }

  lemma JoinStep(rows: nat, cols: nat, y: nat, acc: string)
    requires y < rows
    ensures acc + ProtoLine(rows, cols, y) + (if y < rows - 1 then CRLF else "")
              + JoinLines(ProtoLines(rows, cols, y + 1))
            == acc + JoinLines(ProtoLines(rows, cols, y))
  {
    var ls := ProtoLines(rows, cols, y);
    assert ls[1..] == ProtoLines(rows, cols, y + 1);
    var sep := if y < rows - 1 then CRLF else "";
    var tail := JoinLines(ProtoLines(rows, cols, y + 1));
    assert JoinLines(ls) == ls[0] + sep + tail;
    assert acc + ls[0] + sep + tail == acc + (ls[0] + sep + tail);
  }

  /** The loop of editorDrawRows from line y on, appending to `acc`. */
  function ProtoDrawFrom(rows: nat, cols: nat, y: nat, acc: string): (r: string)
    ensures r == acc + JoinLines(ProtoLines(rows, cols, y))
    decreases rows - y
  {
    if y >= rows then acc
    else
      JoinStep(rows, cols, y, acc);
      ProtoDrawFrom(rows, cols, y + 1, acc + ProtoLine(rows, cols, y) + (if y < rows - 1 then CRLF else ""))
  }

  /** editorDrawRows: `screenrows` lines, each ending in an erase to end
      of line and separated by CR LF with none after the last; line
      screenrows/3 holds the centred welcome text and every other line a
      '~'. */
  function ProtoDrawRows(s: string, rows: nat, cols: nat): (r: string)
    ensures r == s + JoinLines(ProtoLines(rows, cols, 0))
  {
    ProtoDrawFrom(rows, cols, 0, s)
  }
}

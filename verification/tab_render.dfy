/** Rows and their tab-expanded rendering (src/Editor.cpp: updateRow,
    convertRowCxToRx, convertRowRxToCx). */
module TabRender {

  /** KILO_TAB_STOP */
  const TAB_STOP: nat := 8

  /** An editor row: the raw text and its tab-expanded rendering. The
      highlight vector of the C++ struct is never written and is left out. */
  datatype Row = Row(raw: string, rendered: string)

  predicate NoTabs(s: string) {
    forall i :: 0 <= i < |s| ==> s[i] != '\t'
  }

  predicate AllSpaces(s: string) {
    forall i :: 0 <= i < |s| ==> s[i] == ' '
  }

  /** The inner loop of updateRow: append spaces until the length is a
      multiple of the tab stop. */
  function PadToTabStop(acc: string): (r: string)
    ensures |r| % TAB_STOP == 0
    ensures |acc| <= |r| < |acc| + TAB_STOP
    ensures r[..|acc|] == acc
    ensures AllSpaces(r[|acc|..])
    decreases (TAB_STOP - |acc| % TAB_STOP) % TAB_STOP
  {
    if |acc| % TAB_STOP == 0 then acc
    else
      var r := PadToTabStop(acc + " ");
      assert r[..|acc|] == (acc + " ")[..|acc|];
      r
  }

  /** The body of convertRowCxToRx's loop: the render column after the
      character `c` that starts at render column `rx`. */
  function Advance(rx: nat, c: char): nat {
    (if c == '\t' then rx + (TAB_STOP - 1) - rx % TAB_STOP else rx) + 1
  }

  /** One iteration of updateRow's loop on the text rendered so far. */
  function RenderStep(acc: string, c: char): (r: string)
    ensures |r| == Advance(|acc|, c)
    ensures r[..|acc|] == acc
    ensures NoTabs(acc) ==> NoTabs(r)
  {
    if c == '\t' then
      var r := PadToTabStop(acc + " ");
      assert r[..|acc|] == (acc + " ")[..|acc|];
      assert forall i :: |acc| <= i < |r| ==> r[i] == r[|acc|..][i - |acc|];
      r
    else acc + [c]
  }

  /** The text updateRow builds for a raw row. */
  function RenderChars(raw: string): (r: string)
    ensures NoTabs(r)
    ensures |r| >= |raw|
  {
    if |raw| == 0 then ""
    else RenderStep(RenderChars(raw[..|raw| - 1]), raw[|raw| - 1])
  }

  /** updateRow: recompute the rendering of a row. An empty raw row
      returns early, so its rendering keeps whatever it held before. */
  function UpdateRow(row: Row): (r: Row)
    ensures r.raw == row.raw
    ensures |row.raw| == 0 ==> r.rendered == row.rendered
    ensures |row.raw| > 0 ==> NoTabs(r.rendered) && |r.rendered| == CxToRx(row.raw, |row.raw|)
  {
    if |row.raw| == 0 then row
    else
      assert row.raw[..|row.raw|] == row.raw;
      row.(rendered := RenderChars(row.raw))
  }

  /** A row whose rendering matches its raw text. */
  predicate Rendered(row: Row) {
    row.rendered == RenderChars(row.raw)
  }

  /** The row insertRow creates: a default row (empty rendering) given its
      text, then updated. It is rendered even when the text is empty. */
  function NewRow(s: string): (r: Row)
    ensures r.raw == s && Rendered(r)
  {
    UpdateRow(Row(s, ""))
  }

  /** Without tabs, render columns are buffer columns. */
  lemma CxToRxWithoutTabs(raw: string)
    requires NoTabs(raw)
    ensures CxToRx(raw, |raw|) == |raw|
  {
    RenderWithoutTabs(raw);
    assert raw[..|raw|] == raw;
  }

  /** A new row without tabs renders as its own text. */
  lemma NewRowWithoutTabs(s: string)
    requires NoTabs(s)
    ensures NewRow(s).rendered == s
  {
    RenderWithoutTabs(s);
  }

  /** convertRowCxToRx: the render column of buffer column `cx`. */
  function CxToRx(raw: string, cx: nat): (rx: nat)
    requires cx <= |raw|
    ensures rx >= cx
    ensures rx == |RenderChars(raw[..cx])|
    ensures NoTabs(raw[..cx]) ==> rx == cx
  {
    if cx == 0 then 0
    else
      assert raw[..cx][..cx - 1] == raw[..cx - 1];
      assert NoTabs(raw[..cx]) ==> NoTabs(raw[..cx - 1]) by {
        if NoTabs(raw[..cx]) {
          forall i | 0 <= i < cx - 1 ensures raw[i] != '\t' {
            assert raw[..cx][i] == raw[i];
          }
        }
      }
      Advance(CxToRx(raw, cx - 1), raw[cx - 1])
  }

  /** The rendering of a prefix of a row is a prefix of the row's rendering. */
  lemma {:induction false} RenderPrefix(raw: string, j: nat)
    requires j <= |raw|
    ensures |RenderChars(raw[..j])| <= |RenderChars(raw)|
    ensures RenderChars(raw[..j]) == RenderChars(raw)[..|RenderChars(raw[..j])|]
    decreases |raw| - j
  {
    if j < |raw| {
      var n := |raw|;
      assert raw[..n] == raw;
      RenderPrefix(raw, j + 1);
      assert raw[..j + 1][..j] == raw[..j];
      var a := RenderChars(raw[..j]);
      var b := RenderChars(raw[..j + 1]);
      assert b == RenderStep(a, raw[j]);
      assert b[..|a|] == a;
    } else {
      assert raw[..j] == raw;
    }
  }

  /** A row without tabs is rendered as itself. */
  lemma {:induction false} RenderWithoutTabs(raw: string)
    requires NoTabs(raw)
    ensures RenderChars(raw) == raw
  {
    if |raw| > 0 {
      var p := raw[..|raw| - 1];
      assert NoTabs(p) by {
        forall i | 0 <= i < |p| ensures p[i] != '\t' {
          assert p[i] == raw[i];
        }
      }
      RenderWithoutTabs(p);
      assert raw == p + [raw[|raw| - 1]];
    }
  }

  /** The width of a rendered row is the render column of its end. */
  lemma RenderWidth(raw: string)
    ensures |RenderChars(raw)| == CxToRx(raw, |raw|)
  {
    assert raw[..|raw|] == raw;
  }

  /** updateRow and convertRowCxToRx agree: character `i` of a row occupies
      render columns [CxToRx(i), CxToRx(i+1)). A non-tab character is copied
      into its single cell; a tab covers one to TAB_STOP spaces ending on a
      tab stop. */
  lemma {:induction false} RenderLayout(raw: string, i: nat)
    requires i < |raw|
    ensures CxToRx(raw, i) < CxToRx(raw, i + 1) <= |RenderChars(raw)|
    ensures raw[i] != '\t' ==>
      CxToRx(raw, i + 1) == CxToRx(raw, i) + 1 && RenderChars(raw)[CxToRx(raw, i)] == raw[i]
    ensures raw[i] == '\t' ==>
      && CxToRx(raw, i + 1) % TAB_STOP == 0
      && CxToRx(raw, i + 1) - CxToRx(raw, i) <= TAB_STOP
      && forall k :: CxToRx(raw, i) <= k < CxToRx(raw, i + 1) ==> RenderChars(raw)[k] == ' '
  {
    var a := RenderChars(raw[..i]);
    var b := RenderChars(raw[..i + 1]);
    assert raw[..i + 1][..i] == raw[..i];
    assert b == RenderStep(a, raw[i]);
    RenderPrefix(raw, i + 1);
    var whole := RenderChars(raw);
    assert b == whole[..|b|];
    if raw[i] == '\t' {
      var p := PadToTabStop(a + " ");
      assert b == p;
      assert (a + " ")[|a|] == ' ';
      assert p[..|a| + 1] == a + " ";
      forall k | |a| <= k < |b| ensures whole[k] == ' ' {
        assert whole[k] == b[k];
        if k == |a| {
          assert b[k] == (a + " ")[k];
        } else {
          assert b[k] == p[|a| + 1..][k - |a| - 1];
        }
      }
    } else {
      assert whole[|a|] == b[|a|];
    }
  }

  /** Render columns grow strictly with buffer columns. */
  lemma {:induction false} CxToRxStrictlyIncreasing(raw: string, i: nat, j: nat)
    requires i < j <= |raw|
    ensures CxToRx(raw, i) < CxToRx(raw, j)
    decreases j - i
  {
    if j > i + 1 {
      CxToRxStrictlyIncreasing(raw, i, j - 1);
    }
  }

  /** convertRowRxToCx as written: the loop notes a candidate column once
      the render column passes `rx` but never leaves early, and the
      statement after the loop overwrites the candidate with the loop
      counter, so the result is always the row length. */
  function RxToCxLoop(raw: string, rx: int, cx: nat, curRx: nat, candidate: int): (r: nat)
    requires cx <= |raw|
    ensures r == |raw|
    decreases |raw| - cx
  {
    if cx == |raw| then cx
    else
      var next := Advance(curRx, raw[cx]);
      RxToCxLoop(raw, rx, cx + 1, next, if next > rx then cx else candidate)
  }

  /** convertRowRxToCx(erow) with m_rx = rx and m_cx = cx0 on entry. */
  function RowRxToCx(raw: string, rx: int, cx0: int): (cx: nat)
    ensures cx == |raw|
  {
    RxToCxLoop(raw, rx, 0, 0, cx0)
  }

  /** The intended loop: stop at the first column whose render end passes
      `rx`; the row length when there is none. */
  function RxToCxFirst(raw: string, rx: int, cx: nat, curRx: nat): (r: nat)
    requires cx <= |raw| && curRx == CxToRx(raw, cx)
    ensures cx <= r <= |raw|
    ensures r < |raw| ==> CxToRx(raw, r + 1) > rx
    ensures forall j :: cx < j <= r ==> CxToRx(raw, j) <= rx
    decreases |raw| - cx
  {
    if cx == |raw| then cx
    else
      var next := Advance(curRx, raw[cx]);
      if next > rx then cx else RxToCxFirst(raw, rx, cx + 1, next)
  }

  /** convertRowRxToCx as evidently intended: the buffer column whose
      character covers render column `rx`, clamped to the row length. */
  function RowRxToCxIntended(raw: string, rx: int): (cx: nat)
    ensures cx <= |raw|
    ensures cx < |raw| ==> CxToRx(raw, cx + 1) > rx
    ensures forall j :: 0 < j <= cx ==> CxToRx(raw, j) <= rx
  {
    RxToCxFirst(raw, rx, 0, 0)
  }

  /** The intended conversion undoes convertRowCxToRx for every column. */
  lemma RxToCxIntendedRoundTrip(raw: string, cx: nat)
    requires cx <= |raw|
    ensures RowRxToCxIntended(raw, CxToRx(raw, cx)) == cx
  {
    var r := RowRxToCxIntended(raw, CxToRx(raw, cx));
    if r < cx {
      if r + 1 < cx {
        CxToRxStrictlyIncreasing(raw, r + 1, cx);
      }
    } else if r > cx {
      CxToRxStrictlyIncreasing(raw, cx, cx + 1);
    }
  }

  /** As written the conversion ignores `rx`: on "abc" render column 0 maps
      to buffer column 3 instead of 0. */
  lemma RxToCxAsWrittenMissesColumn()
    ensures RowRxToCx("abc", CxToRx("abc", 0), 0) == 3
    ensures RowRxToCxIntended("abc", CxToRx("abc", 0)) == 0
  {
    RxToCxIntendedRoundTrip("abc", 0);
  }

  /** A render column inside a tab's expansion maps to the tab: in "a\tb"
      the tab covers columns 1..7, and column 8 is the 'b'. */
  lemma RxToCxInsideTab()
    ensures RowRxToCxIntended("a\tb", 8) == 2
    ensures RowRxToCxIntended("a\tb", 5) == 1
  {
    assert CxToRx("a\tb", 1) == 1;
    assert CxToRx("a\tb", 2) == 8;
    assert CxToRx("a\tb", 3) == 9;
  }
}

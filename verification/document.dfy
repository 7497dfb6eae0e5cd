/** The document as newline-joined text: convertRowsToString (the text
    `save` writes) and the line splitting and end-of-line stripping that
    `open` applies to the text it reads (src/Editor.cpp:199-227). */
module Document {
  import opened TabRender

  /** convertRowsToString: each row's raw text followed by a newline. */
  function RowsToString(rows: seq<Row>): string {
    if |rows| == 0 then ""
    else RowsToString(rows[..|rows| - 1]) + rows[|rows| - 1].raw + "\n"
  }

  /** The size of the saved text, summed row by row from the first. */
  function TextSize(rows: seq<Row>): nat {
    if |rows| == 0 then 0 else |rows[0].raw| + 1 + TextSize(rows[1..])
  }

  /** The raw texts of the rows, in order. */
  function Raws(rows: seq<Row>): (r: seq<string>)
    ensures |r| == |rows|
    ensures forall i :: 0 <= i < |rows| ==> r[i] == rows[i].raw
  {
    seq(|rows|, i requires 0 <= i < |rows| => rows[i].raw)
  }

  /** Saving two runs of rows one after the other saves their texts one
      after the other. */
  lemma {:induction false} RowsToStringAppend(a: seq<Row>, b: seq<Row>)
    ensures RowsToString(a + b) == RowsToString(a) + RowsToString(b)
    decreases |b|
  {
    if |b| == 0 {
      assert a + b == a;
    } else {
      var n := |b| - 1;
      assert (a + b)[..|a + b| - 1] == a + b[..n];
      assert (a + b)[|a + b| - 1] == b[n];
      RowsToStringAppend(a, b[..n]);
    }
  }

  /** The saved text starts with the first row and its newline. */
  lemma {:induction false} RowsToStringCons(rows: seq<Row>)
    requires |rows| > 0
    ensures RowsToString(rows) == rows[0].raw + "\n" + RowsToString(rows[1..])
  {
    assert rows == [rows[0]] + rows[1..];
    RowsToStringAppend([rows[0]], rows[1..]);
    assert [rows[0]][..0] == [];
  }

  /** Row `y` sits in the saved text between the rows before it and the
      rows after it. */
  lemma {:induction false} RowsToStringSplit(rows: seq<Row>, y: nat)
    requires y < |rows|
    ensures RowsToString(rows) == RowsToString(rows[..y]) + rows[y].raw + "\n" + RowsToString(rows[y + 1..])
  {
    var pre, suf := rows[..y], rows[y..];
    assert pre + suf == rows;
    RowsToStringAppend(pre, suf);
    RowsToStringCons(suf);
    assert suf[1..] == rows[y + 1..];
    var a, r, b := RowsToString(pre), rows[y].raw, RowsToString(rows[y + 1..]);
    assert RowsToString(rows) == a + RowsToString(suf);
    assert RowsToString(suf) == r + "\n" + b;
    assert a + (r + "\n" + b) == a + r + "\n" + b;
  }

  /** The saved text holds |row| + 1 characters per row. */
  lemma {:induction false} RowsToStringSize(rows: seq<Row>)
    ensures |RowsToString(rows)| == TextSize(rows)
    decreases |rows|
  {
    if |rows| > 0 {
      RowsToStringCons(rows);
      RowsToStringSize(rows[1..]);
    }
  }

  /** Index of the first newline of `s`, or |s| when there is none. */
  function NewlineIndex(s: string): (i: nat)
    ensures i <= |s|
    ensures i < |s| ==> s[i] == '\n'
    ensures forall k :: 0 <= k < i ==> s[k] != '\n'
  {
    if |s| == 0 || s[0] == '\n' then 0
    else
      var i := 1 + NewlineIndex(s[1..]);
      assert forall k :: 1 <= k < i ==> s[k] == s[1..][k - 1];
      i
  }

  /** The lines std::getline yields from a text: the pieces between
      newlines, plus a final piece without newline when it is not empty. */
  function Lines(s: string): (ls: seq<string>)
    ensures forall k :: 0 <= k < |ls| ==> '\n' !in ls[k]
    decreases |s|
  {
    if |s| == 0 then []
    else
      var i := NewlineIndex(s);
      if i == |s| then [s] else [s[..i]] + Lines(s[i + 1..])
  }

  /** The loop in `open` that drops trailing '\n' and '\r' from a line. */
  function StripLineEnd(line: string): (r: string)
    ensures |r| <= |line| && r == line[..|r|]
    ensures |r| == 0 || (r[|r| - 1] != '\n' && r[|r| - 1] != '\r')
    ensures forall k :: |r| <= k < |line| ==> line[k] == '\n' || line[k] == '\r'
  {
    if |line| > 0 && (line[|line| - 1] == '\n' || line[|line| - 1] == '\r') then
      var r := StripLineEnd(line[..|line| - 1]);
      assert line[..|line| - 1][..|r|] == line[..|r|];
      r
    else line
  }

  /** The rows `open` appends for a text: one fresh row per line, with its
      line end stripped. */
  function LoadText(text: string): (rows: seq<Row>)
    ensures |rows| == |Lines(text)|
    ensures forall i :: 0 <= i < |rows| ==> Rendered(rows[i])
  {
    var ls := Lines(text);
    seq(|ls|, i requires 0 <= i < |ls| => NewRow(StripLineEnd(ls[i])))
  }

  /** A line without newline followed by a newline is split off whole. */
  lemma {:induction false} LinesCons(r: string, rest: string)
    requires '\n' !in r
    ensures Lines(r + "\n" + rest) == [r] + Lines(rest)
  {
    var s := r + "\n" + rest;
    assert s[|r|] == '\n';
    assert forall k :: 0 <= k < |r| ==> s[k] == r[k];
    var i := NewlineIndex(s);
    assert i == |r|;
    assert s[..i] == r;
    assert s[i + 1..] == rest;
  }

  /** Splitting the saved text into lines gives back the rows exactly when
      no row holds a newline. */
  lemma {:induction false} LinesOfRowsToString(rows: seq<Row>)
    ensures Lines(RowsToString(rows)) == Raws(rows) <==>
            forall i :: 0 <= i < |rows| ==> '\n' !in rows[i].raw
    decreases |rows|
  {
    if |rows| > 0 {
      var r := rows[0].raw;
      var rest := RowsToString(rows[1..]);
      RowsToStringCons(rows);
      var s := RowsToString(rows);
      if '\n' in r {
        assert Raws(rows)[0] == r;
      } else {
        LinesCons(r, rest);
        LinesOfRowsToString(rows[1..]);
        assert Raws(rows) == [r] + Raws(rows[1..]);
        forall k | 0 < k < |rows| ensures rows[k] == rows[1..][k - 1] { }
      }
    }
  }

  /** A line with no newline and no trailing carriage return survives the
      end-of-line stripping. */
  lemma StripLineEndKeeps(line: string)
    requires '\n' !in line
    requires |line| == 0 || line[|line| - 1] != '\r'
    ensures StripLineEnd(line) == line
  {
  }

  /** Saving and loading again reproduces the rows' texts when no row holds
      a newline or ends with a carriage return. */
  lemma SaveLoadRoundTrip(rows: seq<Row>)
    requires forall i :: 0 <= i < |rows| ==> '\n' !in rows[i].raw
    requires forall i :: 0 <= i < |rows| ==> |rows[i].raw| == 0 || rows[i].raw[|rows[i].raw| - 1] != '\r'
    ensures Raws(LoadText(RowsToString(rows))) == Raws(rows)
  {
    LinesOfRowsToString(rows);
    var loaded := LoadText(RowsToString(rows));
    forall i | 0 <= i < |rows| ensures loaded[i].raw == rows[i].raw {
      StripLineEndKeeps(rows[i].raw);
    }
  }
}

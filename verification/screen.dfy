/** Pieces of screen output shared by the editor's drawRows
    (src/Editor.cpp:350-391) and the prototype's editorDrawRows
    (src/main.cpp:244-282). */
module Screen {

  /** "ESC [ K": erase from the cursor to the end of the line
      (EL, section 8.3.41 of ECMA-48). */
  const CLEAR_LINE: string := [27 as char] + "[K"

  const CRLF: string := "\r\n"

  function Spaces(n: nat): (s: string)
    ensures |s| == n && forall i :: 0 <= i < n ==> s[i] == ' '
  {
    seq(n, _ => ' ')
  }

  /** The welcome message as shown in a line of `cols` cells: cut to the
      width, centred by a padding of half the free cells, and the first
      padding cell drawn as the '~' of an empty line. */
  function WelcomeLine(msg: string, cols: nat): (line: string)
    ensures var shown := if |msg| > cols then msg[..cols] else msg;
      && |shown| <= |line| <= cols
      && line[|line| - |shown|..] == shown
      && (var left := |line| - |shown|;
          && left <= cols - |line| <= left + 1
          && (left > 0 ==> line[0] == '~' && forall i :: 1 <= i < left ==> line[i] == ' '))
  {
    var shown := if |msg| > cols then msg[..cols] else msg;
    var padding := (cols - |shown|) / 2;
    if padding > 0 then "~" + Spaces(padding - 1) + shown else shown
  }
}

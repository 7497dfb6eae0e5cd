/** Key codes shared by the key decoder, the editor and the prototype.
    A key is an `int`: either a byte read from the terminal or one of the
    symbolic `EditorKey` codes (include/kilo++/EditorUtils.hpp). */
module Keys {

  /** One byte read from the terminal, taken as unsigned. */
  type Byte = x: int | 0 <= x < 256

  const ESC: int := 0x1b
  /** Enter arrives as carriage return in raw mode. */
  const ENTER: int := 0x0d

  const BACKSPACE: int := 127
  const ARROW_LEFT: int := 1000
  const ARROW_RIGHT: int := 1001
  const ARROW_UP: int := 1002
  const ARROW_DOWN: int := 1003
  const DEL_KEY: int := 1004
  const HOME_KEY: int := 1005
  const END_KEY: int := 1006
  const PAGE_UP: int := 1007
  const PAGE_DOWN: int := 1008

  /** The symbolic keys above 255 of the enumeration. */
  predicate IsEditorKey(k: int) {
    ARROW_LEFT <= k <= PAGE_DOWN
  }

  /** CTRL_KEY(k) is `k & 0x1f`: the low five bits of an ASCII letter. */
  function CtrlKey(k: char): int
    requires k as int < 128
  {
    k as int % 32
  }

  /** The control keys the editor reacts to, as the bytes they arrive as. */
  lemma CtrlKeyCodes()
    ensures CtrlKey('f') == 6 && CtrlKey('h') == 8 && CtrlKey('l') == 12
    ensures CtrlKey('q') == 17 && CtrlKey('s') == 19
  {
  }

  predicate IsArrow(k: int) {
    k == ARROW_LEFT || k == ARROW_RIGHT || k == ARROW_UP || k == ARROW_DOWN
  }

  /** The `char` that an `int` key becomes when stored into a string:
      the low eight bits (the narrowing `int` to `char` conversion). */
  function KeyChar(k: int): char {
    (k % 256) as char
  }
}

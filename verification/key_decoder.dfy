/** readKey's escape-sequence decoding (src/EditorUtils.cpp:98-181).
    The first read blocks until a byte arrives; each later read either
    returns the next byte that is already available or times out. The model
    takes the first byte and the bytes available after it, and returns the
    key and how many bytes were consumed. The blocking retry loop itself is
    not modelled. */
module KeyDecoder {
  import opened Keys

  datatype Decoded = Decoded(key: int, consumed: nat)

  /** The byte of an ASCII character. */
  function B(c: char): Byte
    requires c as int < 256
  {
    c as int
  }

  predicate IsDigit(b: Byte) {
    B('0') <= b <= B('9')
  }

  /** `ESC [ d ~`: the key for digit d, or ESC for 0, 2 and 9. */
  function TildeKey(d: Byte): int {
    if d == B('1') || d == B('7') then HOME_KEY
    else if d == B('3') then DEL_KEY
    else if d == B('4') || d == B('8') then END_KEY
    else if d == B('5') then PAGE_UP
    else if d == B('6') then PAGE_DOWN
    else ESC
  }

  /** `ESC [ x` for a non-digit x: arrows, Home and End, or ESC. */
  function CsiLetterKey(x: Byte): int {
    if x == B('A') then ARROW_UP
    else if x == B('B') then ARROW_DOWN
    else if x == B('C') then ARROW_RIGHT
    else if x == B('D') then ARROW_LEFT
    else if x == B('H') then HOME_KEY
    else if x == B('F') then END_KEY
    else ESC
  }

  /** `ESC O x`: Home and End, or ESC. */
  function Ss3Key(x: Byte): int {
    if x == B('H') then HOME_KEY
    else if x == B('F') then END_KEY
    else ESC
  }

  /** readKey: decode one key from the first byte and the bytes available
      after it. */
  function ReadKey(first: Byte, pending: seq<Byte>): (d: Decoded)
    ensures first != ESC ==> d == Decoded(first, 1)
    ensures d.key == first || d.key == ESC || IsEditorKey(d.key)
    ensures 1 <= d.consumed <= 4 && d.consumed <= |pending| + 1
  {
    if first != ESC then Decoded(first, 1)
    else if |pending| < 1 then Decoded(ESC, 1)
    else if |pending| < 2 then Decoded(ESC, 2)
    else if pending[0] == B('[') then
      if IsDigit(pending[1]) then
        if |pending| < 3 then Decoded(ESC, 3)
        else if pending[2] == B('~') then Decoded(TildeKey(pending[1]), 4)
        else Decoded(ESC, 4)
      else Decoded(CsiLetterKey(pending[1]), 3)
    else if pending[0] == B('O') then Decoded(Ss3Key(pending[1]), 3)
    else Decoded(ESC, 3)
  }

  /** The recognised sequences and their keys: CSI (`ESC [`, section 5.4
      of ECMA-48) with a final letter, the `ESC [ n ~` keypad convention,
      and SS3 (`ESC O`) with a final letter. */
  const KeySequences: seq<(seq<Byte>, int)> := [
    ([ESC, 91, 65], ARROW_UP),       // ESC [ A
    ([ESC, 91, 66], ARROW_DOWN),     // ESC [ B
    ([ESC, 91, 67], ARROW_RIGHT),    // ESC [ C
    ([ESC, 91, 68], ARROW_LEFT),     // ESC [ D
    ([ESC, 91, 72], HOME_KEY),       // ESC [ H
    ([ESC, 91, 70], END_KEY),        // ESC [ F
    ([ESC, 91, 49, 126], HOME_KEY),  // ESC [ 1 ~
    ([ESC, 91, 51, 126], DEL_KEY),   // ESC [ 3 ~
    ([ESC, 91, 52, 126], END_KEY),   // ESC [ 4 ~
    ([ESC, 91, 53, 126], PAGE_UP),   // ESC [ 5 ~
    ([ESC, 91, 54, 126], PAGE_DOWN), // ESC [ 6 ~
    ([ESC, 91, 55, 126], HOME_KEY),  // ESC [ 7 ~
    ([ESC, 91, 56, 126], END_KEY),   // ESC [ 8 ~
    ([ESC, 79, 72], HOME_KEY),       // ESC O H
    ([ESC, 79, 70], END_KEY)         // ESC O F
  ]

  /** `s` is a recognised sequence standing for `key`. */
  predicate Recognises(s: seq<Byte>, key: int) {
    exists i :: 0 <= i < |KeySequences| && KeySequences[i] == (s, key)
  }

  /** Some recognised sequence starts the input. */
  predicate StartsWithSequence(input: seq<Byte>) {
    exists i :: 0 <= i < |KeySequences| && KeySequences[i].0 <= input
  }

  /** Every recognised sequence decodes to its key and is consumed whole,
      whatever follows it. */
  lemma ReadKeyComplete(i: nat, rest: seq<Byte>)
    requires i < |KeySequences|
    ensures var (s, key) := KeySequences[i];
      ReadKey(s[0], s[1..] + rest) == Decoded(key, |s|)
  {
    var (s, key) := KeySequences[i];
    assert s[0] == ESC;
    var p := s[1..] + rest;
    assert p[0] == s[1] && p[1] == s[2];
    if |s| == 4 {
      assert p[2] == s[3];
    }
  }

  /** A decoded escape sequence other than a bare ESC is a recognised
      sequence, and exactly its bytes are consumed. */
  lemma ReadKeySound(pending: seq<Byte>)
    ensures var d := ReadKey(ESC, pending);
      d.key != ESC ==> Recognises([ESC] + pending[..d.consumed - 1], d.key)
  {
    var d := ReadKey(ESC, pending);
    if d.key != ESC {
      var s := [ESC] + pending[..d.consumed - 1];
      var i: nat :| i < |KeySequences| && KeySequences[i].1 == d.key && KeySequences[i].0 == s by {
        if d.consumed == 4 {
          assert s == [ESC, 91, pending[1], 126];
          var k := pending[1] - 49;
          assert 0 <= k <= 7;
          var table := [6, 6, 7, 8, 9, 10, 11, 12];
          assert KeySequences[table[k]].0 == s;
        } else if pending[0] == 91 {
          assert s == [ESC, 91, pending[1]];
          var table := [0, 1, 2, 3, 0, 5, 0, 4];
          var k := pending[1] - 65;
          assert KeySequences[table[k]].0 == s;
        } else {
          assert s == [ESC, 79, pending[1]];
          if pending[1] == 72 {
            assert KeySequences[13].0 == s;
          } else {
            assert KeySequences[14].0 == s;
          }
        }
      }
    }
  }

  /** How many bytes readKey reads after an ESC before it gives up on an
      unrecognised sequence: two, or three after `ESC [ digit`. */
  function EscapeReadLength(pending: seq<Byte>): nat {
    if 2 <= |pending| && pending[0] == B('[') && IsDigit(pending[1]) then 3 else 2
  }

  /** When no recognised sequence starts the input, readKey returns ESC
      and consumes the ESC plus the bytes it managed to read. */
  lemma ReadKeyUnrecognised(pending: seq<Byte>)
    requires !StartsWithSequence([ESC] + pending)
    ensures ReadKey(ESC, pending).key == ESC
    ensures ReadKey(ESC, pending).consumed == 1 + Min(|pending|, EscapeReadLength(pending))
  {
    DecodedKeyStartsSequence(pending);
  }

  /** A decoded key other than ESC means a recognised sequence starts the
      input. */
  lemma DecodedKeyStartsSequence(pending: seq<Byte>)
    ensures ReadKey(ESC, pending).key != ESC ==> StartsWithSequence([ESC] + pending)
  {
    var d := ReadKey(ESC, pending);
    if d.key != ESC {
      ReadKeySound(pending);
      var s := [ESC] + pending[..d.consumed - 1];
      var i :| 0 <= i < |KeySequences| && KeySequences[i] == (s, d.key);
      assert s <= [ESC] + pending;
    }
  }

  function Min(a: nat, b: nat): nat {
    if a < b then a else b
  }

  /** Byte 127 (what the Backspace key sends) decodes to BACKSPACE. */
  lemma BackspaceByte(pending: seq<Byte>)
    ensures ReadKey(127, pending) == Decoded(BACKSPACE, 1)
  {
  }
}

/** One key of fromPrompt (src/Editor.cpp:486-527): the line being typed
    at the status bar, edited until Enter or ESC. */
module Prompt {
  import opened Keys

  /** A key read by the prompt leaves it open with the current text, or
      closes it with the text it returns. */
  datatype PromptStep = Typing(buffer: string) | Done(answer: string)

  /** `!iscntrl(c) && c < 128` for a key code: printable ASCII. */
  predicate IsPrintableKey(c: int) {
    32 <= c < 127
  }

  predicate PrintableText(s: string) {
    forall i :: 0 <= i < |s| ==> IsPrintableKey(s[i] as int)
  }

  predicate IsBackspaceKey(c: int) {
    c == DEL_KEY || c == CtrlKey('h') || c == BACKSPACE
  }

  /** The prompt's reaction to key `c` with `buf` typed so far. */
  function PromptKey(buf: string, c: int): (r: PromptStep)
    ensures r.Done? <==> c == ESC || (c == ENTER && |buf| > 0)
    ensures r.Done? ==> (r.answer == "" <==> c == ESC) && (c == ENTER ==> r.answer == buf)
    ensures r.Typing? && IsBackspaceKey(c) ==> |buf| > 0 ==> buf == r.buffer + [buf[|buf| - 1]]
    ensures r.Typing? && IsBackspaceKey(c) && |buf| == 0 ==> r.buffer == ""
    ensures r.Typing? && IsPrintableKey(c) ==> r.buffer == buf + [c as char]
    ensures r.Typing? && !IsBackspaceKey(c) && !IsPrintableKey(c) ==> r.buffer == buf
    ensures PrintableText(buf) && r.Typing? ==> PrintableText(r.buffer)
  {
    if IsBackspaceKey(c) then Typing(if |buf| > 0 then buf[..|buf| - 1] else buf)
    else if c == ESC then Done("")
    else if c == ENTER then (if |buf| > 0 then Done(buf) else Typing(buf))
    else if IsPrintableKey(c) then Typing(buf + [c as char])
    else Typing(buf)
  }

  /** The text the callback sees with key `c`: the buffer after the key, or
      on Enter and ESC the buffer as it was (ESC returns "" only to the
      caller). */
  function CallbackText(buf: string, c: int): (t: string)
    ensures PromptKey(buf, c).Typing? ==> t == PromptKey(buf, c).buffer
    ensures PromptKey(buf, c).Done? ==> t == buf
    ensures PrintableText(buf) ==> PrintableText(t)
  {
    match PromptKey(buf, c)
    case Typing(b) => b
    case Done(_) => buf
  }

  /** The prompt run over a sequence of keys, from an empty buffer;
      keys after the one that closes it are not read. */
  function RunPrompt(buf: string, keys: seq<int>): (r: PromptStep)
    decreases |keys|
  {
    if |keys| == 0 then Typing(buf)
    else
      match PromptKey(buf, keys[0])
      case Typing(b) => RunPrompt(b, keys[1..])
      case Done(a) => Done(a)
  }

  /** Whatever keys arrive, the text typed is printable ASCII, and the
      prompt returns a non-empty printable line, or "" only when ESC was
      pressed. */
  lemma {:induction false} RunPromptPrintable(buf: string, keys: seq<int>)
    requires PrintableText(buf)
    ensures match RunPrompt(buf, keys)
      case Typing(b) => PrintableText(b)
      case Done(a) => PrintableText(a) && (a == "" ==> ESC in keys)
    decreases |keys|
  {
    if |keys| > 0 {
      match PromptKey(buf, keys[0])
      case Typing(b) =>
        RunPromptPrintable(b, keys[1..]);
        assert ESC !in keys[..1];
        assert keys == keys[..1] + keys[1..];
      case Done(a) =>
    }
  }
}

/**
 Rebuilding the unsubmitted draft from the raw keystrokes sent to a terminal.
 */
module DraftTracker {
  const DRAFT_MAX_CHARS: nat := 20000
  const ESC: char := '\U{1B}'
  const BEL: char := '\U{07}'
  const BACKSPACE: char := '\U{7F}'
  const CTRL_C: char := '\U{03}'
  const CTRL_KILL_LINE: char := '\U{15}'
  const CTRL_KILL_WORD: char := '\U{17}'
  const PASTE_START: string := [ESC] + "[200~"
  const PASTE_END: string := [ESC] + "[201~"

  /** How much of a text given as a draft or a prompt is taken. */
  function Normalized(text: string): string {
    if |text| <= DRAFT_MAX_CHARS then text else text[..DRAFT_MAX_CHARS]
  }

  predicate IsOpener(c: char) {
    c == '[' || c == 'O' || c == ']' || c == 'P'
  }

  predicate IsFinal(c: char) {
    0x40 <= c as int <= 0x7E
  }

  /** What the tracker remembers between feeds. */
  datatype Tracker = Tracker(chars: string, pending: string, inPaste: bool)

  const EMPTY := Tracker("", "", false)

  function PopWhile(chars: string, pops: char -> bool): string {
    if chars != "" && pops(chars[|chars| - 1]) then PopWhile(chars[..|chars| - 1], pops) else chars
  }

  function PopWord(chars: string): string {
    PopWhile(PopWhile(chars, c => c == ' '), c => c != ' ' && c != '\n')
  }

  function PopCurrentLine(chars: string): string {
    PopWhile(chars, c => c != '\n')
  }

  function FindFinal(s: string, position: nat): (end: nat)
    requires position <= |s|
    ensures position <= end <= |s|
    ensures end < |s| ==> IsFinal(s[end])
    ensures forall k :: position <= k < end ==> !IsFinal(s[k])
    decreases |s| - position
  {
    if position == |s| || IsFinal(s[position]) then position else FindFinal(s, position + 1)
  }

  /** The length of the control string at the start, up to BEL or ESC \; 0 while it is unfinished. */
  function ControlStringLength(s: string, position: nat): (length: nat)
    ensures length == 0 || position < length <= |s|
    decreases |s| - position
  {
    if position >= |s| then 0
    else if s[position] == BEL then position + 1
    else if position + 1 < |s| && s[position] == ESC && s[position + 1] == '\\' then position + 2
    else ControlStringLength(s, position + 1)
  }

  /** The length of the escape sequence the text starts with; 0 while it is unfinished. */
  function EscapeLength(s: string): (length: nat)
    requires s != "" && s[0] == ESC
    ensures length == 0 || 2 <= length <= |s|
  {
    if |s| == 1 then 0
    else if s[1] == ']' || s[1] == 'P' then ControlStringLength(s, 2)
    else if s[1] == 'O' then if |s| < 3 then 0 else 3
    else if s[1] != '[' then 2
    else
      var j := FindFinal(s, 2);
      if j == |s| then 0
      else if s[j] == 'M' && j == 2 then if |s| < 6 then 0 else 6
      else j + 1
  }

  /** What a complete escape sequence does to the draft and the paste flag. */
  function ApplyEscape(sequence: string, chars: string, inPaste: bool): (string, bool)
    requires |sequence| >= 2
  {
    if sequence[1] == '\r' then (chars + "\n", inPaste)
    else if sequence[1] == BACKSPACE then (PopWord(chars), inPaste)
    else if sequence == PASTE_START then (chars, true)
    else if sequence == PASTE_END then (chars, false)
    else (chars, inPaste)
  }

  function ApplyKey(c: char, chars: string, inPaste: bool): string {
    if c == '\r' || c == '\n' then (if inPaste then chars + "\n" else "")
    else if c == CTRL_C then ""
    else if c == BACKSPACE then (if chars == "" then "" else chars[..|chars| - 1])
    else if c == CTRL_KILL_LINE then PopCurrentLine(chars)
    else if c == CTRL_KILL_WORD then PopWord(chars)
    else if c >= ' ' && |chars| < DRAFT_MAX_CHARS then chars + [c]
    else chars
  }

  function Scan(s: string, chars: string, inPaste: bool): Tracker
    decreases |s|
  {
    if s == "" then Tracker(chars, "", inPaste)
    else if s[0] == ESC then
      var length := EscapeLength(s);
      if length == 0 then Tracker(chars, s, inPaste)
      else
        var (edited, pasting) := ApplyEscape(s[..length], chars, inPaste);
        Scan(s[length..], edited, pasting)
    else Scan(s[1..], ApplyKey(s[0], chars, inPaste), inPaste)
  }

  /** A lone ESC waiting is the Escape key unless the next chunk continues a sequence. */
  predicate DropsPending(t: Tracker, text: string) {
    t.pending == [ESC] && text != "" && !IsOpener(text[0])
  }

  function Feed(t: Tracker, text: string): Tracker {
    Scan((if DropsPending(t, text) then "" else t.pending) + text, t.chars, t.inPaste)
  }

  // ---- the class ----

  class DraftInputTracker {
    var chars: string
    var escapePending: string
    var inPaste: bool

    constructor (initialDraft: string)
      ensures State() == Tracker(initialDraft, "", false)
    {
      chars, escapePending, inPaste := initialDraft, "", false;
    }

    function State(): Tracker
      reads this
    {
      Tracker(chars, escapePending, inPaste)
    }

    method FeedText(text: string)
      modifies this
      ensures State() == Feed(old(State()), text)
    {
      var pending := escapePending;
      escapePending := "";
      if pending == [ESC] && text != "" && !IsOpener(text[0]) {
        pending := "";
      }
      var rest := pending + text;
      ghost var stream := rest;
      while rest != ""
        invariant escapePending == ""
        invariant Scan(rest, chars, inPaste) == Scan(stream, old(chars), old(inPaste))
        decreases |rest|
      {
        if rest[0] == ESC {
          var consumed := ConsumeEscape(rest);
          if consumed == 0 {
            escapePending := rest;
            return;
          }
          rest := rest[consumed..];
        } else {
          PressKey(rest[0]);
          rest := rest[1..];
        }
      }
    }

    method PressKey(key: char)
      requires key != ESC
      modifies this`chars
      ensures chars == ApplyKey(key, old(chars), inPaste)
    {
      if key == '\r' || key == '\n' {
        chars := if inPaste then chars + "\n" else "";
      } else if key == CTRL_C {
        chars := "";
      } else if key == BACKSPACE {
        if chars != "" {
          chars := chars[..|chars| - 1];
        }
      } else if key == CTRL_KILL_LINE {
        PopLine();
      } else if key == CTRL_KILL_WORD {
        PopLastWord();
      } else if key >= ' ' && |chars| < DRAFT_MAX_CHARS {
        chars := chars + [key];
      }
    }

    method PopLastWord()
      modifies this`chars
      ensures chars == PopWord(old(chars))
    {
      ghost var isSpace := c => c == ' ';
      ghost var inWord := c => c != ' ' && c != '\n';
      while chars != "" && chars[|chars| - 1] == ' '
        invariant PopWhile(chars, isSpace) == PopWhile(old(chars), isSpace)
        decreases |chars|
      {
        chars := chars[..|chars| - 1];
      }
      ghost var words := chars;
      assert words == PopWhile(old(chars), isSpace);
      while chars != "" && chars[|chars| - 1] != ' ' && chars[|chars| - 1] != '\n'
        invariant PopWhile(chars, inWord) == PopWhile(words, inWord)
        decreases |chars|
      {
        chars := chars[..|chars| - 1];
      }
      PopWordInSteps(old(chars), isSpace, inWord);
    }

    method PopLine()
      modifies this`chars
      ensures chars == PopCurrentLine(old(chars))
    {
      ghost var inLine := c => c != '\n';
      while chars != "" && chars[|chars| - 1] != '\n'
        invariant PopWhile(chars, inLine) == PopWhile(old(chars), inLine)
        decreases |chars|
      {
        chars := chars[..|chars| - 1];
      }
      PopWhileSame(old(chars), inLine, c => c != '\n');
    }

    method ConsumeEscape(stream: string) returns (consumed: nat)
      requires stream != "" && stream[0] == ESC
      modifies this`chars, this`inPaste
      ensures consumed == EscapeLength(stream)
      ensures consumed == 0 ==> chars == old(chars) && inPaste == old(inPaste)
      ensures consumed > 0 ==> (chars, inPaste) == ApplyEscape(stream[..consumed], old(chars), old(inPaste))
    {
      if |stream| < 2 {
        return 0;
      }
      var following := stream[1];
      if following == '\r' {
        chars := chars + "\n";
        return 2;
      }
      if following == BACKSPACE {
        PopLastWord();
        return 2;
      }
      if following == ']' || following == 'P' {
        consumed := ControlStringLength(stream, 2);
        return;
      }
      if following == 'O' {
        return if |stream| < 3 then 0 else 3;
      }
      if following != '[' {
        return 2;
      }
      var j := 2;
      while j < |stream| && !IsFinal(stream[j])
        invariant 2 <= j <= |stream|
        invariant FindFinal(stream, j) == FindFinal(stream, 2)
      {
        j := j + 1;
      }
      if j == |stream| {
        return 0;
      }
      if stream[j] == 'M' && j == 2 {
        return if j + 4 > |stream| then 0 else 6;
      }
      var sequence := stream[..j + 1];
      if sequence == PASTE_START {
        inPaste := true;
      } else if sequence == PASTE_END {
        inPaste := false;
      }
      return j + 1;
    }
  }

  lemma {:induction false} PopWhileSame(chars: string, a: char -> bool, b: char -> bool)
    requires forall c :: a(c) == b(c)
    ensures PopWhile(chars, a) == PopWhile(chars, b)
  {
    if chars != "" && a(chars[|chars| - 1]) {
      PopWhileSame(chars[..|chars| - 1], a, b);
    }
  }

  lemma {:induction false} PopWordInSteps(chars: string, isSpace: char -> bool, inWord: char -> bool)
    requires forall c :: isSpace(c) == (c == ' ')
    requires forall c :: inWord(c) == (c != ' ' && c != '\n')
    ensures PopWord(chars) == PopWhile(PopWhile(chars, isSpace), inWord)
  {
    PopWhileSame(chars, isSpace, c => c == ' ');
    PopWhileSame(PopWhile(chars, isSpace), inWord, c => c != ' ' && c != '\n');
  }
}

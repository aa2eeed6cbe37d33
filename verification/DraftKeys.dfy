/**
 What each key does to the draft, said about the drafts before and after and not about the scanning; and
 that any keys, fed at once, are read as just these keys in turn.
 */
module DraftKeys {
  import opened DraftTracker
  import DraftStreams

  /** A key as a terminal sends it; `Sequence` is any other escape sequence, `Control` any other control. */
  datatype Key =
    | Printable(c: char)
    | Backspace
    | KillLine
    | KillWord
    | AltBackspace
    | Cancel
    | Enter(c: char)
    | AltEnter
    | PasteStarts
    | PasteEnds
    | Control(c: char)
    | Sequence(text: string)

  function Keystrokes(key: Key): string {
    match key
    case Printable(c) => [c]
    case Backspace => [BACKSPACE]
    case KillLine => [CTRL_KILL_LINE]
    case KillWord => [CTRL_KILL_WORD]
    case AltBackspace => [ESC, BACKSPACE]
    case Cancel => [CTRL_C]
    case Enter(c) => [c]
    case AltEnter => [ESC, '\r']
    case PasteStarts => PASTE_START
    case PasteEnds => PASTE_END
    case Control(c) => [c]
    case Sequence(text) => text
  }

  predicate IsKey(key: Key) {
    match key
    case Printable(c) => c >= ' ' && c != '\U{7F}'
    case Enter(c) => c == '\r' || c == '\n'
    case Control(c) =>
      c < ' ' && c != '\U{1B}' && c != '\r' && c != '\n' && c != '\U{03}' && c != '\U{15}' && c != '\U{17}'
    case Sequence(text) => IsSequence(text)
    case _ => true
  }

  predicate IsSequence(text: string) {
    && |text| >= 2 && text[0] == '\U{1B}'
    && match text[1]
       case 'O' => |text| == 3
       case '[' => IsMouseReport(text) || IsControlSequence(text)
       case _ =>
         if text[1] == ']' || text[1] == 'P' then IsControlString(text)
         else |text| == 2 && text[1] != '\r' && text[1] != '\U{7F}'
  }

  /** Three bytes follow the introducer of the oldest kind of mouse report, whatever they are. */
  predicate IsMouseReport(text: string)
    requires |text| >= 2
  {
    |text| == 6 && text[2] == 'M'
  }

  /** Parameters and a final byte. */
  predicate IsControlSequence(text: string)
    requires |text| >= 2
  {
    && |text| > 2 && '@' <= text[|text| - 1] <= '~'
    && (forall i :: 2 <= i < |text| - 1 ==> !('@' <= text[i] <= '~'))
    && text[2] != 'M' && text[2..] != "200~" && text[2..] != "201~"
  }

  /** Anything up to BEL or ESC backslash. */
  predicate IsControlString(text: string)
    requires |text| >= 2
  {
    || (|text| > 2 && text[|text| - 1] == '\U{07}' && NothingEnds(text, |text| - 1))
    || (|text| > 3 && text[|text| - 2] == '\U{1B}' && text[|text| - 1] == '\\' && NothingEnds(text, |text| - 2))
  }

  predicate NothingEnds(text: string, before: nat)
    requires before < |text|
  {
    forall i :: 2 <= i < before ==> text[i] != '\U{07}' && !(text[i] == '\U{1B}' && text[i + 1] == '\\')
  }

  // ---- what a key does ----

  /** Back to the last new line, which stays. */
  predicate CutsLine(before: string, after: string) {
    && after <= before
    && (forall i :: |after| <= i < |before| ==> before[i] != '\n')
    && (after == "" || after[|after| - 1] == '\n')
  }

  /** The spaces at the end are cut, and then the word before them. */
  ghost predicate CutsWord(before: string, after: string) {
    after <= before && exists word :: CutsWordAt(before, after, word)
  }

  /** The spaces start at `word`, where the word that is cut ends. */
  predicate CutsWordAt(before: string, after: string, word: nat)
    requires after <= before
  {
    && |after| <= word <= |before|
    && (forall i :: word <= i < |before| ==> before[i] == ' ')
    && (word == 0 || before[word - 1] != ' ')
    && (forall i :: |after| <= i < word ==> before[i] != ' ' && before[i] != '\n')
    && (after == "" || after[|after| - 1] == ' ' || after[|after| - 1] == '\n')
  }

  ghost predicate Edits(key: Key, before: Tracker, after: string) {
    match key
    case Printable(c) => after == if |before.chars| < DRAFT_MAX_CHARS then before.chars + [c] else before.chars
    case Backspace => after == if before.chars == "" then "" else before.chars[..|before.chars| - 1]
    case KillLine => CutsLine(before.chars, after)
    case KillWord => CutsWord(before.chars, after)
    case AltBackspace => CutsWord(before.chars, after)
    case Cancel => after == ""
    case Enter(_) => after == if before.inPaste then before.chars + "\n" else ""
    case AltEnter => after == before.chars + "\n"
    case _ => after == before.chars
  }

  /** The key pressed with nothing pending leaves this, and nothing pending. */
  ghost predicate Does(key: Key, before: Tracker, after: Tracker) {
    && Edits(key, before, after.chars)
    && after.inPaste == (if key.PasteStarts? then true else if key.PasteEnds? then false else before.inPaste)
    && after.pending == ""
  }

  // ---- popping ----

  lemma {:induction false} PopWhileCuts(chars: string, pops: char -> bool)
    ensures var left := PopWhile(chars, pops);
            && left <= chars
            && (forall i :: |left| <= i < |chars| ==> pops(chars[i]))
            && (left == "" || !pops(left[|left| - 1]))
  {
    if chars != "" && pops(chars[|chars| - 1]) {
      PopWhileCuts(chars[..|chars| - 1], pops);
    }
  }

  lemma {:induction false} PopWordCuts(chars: string)
    ensures CutsWord(chars, PopWord(chars))
  {
    var isSpace, inWord := (c: char) => c == ' ', (c: char) => c != ' ' && c != '\n';
    PopWordInSteps(chars, isSpace, inWord);
    var spaced := PopWhile(chars, isSpace);
    PopWhileCuts(chars, isSpace);
    PopWhileCuts(spaced, inWord);
    assert CutsWordAt(chars, PopWord(chars), |spaced|);
  }

  lemma {:induction false} PopLineCuts(chars: string)
    ensures CutsLine(chars, PopCurrentLine(chars))
  {
    PopWhileCuts(chars, c => c != '\n');
  }

  // ---- reading one key ----

  lemma {:induction false} FinalIsFound(text: string, position: nat)
    requires 2 <= position < |text| && IsFinal(text[|text| - 1])
    requires forall i :: position <= i < |text| - 1 ==> !IsFinal(text[i])
    ensures FindFinal(text, position) == |text| - 1
    decreases |text| - position
  {
    if position < |text| - 1 {
      FinalIsFound(text, position + 1);
    }
  }

  lemma {:induction false} TerminatorIsFound(text: string, position: nat)
    requires |text| >= 2 && IsControlString(text)
    requires 2 <= position <= (if text[|text| - 1] == BEL then |text| - 1 else |text| - 2)
    ensures ControlStringLength(text, position) == |text|
    decreases |text| - position
  {
    var end := if text[|text| - 1] == BEL then |text| - 1 else |text| - 2;
    if position < end {
      TerminatorIsFound(text, position + 1);
    }
  }

  lemma {:induction false} SequenceIsWhole(text: string)
    requires IsSequence(text)
    ensures EscapeLength(text) == |text|
  {
    if text[1] == '[' {
      if IsControlSequence(text) {
        FinalIsFound(text, 2);
      }
    } else if text[1] == ']' || text[1] == 'P' {
      TerminatorIsFound(text, 2);
    }
  }

  lemma {:induction false} SequenceIsSkipped(text: string, chars: string, inPaste: bool)
    requires IsSequence(text)
    ensures Scan(text, chars, inPaste) == Tracker(chars, "", inPaste)
  {
    SequenceIsWhole(text);
    NoPasteMarker(text);
    assert text[..|text|] == text && text[|text|..] == "";
  }

  lemma {:induction false} NoPasteMarker(text: string)
    requires IsSequence(text)
    ensures text != PASTE_START && text != PASTE_END
  {
    assert PASTE_START[2..] == "200~" && PASTE_END[2..] == "201~";
  }

  lemma {:induction false} EscapedKey(c: char, chars: string, inPaste: bool)
    requires c == '\r' || c == BACKSPACE
    ensures Scan([ESC, c], chars, inPaste)
         == Tracker(if c == '\r' then chars + "\n" else PopWord(chars), "", inPaste)
  {
    assert [ESC, c] == [ESC] + [c] && [c][1..] == "";
    DraftStreams.EscapeThenKey([c], chars, inPaste);
  }

  lemma {:induction false} MarkerAlone(marker: string, chars: string, inPaste: bool)
    requires marker == PASTE_START || marker == PASTE_END
    ensures Scan(marker, chars, inPaste) == Tracker(chars, "", marker == PASTE_START)
  {
    assert marker + "" == marker;
    DraftStreams.PasteMarkerIsRead(marker, "", chars, inPaste);
  }

  /** A key that is sent as one character. */
  predicate IsSingle(key: Key) {
    !key.AltBackspace? && !key.AltEnter? && !key.PasteStarts? && !key.PasteEnds? && !key.Sequence?
  }

  lemma {:induction false} SingleKeyEdits(key: Key, t: Tracker)
    requires IsKey(key) && IsSingle(key)
    ensures Keystrokes(key)[0] != ESC && Edits(key, t, ApplyKey(Keystrokes(key)[0], t.chars, t.inPaste))
  {
    PopWordCuts(t.chars);
    PopLineCuts(t.chars);
  }

  /** With nothing pending, every key does to the draft what it is for, and leaves nothing pending. */
  lemma {:induction false} KeyIsRead(key: Key, t: Tracker)
    requires IsKey(key) && t.pending == ""
    ensures Does(key, t, Feed(t, Keystrokes(key)))
  {
    var text := Keystrokes(key);
    assert "" + text == text;
    assert Feed(t, text) == Scan(text, t.chars, t.inPaste);
    match key
    case AltBackspace => EscapedKey(BACKSPACE, t.chars, t.inPaste); PopWordCuts(t.chars);
    case AltEnter => EscapedKey('\r', t.chars, t.inPaste);
    case PasteStarts => MarkerAlone(PASTE_START, t.chars, t.inPaste); assert PASTE_START[4] != PASTE_END[4];
    case PasteEnds => MarkerAlone(PASTE_END, t.chars, t.inPaste); assert PASTE_START[4] != PASTE_END[4];
    case Sequence(_) => SequenceIsSkipped(text, t.chars, t.inPaste);
    case _ =>
      DraftStreams.KeyAlone(text[0], t.chars, t.inPaste);
      SingleKeyEdits(key, t);
  }

  // ---- a key does one thing ----

  lemma {:induction false} NoLongerLine(before: string, a: string, b: string)
    requires CutsLine(before, a) && CutsLine(before, b)
    ensures |a| <= |b|
  {
    assert a != "" ==> before[|a| - 1] == a[|a| - 1];
  }

  lemma {:induction false} NoLongerWord(before: string, a: string, b: string, word: nat, other: nat)
    requires a <= before && b <= before && CutsWordAt(before, a, word) && CutsWordAt(before, b, other)
    ensures word <= other && |a| <= |b|
  {
    SameSpaces(before, a, b, word, other);
    SameSpaces(before, b, a, other, word);
    assert a != "" ==> before[|a| - 1] == a[|a| - 1];
  }

  lemma {:induction false} SameSpaces(before: string, a: string, b: string, word: nat, other: nat)
    requires a <= before && b <= before && CutsWordAt(before, a, word) && CutsWordAt(before, b, other)
    ensures word <= other
  {
    assert word > 0 ==> before[word - 1] != ' ';
  }

  lemma {:induction false} SamePrefix(before: string, a: string, b: string)
    requires a <= before && b <= before && |a| == |b|
    ensures a == b
  {
    assert a == before[..|a|] && b == before[..|b|];
  }

  /** What a key does is determined. */
  lemma {:induction false} KeyDoesOneThing(key: Key, before: Tracker, a: Tracker, b: Tracker)
    requires Does(key, before, a) && Does(key, before, b)
    ensures a == b
  {
    if key.KillLine? {
      NoLongerLine(before.chars, a.chars, b.chars);
      NoLongerLine(before.chars, b.chars, a.chars);
      SamePrefix(before.chars, a.chars, b.chars);
    } else if key.KillWord? || key.AltBackspace? {
      var word :| CutsWordAt(before.chars, a.chars, word);
      var other :| CutsWordAt(before.chars, b.chars, other);
      NoLongerWord(before.chars, a.chars, b.chars, word, other);
      NoLongerWord(before.chars, b.chars, a.chars, other, word);
      SamePrefix(before.chars, a.chars, b.chars);
    }
  }

  // ---- many keys ----

  function AllKeystrokes(keys: seq<Key>): string {
    if keys == [] then "" else Keystrokes(keys[0]) + AllKeystrokes(keys[1..])
  }

  /** The keys pressed in turn, with nothing pending, lead from one tracker to the other. */
  ghost predicate DoInTurn(keys: seq<Key>, before: Tracker, after: Tracker)
    decreases |keys|
  {
    if keys == [] then after == before
    else exists next :: Does(keys[0], before, next) && DoInTurn(keys[1..], next, after)
  }

  /** Any keys, however many of them come in one read, are read as these keys pressed in turn. */
  lemma {:induction false} KeysAreRead(keys: seq<Key>, t: Tracker)
    requires (forall key | key in keys :: IsKey(key)) && t.pending == ""
    ensures DoInTurn(keys, t, Feed(t, AllKeystrokes(keys)))
    decreases |keys|
  {
    if keys == [] {
      DraftStreams.FeedNothing(t);
    } else {
      var next := Feed(t, Keystrokes(keys[0]));
      assert keys[0] in keys;
      KeyIsRead(keys[0], t);
      KeysAreRead(keys[1..], next);
      DraftStreams.CutIsHarmless(t, Keystrokes(keys[0]), AllKeystrokes(keys[1..]));
    }
  }

  lemma {:induction false} KeysDoOneThing(keys: seq<Key>, before: Tracker, a: Tracker, b: Tracker)
    requires DoInTurn(keys, before, a) && DoInTurn(keys, before, b)
    ensures a == b
    decreases |keys|
  {
    if keys != [] {
      var first :| Does(keys[0], before, first) && DoInTurn(keys[1..], first, a);
      var other :| Does(keys[0], before, other) && DoInTurn(keys[1..], other, b);
      KeyDoesOneThing(keys[0], before, first, other);
      KeysDoOneThing(keys[1..], first, a, b);
    }
  }

  /** Backspace takes back what was typed, below the cap. */
  lemma {:induction false} TypedThenErased(c: char, t: Tracker)
    requires IsKey(Printable(c)) && t.pending == "" && |t.chars| < DRAFT_MAX_CHARS
    ensures Feed(t, [c]).chars == t.chars + [c]
    ensures Feed(t, [c] + [BACKSPACE]) == t
  {
    var typed := Feed(t, [c]);
    KeyIsRead(Printable(c), t);
    KeyIsRead(Backspace, typed);
    assert typed.chars[..|typed.chars| - 1] == t.chars;
    DraftStreams.CutIsHarmless(t, [c], [BACKSPACE]);
  }

  // ---- a lone ESC ----

  /**
   A read that ends in a lone ESC: the next one continues the sequence if it starts with one of the four
   openers, and is otherwise read as if the Escape key had not been pressed.
   */
  lemma {:induction false} LoneEscapeAwaitsOpener(t: Tracker, text: string)
    requires t.pending == "" && text != ""
    ensures Feed(Feed(t, [ESC]), text)
         == if text[0] == '[' || text[0] == 'O' || text[0] == ']' || text[0] == 'P' then Feed(t, [ESC] + text)
            else Feed(t, text)
  {
    assert "" + [ESC] == [ESC] && "" + text == text && "" + ([ESC] + text) == [ESC] + text;
    DraftStreams.KeyAlone(ESC, t.chars, t.inPaste);
  }
}

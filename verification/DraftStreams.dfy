/**
 What the draft tracker promises about streams of keystrokes: that cutting them is harmless but for the
 Escape key, and that a draft it held can be typed back.
 */
module DraftStreams {
  import opened DraftTracker

  // ---- a complete sequence is complete whatever follows ----

  lemma {:induction false} FindFinalInPrefix(s: string, more: string, position: nat)
    requires position <= |s|
    ensures FindFinal(s, position) < |s| ==> FindFinal(s + more, position) == FindFinal(s, position)
    decreases |s| - position
  {
    if position < |s| {
      assert (s + more)[position] == s[position];
      if !IsFinal(s[position]) {
        FindFinalInPrefix(s, more, position + 1);
      }
    }
  }

  lemma {:induction false} ControlStringInPrefix(s: string, more: string, position: nat)
    ensures ControlStringLength(s, position) > 0 ==>
              ControlStringLength(s + more, position) == ControlStringLength(s, position)
    decreases |s| - position
  {
    if position < |s| {
      assert (s + more)[position] == s[position];
      assert position + 1 < |s| ==> (s + more)[position + 1] == s[position + 1];
      ControlStringInPrefix(s, more, position + 1);
    }
  }

  lemma {:induction false} CompleteStaysComplete(s: string, more: string)
    requires s != "" && s[0] == ESC && EscapeLength(s) > 0
    ensures (s + more)[0] == ESC && EscapeLength(s + more) == EscapeLength(s)
    ensures (s + more)[..EscapeLength(s)] == s[..EscapeLength(s)]
    ensures (s + more)[EscapeLength(s)..] == s[EscapeLength(s)..] + more
  {
    assert (s + more)[0] == s[0] && (s + more)[1] == s[1];
    if s[1] == ']' || s[1] == 'P' {
      ControlStringInPrefix(s, more, 2);
    } else if s[1] == '[' {
      FindFinalInPrefix(s, more, 2);
      var j := FindFinal(s, 2);
      assert (s + more)[j] == s[j];
    }
  }

  /** Scanning may stop after any prefix and go on from what is then pending. */
  lemma {:induction false} ScanInTwo(a: string, b: string, chars: string, inPaste: bool)
    ensures var t := Scan(a, chars, inPaste); Scan(a + b, chars, inPaste) == Scan(t.pending + b, t.chars, t.inPaste)
    decreases |a|
  {
    if a == "" {
      assert a + b == b;
    } else if a[0] == ESC {
      var length := EscapeLength(a);
      if length > 0 {
        CompleteStaysComplete(a, b);
        var (edited, pasting) := ApplyEscape(a[..length], chars, inPaste);
        ScanInTwo(a[length..], b, edited, pasting);
      }
    } else {
      assert (a + b)[0] == a[0] && (a + b)[1..] == a[1..] + b;
      ScanInTwo(a[1..], b, ApplyKey(a[0], chars, inPaste), inPaste);
    }
  }

  // ---- states between feeds ----

  /** What is pending is nothing, or the beginning of one escape sequence. */
  predicate IsPending(pending: string) {
    pending == "" || (pending[0] == ESC && EscapeLength(pending) == 0)
  }

  lemma {:induction false} PendingAfterScan(s: string, chars: string, inPaste: bool)
    ensures IsPending(Scan(s, chars, inPaste).pending)
    decreases |s|
  {
    if s != "" {
      if s[0] == ESC {
        var length := EscapeLength(s);
        if length > 0 {
          var (edited, pasting) := ApplyEscape(s[..length], chars, inPaste);
          PendingAfterScan(s[length..], edited, pasting);
        }
      } else {
        PendingAfterScan(s[1..], ApplyKey(s[0], chars, inPaste), inPaste);
      }
    }
  }

  /** Feeding nothing to a state between feeds changes nothing. */
  lemma {:induction false} FeedNothing(t: Tracker)
    requires IsPending(t.pending)
    ensures Feed(t, "") == t
  {
    assert t.pending + "" == t.pending;
  }

  // ---- cutting the keystrokes ----

  predicate SameInTwo(t: Tracker, a: string, b: string) {
    Feed(Feed(t, a), b) == Feed(t, a + b)
  }

  /** A chunk ending in a lone ESC is followed by one that does not continue it. */
  predicate SeversEscape(t: Tracker, a: string, b: string) {
    a != "" && DropsPending(Feed(t, a), b)
  }

  /** Cutting anywhere else leaves the same draft, paste flag and pending sequence. */
  lemma {:induction false} CutIsHarmless(t: Tracker, a: string, b: string)
    requires IsPending(t.pending) && !SeversEscape(t, a, b)
    ensures SameInTwo(t, a, b)
  {
    if a == "" {
      FeedNothing(t);
      assert a + b == b;
    } else {
      var pending := if DropsPending(t, a) then "" else t.pending;
      assert (a + b)[0] == a[0];
      assert pending + (a + b) == (pending + a) + b;
      ScanInTwo(pending + a, b, t.chars, t.inPaste);
    }
  }

  /** A key pressed after Escape, against the same key as the second half of an escape sequence. */
  predicate ReadsTheSame(key: char, chars: string, inPaste: bool) {
    key != ESC && ApplyEscape([ESC, key], chars, inPaste) == (ApplyKey(key, chars, inPaste), inPaste)
  }

  /** A severed Escape: cut, it is dropped and the key read by itself; uncut, the two are one sequence. */
  lemma {:induction false} SeveredEscape(t: Tracker, a: string, b: string)
    requires IsPending(t.pending) && SeversEscape(t, a, b)
    ensures var s := Feed(t, a);
            && Feed(s, b) == Scan(b, s.chars, s.inPaste)
            && Feed(t, a + b) == Scan(b[1..], ApplyEscape([ESC, b[0]], s.chars, s.inPaste).0, s.inPaste)
  {
    var s := Feed(t, a);
    var pending := if DropsPending(t, a) then "" else t.pending;
    assert (a + b)[0] == a[0];
    assert pending + (a + b) == (pending + a) + b;
    ScanInTwo(pending + a, b, t.chars, t.inPaste);
    assert "" + b == b;
    EscapeThenKey(b, s.chars, s.inPaste);
  }

  lemma {:induction false} EscapeThenKey(b: string, chars: string, inPaste: bool)
    requires b != "" && !IsOpener(b[0])
    ensures Scan([ESC] + b, chars, inPaste) == Scan(b[1..], ApplyEscape([ESC, b[0]], chars, inPaste).0, inPaste)
  {
    var joined := [ESC] + b;
    assert joined[0] == ESC && joined[1] == b[0] && EscapeLength(joined) == 2;
    assert joined[..2] == [ESC, b[0]] && joined[2..] == b[1..];
    assert |joined[..2]| != |PASTE_START| && |joined[..2]| != |PASTE_END|;
  }

  /**
   Exactly when cutting there is harmless: for every text starting with the key, if and only if the key
   reads the same after Escape as within an escape sequence.
   */
  lemma {:induction false} CutAtEscapeKey(t: Tracker, a: string, key: char)
    requires IsPending(t.pending) && SeversEscape(t, a, [key])
    ensures (forall rest: string :: SameInTwo(t, a, [key] + rest))
       <==> ReadsTheSame(key, Feed(t, a).chars, Feed(t, a).inPaste)
  {
    var s := Feed(t, a);
    forall rest: string
      ensures SeversEscape(t, a, [key] + rest)
      ensures Feed(s, [key] + rest) == Scan([key] + rest, s.chars, s.inPaste)
      ensures Feed(t, a + ([key] + rest)) == Scan(rest, ApplyEscape([ESC, key], s.chars, s.inPaste).0, s.inPaste)
    {
      SeveredEscape(t, a, [key] + rest);
      assert ([key] + rest)[1..] == rest;
    }
    if ReadsTheSame(key, s.chars, s.inPaste) {
      forall rest: string ensures SameInTwo(t, a, [key] + rest) {
        assert ([key] + rest)[1..] == rest && ([key] + rest)[0] == key;
      }
    } else {
      KeyAlone(key, s.chars, s.inPaste);
      assert [key] + "" == [key];
      assert Feed(s, [key] + "") == Scan([key], s.chars, s.inPaste);
      assert Feed(t, a + ([key] + "")) == Scan("", ApplyEscape([ESC, key], s.chars, s.inPaste).0, s.inPaste);
      assert !SameInTwo(t, a, [key] + "");
    }
  }

  lemma {:induction false} KeyAlone(key: char, chars: string, inPaste: bool)
    ensures Scan([key], chars, inPaste)
         == if key == ESC then Tracker(chars, [ESC], inPaste) else Tracker(ApplyKey(key, chars, inPaste), "", inPaste)
  {
    assert [key][1..] == "";
  }

  /**
   After a chunk, every way to go on is harmless if and only if what is pending is not a lone ESC: pressing
   Escape again is always read differently.
   */
  lemma {:induction false} HarmlessUnlessLoneEscape(t: Tracker, a: string)
    requires IsPending(t.pending) && a != ""
    ensures (forall b: string :: SameInTwo(t, a, b)) <==> Feed(t, a).pending != [ESC]
  {
    forall b: string ensures SeversEscape(t, a, b) || SameInTwo(t, a, b) {
      if !SeversEscape(t, a, b) {
        CutIsHarmless(t, a, b);
      }
    }
    if Feed(t, a).pending == [ESC] {
      var b := [ESC];
      SeveredEscape(t, a, b);
      KeyAlone(ESC, Feed(t, a).chars, Feed(t, a).inPaste);
      assert b[1..] == "";
      assert !SameInTwo(t, a, b);
    }
  }

  /** Escape, then Enter: one tracker has submitted the draft, the other has a new line in it. */
  lemma {:induction false} SeveredEnter()
    ensures !SameInTwo(Tracker("a", "", false), [ESC], "\r")
  {
    var t := Tracker("a", "", false);
    assert "" + [ESC] == [ESC];
    KeyAlone(ESC, "a", false);
    assert Feed(t, [ESC]) == Tracker("a", [ESC], false);
    SeveredEscape(t, [ESC], "\r");
    KeyAlone('\r', "a", false);
    assert "\r"[1..] == "";
  }

  // ---- typing a draft back ----

  /** Only new lines and printable characters, and no printable one past the cap. */
  predicate Retypable(chars: string) {
    forall i :: 0 <= i < |chars| ==>
      chars[i] == '\n' || (chars[i] >= ' ' && chars[i] != BACKSPACE && i < DRAFT_MAX_CHARS)
  }

  lemma {:induction false} PopWhileIsPrefix(chars: string, pops: char -> bool)
    ensures PopWhile(chars, pops) <= chars
  {
    if chars != "" && pops(chars[|chars| - 1]) {
      PopWhileIsPrefix(chars[..|chars| - 1], pops);
    }
  }

  lemma {:induction false} PoppingKeepsRetypable(chars: string)
    requires Retypable(chars)
    ensures Retypable(PopWord(chars)) && Retypable(PopCurrentLine(chars))
    ensures chars != "" ==> Retypable(chars[..|chars| - 1])
    ensures Retypable(chars + "\n")
  {
    var spaces := PopWhile(chars, c => c == ' ');
    PopWhileIsPrefix(chars, c => c == ' ');
    PopWhileIsPrefix(spaces, c => c != ' ' && c != '\n');
    PopWhileIsPrefix(chars, c => c != '\n');
  }

  /** Every draft the tracker builds from keystrokes stays retypable. */
  lemma {:induction false} ScanKeepsRetypable(s: string, chars: string, inPaste: bool)
    requires Retypable(chars)
    ensures Retypable(Scan(s, chars, inPaste).chars)
    decreases |s|
  {
    PoppingKeepsRetypable(chars);
    if s != "" {
      if s[0] == ESC {
        var length := EscapeLength(s);
        if length > 0 {
          var (edited, pasting) := ApplyEscape(s[..length], chars, inPaste);
          ScanKeepsRetypable(s[length..], edited, pasting);
        }
      } else {
        ScanKeepsRetypable(s[1..], ApplyKey(s[0], chars, inPaste), inPaste);
      }
    }
  }

  function FeedAll(t: Tracker, chunks: seq<string>): Tracker
    decreases |chunks|
  {
    if chunks == [] then t else FeedAll(Feed(t, chunks[0]), chunks[1..])
  }

  lemma {:induction false} FeedingKeepsRetypable(t: Tracker, chunks: seq<string>)
    requires Retypable(t.chars)
    ensures Retypable(FeedAll(t, chunks).chars)
    decreases |chunks|
  {
    if chunks != [] {
      ScanKeepsRetypable((if DropsPending(t, chunks[0]) then "" else t.pending) + chunks[0], t.chars, t.inPaste);
      FeedingKeepsRetypable(Feed(t, chunks[0]), chunks[1..]);
    }
  }

  /** What is typed to put a draft back: clear the line, then one bracketed paste. */
  function PutBack(draft: string): string {
    [CTRL_KILL_LINE] + (PASTE_START + (draft + PASTE_END))
  }

  lemma {:induction false} PasteMarkerLength(marker: string, more: string)
    requires marker == PASTE_START || marker == PASTE_END
    ensures (marker + more)[0] == ESC && EscapeLength(marker + more) == 6
    ensures (marker + more)[..6] == marker && (marker + more)[6..] == more
  {
    assert FindFinal(marker, 5) == 5;
    assert FindFinal(marker, 4) == 5;
    assert FindFinal(marker, 3) == 5;
    assert FindFinal(marker, 2) == 5;
    assert EscapeLength(marker) == 6;
    CompleteStaysComplete(marker, more);
    assert marker[6..] + more == more;
  }

  lemma {:induction false} PasteAppends(draft: string, before: string)
    requires Retypable(before + draft)
    ensures Scan(draft + PASTE_END, before, true) == Scan(PASTE_END, before + draft, true)
    decreases |draft|
  {
    if draft == "" {
      assert draft + PASTE_END == PASTE_END && before + draft == before;
    } else {
      var c := draft[0];
      assert (before + draft)[|before|] == c;
      assert (draft + PASTE_END)[0] == c && (draft + PASTE_END)[1..] == draft[1..] + PASTE_END;
      assert (before + [c]) + draft[1..] == before + draft;
      assert ApplyKey(c, before, true) == before + [c];
      PasteAppends(draft[1..], before + [c]);
    }
  }

  /**
   The round trip: typing a draft back into an empty tracker rebuilds it exactly, if and only if it is
   retypable, and then leaves no paste open and nothing pending.
   */
  lemma {:induction false} PutBackRebuilds(draft: string)
    ensures Feed(EMPTY, PutBack(draft)).chars == draft <==> Retypable(draft)
    ensures Retypable(draft) ==> Feed(EMPTY, PutBack(draft)) == Tracker(draft, "", false)
  {
    ScanKeepsRetypable("" + PutBack(draft), "", false);
    if Retypable(draft) {
      RetypableIsRebuilt(draft);
    }
  }

  lemma {:induction false} RetypableIsRebuilt(draft: string)
    requires Retypable(draft)
    ensures Feed(EMPTY, PutBack(draft)) == Tracker(draft, "", false)
  {
    var paste := PASTE_START + (draft + PASTE_END);
    assert "" + PutBack(draft) == PutBack(draft);
    KillLineOfNothing(paste);
    PasteMarkerIsRead(PASTE_START, draft + PASTE_END, "", false);
    assert "" + draft == draft;
    PasteAppends(draft, "");
    PasteMarkerIsRead(PASTE_END, "", draft, true);
    assert PASTE_END + "" == PASTE_END && PASTE_END[4] != PASTE_START[4];
    assert Scan("", draft, false) == Tracker(draft, "", false);
  }

  lemma {:induction false} KillLineOfNothing(more: string)
    ensures Scan([CTRL_KILL_LINE] + more, "", false) == Scan(more, "", false)
  {
    assert ([CTRL_KILL_LINE] + more)[1..] == more;
    assert PopWhile("", c => c != '\n') == "";
  }

  lemma {:induction false} PasteMarkerIsRead(marker: string, more: string, chars: string, inPaste: bool)
    requires marker == PASTE_START || marker == PASTE_END
    ensures Scan(marker + more, chars, inPaste) == Scan(more, chars, marker == PASTE_START)
  {
    PasteMarkerLength(marker, more);
    assert PASTE_START[4] != PASTE_END[4];
    assert ApplyEscape(marker, chars, inPaste) == (chars, marker == PASTE_START);
  }

  /** Every draft typed into a new tracker, however long, can be put back. */
  lemma {:induction false} TypedDraftsCanBePutBack(chunks: seq<string>)
    ensures var draft := FeedAll(EMPTY, chunks).chars; Feed(EMPTY, PutBack(draft)) == Tracker(draft, "", false)
  {
    FeedingKeepsRetypable(EMPTY, chunks);
    PutBackRebuilds(FeedAll(EMPTY, chunks).chars);
  }
}

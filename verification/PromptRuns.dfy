/**
 What every interleaving of typing and submissions keeps: typing reaches the terminal once and in order,
 none of it lands between a prompt's paste and its Enter, and Enter is pressed again only on a composer
 that holds nothing else.
 */
module PromptRuns {
  import opened DraftTracker
  import opened PromptSubmission
  import opened Wrappers
  import DraftStreams

  /**
   What can happen: typing, another write straight to the terminal (its own replies, keys sent through the
   API), a window's draft push, and the steps of submissions.
   */
  datatype Event =
    | Typed(text: string)
    | WrittenDirectly(text: string)
    | DraftPushed(draft: string)
    | Submitted(prompt: string, bracketed: bool, queue: bool)
    | PasteSettled(blocked: bool, checkable: bool)
    | LandingPolled(finding: Finding, sourceExists: bool)
    | Abandoned

  /** Steps of a submission happen only where one is suspended, and one begins only when none is. */
  function Step(read: Keyboard, s: State, event: Event): State {
    match event
    case Typed(text) => UserInput(read, s, text)
    case WrittenDirectly(text) => Wrote(read, s, Direct, text)
    case DraftPushed(draft) => s.(tracker := Rebuilt(draft))
    case Submitted(prompt, bracketed, queue) => if s.stage.Idle? then Begun(read, s, prompt, bracketed, queue) else s
    case PasteSettled(blocked, checkable) =>
      if s.stage.Settling? then Settled(read, s, s.stage.submission, blocked, checkable) else s
    case LandingPolled(finding, sourceExists) =>
      if s.stage.Confirming? then Polled(read, s, s.stage.submission, s.stage.presses, finding, sourceExists) else s
    case Abandoned => if s.stage.Idle? then s else Ended(read, s, s.stage.submission, false)
  }

  function Run(read: Keyboard, s: State, events: seq<Event>): State
    decreases |events|
  {
    if events == [] then s else Run(read, Step(read, s, events[0]), events[1..])
  }

  function TypedBy(events: seq<Event>): seq<string> {
    if events == [] then []
    else (if events[0].Typed? then [events[0].text] else []) + TypedBy(events[1..])
  }

  function Last<T>(s: seq<T>): T
    requires s != []
  {
    s[|s| - 1]
  }

  function Front<T>(s: seq<T>): seq<T>
    requires s != []
  {
    s[..|s| - 1]
  }

  /** The typing that reached the terminal. */
  function TypedIn(sent: seq<Sent>): seq<string> {
    if sent == [] then [] else TypedIn(Front(sent)) + (if Last(sent).kind.Typing? then [Last(sent).text] else [])
  }

  // ---- what holds of everything written ----

  /** The last paste is not submitted yet, and nothing but direct writes came after it. */
  predicate PasteIsOpen(sent: seq<Sent>) {
    sent != [] && (Last(sent).kind.Paste? || (Last(sent).kind.Direct? && PasteIsOpen(Front(sent))))
  }

  /** A prompt going in: the draft its paste cleared, and whether it was submitted and the draft put back since. */
  datatype Going = Going(held: string, submitted: bool, putBack: bool)

  /** The last prompt pasted. */
  function LastGoing(sent: seq<Sent>): Option<Going> {
    if sent == [] then None
    else
      var before := LastGoing(Front(sent));
      match Last(sent).kind
      case Paste => Some(Going(Last(sent).tracker.chars, false, false))
      case Submit => if before.Some? then Some(before.value.(submitted := true)) else None
      case PutBack => if before.Some? then Some(before.value.(putBack := true)) else None
      case _ => before
  }

  /** A draft put back is the one the last paste cleared; it goes once, after the prompt and into nothing. */
  predicate PutsBack(before: seq<Sent>, entry: Sent) {
    var going := LastGoing(before);
    && going.Some? && going.value.submitted && !going.value.putBack
    && entry.tracker.chars == "" && going.value.held != "" && entry.text == DraftStreams.PutBack(going.value.held)
  }

  predicate Allows(tracker: Tracker, prompt: string) {
    tracker.chars == "" || tracker.chars == prompt
  }

  /** The first Enter pressed again follows the end of a paste. */
  predicate FollowsClose(read: Keyboard, before: seq<Sent>, entry: Sent, prompt: string) {
    && before != [] && Last(before).kind == ClosePaste(prompt) && Last(before).text == PASTE_END
    && entry.tracker == read(Last(before).tracker, PASTE_END)
  }

  predicate InOrder(read: Keyboard, before: seq<Sent>, entry: Sent) {
    && DraftStreams.IsPending(entry.tracker.pending)
    && match entry.kind
       case Submit => PasteIsOpen(before)
       case ClosePaste(prompt) => Allows(entry.tracker, prompt)
       case Retry(prompt) => Allows(entry.tracker, prompt) || FollowsClose(read, before, entry, prompt)
       case PutBack => PutsBack(before, entry)
       case _ => true
  }

  predicate Orderly(read: Keyboard, sent: seq<Sent>) {
    sent == [] || (Orderly(read, Front(sent)) && InOrder(read, Front(sent), Last(sent)))
  }

  ghost predicate LeavesPending(read: Keyboard) {
    forall t, text :: DraftStreams.IsPending(read(t, text).pending)
  }

  ghost predicate Tidy(read: Keyboard, s: State) {
    LeavesPending(read) && DraftStreams.IsPending(s.tracker.pending) && Orderly(read, s.sent)
  }

  predicate TypingIsHeld(stage: Stage) {
    match stage
    case Idle => false
    case Settling(submission) => !submission.typingGivenBack
    case Confirming(submission, _) => !submission.typingGivenBack
  }

  /** The submission under way is the last prompt pasted, and its draft has not been put back. */
  predicate IsGoing(sent: seq<Sent>, stage: Stage) {
    match stage
    case Idle => true
    case Settling(submission) => LastGoing(sent) == Some(Going(submission.heldDraft, false, false))
    case Confirming(submission, _) => LastGoing(sent) == Some(Going(submission.heldDraft, true, false))
  }

  /** The state after this typing. */
  ghost predicate Sound(read: Keyboard, s: State, typed: seq<string>) {
    && TypedIn(s.sent) + s.held == typed
    && Tidy(read, s)
    && (s.goingIn <==> TypingIsHeld(s.stage))
    && IsGoing(s.sent, s.stage)
    && (!s.goingIn ==> s.held == [])
    && (s.stage.Settling? ==> PasteIsOpen(s.sent) && !s.stage.submission.typingGivenBack)
  }

  // ---- single writes ----

  lemma {:induction false} OneMore(read: Keyboard, sent: seq<Sent>, entry: Sent)
    ensures TypedIn(sent + [entry]) == TypedIn(sent) + (if entry.kind.Typing? then [entry.text] else [])
    ensures Orderly(read, sent + [entry]) <==> Orderly(read, sent) && InOrder(read, sent, entry)
    ensures PasteIsOpen(sent + [entry]) <==> entry.kind.Paste? || (entry.kind.Direct? && PasteIsOpen(sent))
    ensures !entry.kind.Paste? && !entry.kind.Submit? && !entry.kind.PutBack? ==> LastGoing(sent + [entry]) == LastGoing(sent)
  {
    assert Front(sent + [entry]) == sent;
  }

  lemma {:induction false} QuietWrite(read: Keyboard, s: State, kind: Kind, text: string)
    requires Tidy(read, s) && InOrder(read, s.sent, Sent(kind, text, s.tracker)) && !kind.Typing?
    ensures var after := Wrote(read, s, kind, text);
            && Tidy(read, after) && TypedIn(after.sent) == TypedIn(s.sent)
            && (!kind.Paste? && !kind.Submit? && !kind.PutBack? ==> LastGoing(after.sent) == LastGoing(s.sent))
  {
    var typed := TypedIn(s.sent);
    OneMore(read, s.sent, Sent(kind, text, s.tracker));
    assert typed + [] == typed;
  }

  lemma {:induction false} WritingAll(read: Keyboard, s: State, texts: seq<string>)
    requires Tidy(read, s)
    ensures var after := WroteAll(read, s, texts);
            && Tidy(read, after) && TypedIn(after.sent) == TypedIn(s.sent) + texts
            && after.goingIn == s.goingIn && after.held == s.held && after.stage == s.stage
            && LastGoing(after.sent) == LastGoing(s.sent)
    decreases |texts|
  {
    if texts == [] {
      assert TypedIn(s.sent) + [] == TypedIn(s.sent);
    } else {
      var next := Wrote(read, s, Typing, texts[0]);
      OneMore(read, s.sent, Sent(Typing, texts[0], s.tracker));
      WritingAll(read, next, texts[1..]);
      assert TypedIn(s.sent) + [texts[0]] + texts[1..] == TypedIn(s.sent) + texts;
    }
  }

  /** Giving the typing back delivers all that was held. */
  lemma {:induction false} GivingBackDelivers(read: Keyboard, s: State)
    requires Tidy(read, s)
    ensures var after := GiveTypingBack(read, s);
            && Tidy(read, after) && TypedIn(after.sent) == TypedIn(s.sent) + s.held
            && !after.goingIn && after.held == [] && after.stage == s.stage
            && LastGoing(after.sent) == LastGoing(s.sent)
  {
    WritingAll(read, s.(goingIn := false, held := []), s.held);
  }

  /** However a submission ends, everything typed has then reached the terminal. */
  lemma {:induction false} EndingDelivers(read: Keyboard, s: State, submission: Submission, landed: bool,
                                          typed: seq<string>)
    requires Tidy(read, s) && TypedIn(s.sent) + s.held == typed
    requires submission.typingGivenBack ==> s.held == [] && !s.goingIn
    requires landed ==> LastGoing(s.sent) == Some(Going(submission.heldDraft, true, false))
    ensures Sound(read, Ended(read, s, submission, landed), typed)
  {
    var put := if landed && submission.heldDraft != "" then PutDraftBack(read, s, submission.heldDraft) else s;
    if put != s {
      QuietWrite(read, s, PutBack, DraftStreams.PutBack(submission.heldDraft));
    }
    if !submission.typingGivenBack {
      GivingBackDelivers(read, put);
    }
    var after := Ended(read, s, submission, landed);
    assert TypedIn(after.sent) + [] == TypedIn(after.sent);
  }

  // ---- steps ----

  lemma {:induction false} TypingIsSound(read: Keyboard, s: State, text: string, typed: seq<string>)
    requires Sound(read, s, typed)
    ensures Sound(read, UserInput(read, s, text), typed + [text])
  {
    if s.goingIn {
      assert TypedIn(s.sent) + (s.held + [text]) == typed + [text];
    } else {
      OneMore(read, s.sent, Sent(Typing, text, s.tracker));
      var after := UserInput(read, s, text);
      assert TypedIn(s.sent) + [] == TypedIn(s.sent);
      assert TypedIn(after.sent) + [] == TypedIn(after.sent);
    }
  }

  lemma {:induction false} BeginningIsSound(read: Keyboard, s: State, prompt: string, bracketed: bool, queue: bool,
                                            typed: seq<string>)
    requires Sound(read, s, typed) && s.stage.Idle?
    ensures Sound(read, Begun(read, s, prompt, bracketed, queue), typed)
  {
    var payload := Payload(Normalized(prompt), bracketed);
    QuietWrite(read, s.(goingIn := true), Paste, payload);
    OneMore(read, s.sent, Sent(Paste, payload, s.tracker));
  }

  lemma {:induction false} SettlingIsSound(read: Keyboard, s: State, blocked: bool, checkable: bool, typed: seq<string>)
    requires Sound(read, s, typed) && s.stage.Settling?
    ensures Sound(read, Settled(read, s, s.stage.submission, blocked, checkable), typed)
  {
    var submission := s.stage.submission;
    if blocked {
      EndingDelivers(read, s.(tracker := Rebuilt(submission.heldDraft)), submission, false, typed);
    } else {
      var key := if submission.queue then "\t" else "\r";
      QuietWrite(read, s, Submit, key);
      var submitted := Wrote(read, s, Submit, key);
      if submission.queue {
        EndingDelivers(read, submitted.(tracker := EMPTY), submission, true, typed);
      } else if !checkable {
        EndingDelivers(read, submitted, submission, true, typed);
      }
    }
  }

  lemma {:induction false} PressingIsOrderly(read: Keyboard, s: State, prompt: string, presses: nat)
    requires Tidy(read, s) && MayPress(s, prompt)
    ensures var after := Pressed(read, s, prompt, presses);
            && Tidy(read, after) && TypedIn(after.sent) == TypedIn(s.sent)
            && LastGoing(after.sent) == LastGoing(s.sent)
  {
    if presses == 0 {
      var closed := Wrote(read, s, ClosePaste(prompt), PASTE_END);
      QuietWrite(read, s, ClosePaste(prompt), PASTE_END);
      QuietWrite(read, closed, Retry(prompt), "\r");
    } else {
      QuietWrite(read, s, Retry(prompt), "\r");
    }
  }

  lemma {:induction false} RetryingIsSound(read: Keyboard, s: State, holdOver: bool, typed: seq<string>)
    requires Sound(read, s, typed) && s.stage.Confirming?
    ensures var after := Retried(read, s, s.stage.submission, s.stage.presses, holdOver);
            Sound(read, after, typed) && after.stage.Confirming?
  {
    var Confirming(submission, presses) := s.stage;
    var giveBack := holdOver && !submission.typingGivenBack;
    var after := if giveBack then GiveTypingBack(read, s) else s;
    if giveBack {
      GivingBackDelivers(read, s);
      assert TypedIn(after.sent) + [] == TypedIn(after.sent);
    }
    if MayPress(after, submission.prompt) {
      PressingIsOrderly(read, after, submission.prompt, presses);
    }
  }

  lemma {:induction false} GivingUpIsSound(read: Keyboard, s: State, sourceExists: bool, typed: seq<string>)
    requires Sound(read, s, typed) && s.stage.Confirming?
    ensures Sound(read, Missing(read, s, s.stage.submission, sourceExists), typed)
  {
    var submission := s.stage.submission;
    var restored := if sourceExists && s.tracker.chars == "" then s.(tracker := Rebuilt(submission.prompt)) else s;
    EndingDelivers(read, restored, submission, false, typed);
  }

  lemma {:induction false} PollingIsSound(read: Keyboard, s: State, finding: Finding, sourceExists: bool, typed: seq<string>)
    requires Sound(read, s, typed) && s.stage.Confirming?
    ensures Sound(read, Polled(read, s, s.stage.submission, s.stage.presses, finding, sourceExists), typed)
  {
    match finding
    case Taken => EndingDelivers(read, s, s.stage.submission, true, typed);
    case Exited => EndingDelivers(read, s, s.stage.submission, false, typed);
    case Blocked => GivingUpIsSound(read, s, sourceExists, typed);
    case Waiting(holdOver, timeUp) =>
      RetryingIsSound(read, s, holdOver, typed);
      if timeUp {
        GivingUpIsSound(read, Retried(read, s, s.stage.submission, s.stage.presses, holdOver), sourceExists, typed);
      }
  }

  lemma {:induction false} DirectIsSound(read: Keyboard, s: State, text: string, typed: seq<string>)
    requires Sound(read, s, typed)
    ensures Sound(read, Wrote(read, s, Direct, text), typed)
  {
    QuietWrite(read, s, Direct, text);
    OneMore(read, s.sent, Sent(Direct, text, s.tracker));
  }

  lemma {:induction false} StepIsSound(read: Keyboard, s: State, event: Event, typed: seq<string>)
    requires Sound(read, s, typed)
    ensures Sound(read, Step(read, s, event), typed + (if event.Typed? then [event.text] else []))
  {
    assert typed + [] == typed;
    match event
    case Typed(text) => TypingIsSound(read, s, text, typed);
    case WrittenDirectly(text) => DirectIsSound(read, s, text, typed);
    case DraftPushed(draft) =>
    case Submitted(prompt, bracketed, queue) =>
      if s.stage.Idle? {
        BeginningIsSound(read, s, prompt, bracketed, queue, typed);
      }
    case PasteSettled(blocked, checkable) =>
      if s.stage.Settling? {
        SettlingIsSound(read, s, blocked, checkable, typed);
      }
    case LandingPolled(finding, sourceExists) =>
      if s.stage.Confirming? {
        PollingIsSound(read, s, finding, sourceExists, typed);
      }
    case Abandoned =>
      if !s.stage.Idle? {
        EndingDelivers(read, s, s.stage.submission, false, typed);
      }
  }

  lemma {:induction false} RunIsSound(read: Keyboard, s: State, events: seq<Event>, typed: seq<string>)
    requires Sound(read, s, typed)
    ensures Sound(read, Run(read, s, events), typed + TypedBy(events))
    decreases |events|
  {
    if events == [] {
      assert typed + [] == typed;
    } else {
      var one := if events[0].Typed? then [events[0].text] else [];
      StepIsSound(read, s, events[0], typed);
      RunIsSound(read, Step(read, s, events[0]), events[1..], typed + one);
      assert (typed + one) + TypedBy(events[1..]) == typed + (one + TypedBy(events[1..]));
    }
  }

  function Fresh(draft: string): State {
    State(Rebuilt(draft), false, [], [], Idle)
  }

  lemma {:induction false} FreshRunIsSound(read: Keyboard, draft: string, events: seq<Event>)
    requires LeavesPending(read)
    ensures Sound(read, Run(read, Fresh(draft), events), TypedBy(events))
  {
    RunIsSound(read, Fresh(draft), events, []);
    assert [] + TypedBy(events) == TypedBy(events);
  }

  lemma {:induction false} ReadingLeavesPending(hasQueue: bool)
    ensures LeavesPending(Reading(hasQueue))
  {
    forall t, text ensures DraftStreams.IsPending(Reading(hasQueue)(t, text).pending) {
      DraftStreams.PendingAfterScan((if DropsPending(t, text) then "" else t.pending) + text, t.chars, t.inPaste);
    }
  }

  // ---- the three promises ----

  /**
   Each piece of typing reaches the terminal once, in the order it was typed; what has not is held, which
   can only be while a submission is under way.
   */
  lemma {:induction false} TypingArrivesOnceInOrder(hasQueue: bool, draft: string, events: seq<Event>)
    ensures var s := Run(Reading(hasQueue), Fresh(draft), events);
            && TypedIn(s.sent) + s.held == TypedBy(events)
            && (s.stage.Idle? ==> TypedIn(s.sent) == TypedBy(events))
  {
    ReadingLeavesPending(hasQueue);
    FreshRunIsSound(Reading(hasQueue), draft, events);
    var s := Run(Reading(hasQueue), Fresh(draft), events);
    assert TypedIn(s.sent) + [] == TypedIn(s.sent);
  }

  lemma {:induction false} OrderlyAt(read: Keyboard, sent: seq<Sent>, j: nat)
    requires Orderly(read, sent) && j < |sent|
    ensures InOrder(read, sent[..j], sent[j])
    decreases |sent|
  {
    if j < |sent| - 1 {
      OrderlyAt(read, Front(sent), j);
      assert Front(sent)[..j] == sent[..j];
    }
  }

  lemma {:induction false} OpenPasteIs(sent: seq<Sent>) returns (i: nat)
    requires PasteIsOpen(sent)
    ensures i < |sent| && sent[i].kind.Paste? && forall k :: i < k < |sent| ==> sent[k].kind.Direct?
    decreases |sent|
  {
    if Last(sent).kind.Paste? {
      i := |sent| - 1;
    } else {
      i := OpenPasteIs(Front(sent));
    }
  }

  /** Between a prompt's paste and the Enter or Tab that submits it, no typing is written. */
  lemma {:induction false} NoTypingBeforeSubmit(hasQueue: bool, draft: string, events: seq<Event>, j: nat) returns (i: nat)
    requires var sent := Run(Reading(hasQueue), Fresh(draft), events).sent;
             j < |sent| && sent[j].kind.Submit?
    ensures var sent := Run(Reading(hasQueue), Fresh(draft), events).sent;
            i < j && sent[i].kind.Paste? && forall k :: i < k < j ==> sent[k].kind.Direct?
  {
    var sent := Run(Reading(hasQueue), Fresh(draft), events).sent;
    ReadingLeavesPending(hasQueue);
    FreshRunIsSound(Reading(hasQueue), draft, events);
    OrderlyAt(Reading(hasQueue), sent, j);
    i := OpenPasteIs(sent[..j]);
    assert forall k :: i < k < j ==> sent[k] == sent[..j][k];
  }

  /** Whether closing a paste leaves the draft alone: nothing is pending but the Escape key or a control string. */
  predicate Harmless(t: Tracker) {
    |t.pending| <= 1 || t.pending[1] == ']' || t.pending[1] == 'P' || |t.chars| >= DRAFT_MAX_CHARS
  }

  /**
   Whenever Enter is pressed again the tracked draft is empty or the prompt, except right after the end of
   a paste went to a tracker with an unfinished escape sequence, which took part of it for typing.
   */
  lemma {:induction false} RetryPressesOnlyThePrompt(hasQueue: bool, draft: string, events: seq<Event>, j: nat)
    requires var sent := Run(Reading(hasQueue), Fresh(draft), events).sent;
             j < |sent| && sent[j].kind.Retry?
    ensures var sent := Run(Reading(hasQueue), Fresh(draft), events).sent;
            var prompt := sent[j].kind.prompt;
            || Allows(sent[j].tracker, prompt)
            || (&& j > 0 && sent[j - 1].kind == ClosePaste(prompt)
                && Allows(sent[j - 1].tracker, prompt) && !Harmless(sent[j - 1].tracker)
                && sent[j].tracker == Feed(sent[j - 1].tracker, PASTE_END))
  {
    var sent := Run(Reading(hasQueue), Fresh(draft), events).sent;
    ReadingLeavesPending(hasQueue);
    FreshRunIsSound(Reading(hasQueue), draft, events);
    OrderlyAt(Reading(hasQueue), sent, j);
    if j > 0 {
      assert Last(sent[..j]) == sent[j - 1];
      OrderlyAt(Reading(hasQueue), sent, j - 1);
      ClosingPasteKeepsDraft(sent[j - 1].tracker);
    }
    assert PASTE_END[0] == ESC && "\t"[0] != ESC;
  }

  // ---- the draft that was there before ----

  lemma {:induction false} GoingAt(sent: seq<Sent>) returns (i: nat)
    requires LastGoing(sent).Some?
    ensures i < |sent| && sent[i].kind.Paste? && sent[i].tracker.chars == LastGoing(sent).value.held
    ensures forall k :: i < k < |sent| ==> !sent[k].kind.Paste?
    ensures !LastGoing(sent).value.putBack ==> forall k :: i < k < |sent| ==> !sent[k].kind.PutBack?
    ensures LastGoing(sent).value.submitted ==> exists k :: i < k < |sent| && sent[k].kind.Submit?
    decreases |sent|
  {
    if Last(sent).kind.Paste? {
      i := |sent| - 1;
    } else {
      i := GoingAt(Front(sent));
      assert Last(sent) == sent[|sent| - 1];
      assert forall k :: 0 <= k < |sent| - 1 ==> sent[k] == Front(sent)[k];
    }
  }

  /**
   Whenever a draft is put back it is the one that the last paste cleared; the prompt was submitted in
   between, nothing is in the tracked draft, and it is put back only once.
   */
  lemma {:induction false} PutBackIsWhatPasteCleared(hasQueue: bool, draft: string, events: seq<Event>, j: nat) returns (i: nat)
    requires var sent := Run(Reading(hasQueue), Fresh(draft), events).sent;
             j < |sent| && sent[j].kind.PutBack?
    ensures var sent := Run(Reading(hasQueue), Fresh(draft), events).sent;
            && i < j && sent[i].kind.Paste?
            && (forall k :: i < k < j ==> !sent[k].kind.Paste? && !sent[k].kind.PutBack?)
            && (exists k :: i < k < j && sent[k].kind.Submit?)
            && sent[j].tracker.chars == "" && sent[i].tracker.chars != ""
            && sent[j].text == DraftStreams.PutBack(sent[i].tracker.chars)
  {
    var sent := Run(Reading(hasQueue), Fresh(draft), events).sent;
    ReadingLeavesPending(hasQueue);
    FreshRunIsSound(Reading(hasQueue), draft, events);
    OrderlyAt(Reading(hasQueue), sent, j);
    i := GoingAt(sent[..j]);
    assert forall k :: 0 <= k < j ==> sent[k] == sent[..j][k];
    var k :| i < k < j && sent[..j][k].kind.Submit?;
    assert sent[k].kind.Submit?;
  }

  /** When a submission ends, the draft it cleared is put back if and only if it landed on an empty composer. */
  lemma {:induction false} EndingPutsBackIff(read: Keyboard, s: State, submission: Submission, landed: bool)
    requires Tidy(read, s) && LastGoing(s.sent) == Some(Going(submission.heldDraft, true, false))
    ensures var after := Ended(read, s, submission, landed);
            && LastGoing(after.sent).Some?
            && (LastGoing(after.sent).value.putBack <==> landed && submission.heldDraft != "" && s.tracker.chars == "")
  {
    var put := if landed && submission.heldDraft != "" then PutDraftBack(read, s, submission.heldDraft) else s;
    if put != s {
      var entry := Sent(PutBack, DraftStreams.PutBack(submission.heldDraft), s.tracker);
      QuietWrite(read, s, PutBack, DraftStreams.PutBack(submission.heldDraft));
      assert Front(s.sent + [entry]) == s.sent;
    }
    if !submission.typingGivenBack {
      GivingBackDelivers(read, put);
    }
  }

  // ---- closing a paste ----

  /** Typing printable characters below the cap leaves them in the draft. */
  lemma {:induction false} TypingShows(s: string, chars: string, inPaste: bool)
    requires s != "" && forall i :: 0 <= i < |s| ==> ' ' <= s[i] < BACKSPACE
    ensures |chars| < DRAFT_MAX_CHARS ==> |Scan(s, chars, inPaste).chars| > |chars|
    ensures |chars| >= DRAFT_MAX_CHARS ==> Scan(s, chars, inPaste).chars == chars
    decreases |s|
  {
    if |s| > 1 {
      TypingShows(s[1..], ApplyKey(s[0], chars, inPaste), inPaste);
    } else {
      assert s[1..] == "";
    }
  }

  lemma {:induction false} ControlStringGoesOn(pending: string, position: nat)
    requires ControlStringLength(pending, position) == 0 && position <= |pending|
    ensures ControlStringLength(pending + PASTE_END, position) == 0
    decreases |pending| - position
  {
    var s := pending + PASTE_END;
    if position < |pending| {
      assert s[position] == pending[position];
      assert position + 1 < |pending| ==> s[position + 1] == pending[position + 1];
      assert position + 1 == |pending| ==> s[position + 1] == ESC;
      ControlStringGoesOn(pending, position + 1);
    } else {
      NoTerminatorInMarker(s, position);
    }
  }

  lemma {:induction false} NoTerminatorInMarker(s: string, position: nat)
    requires |s| >= 6 && s[|s| - 6..] == PASTE_END && position >= |s| - 6
    ensures ControlStringLength(s, position) == 0
    decreases |s| - position
  {
    if position < |s| {
      assert s[position] == PASTE_END[position - (|s| - 6)];
      if position + 1 < |s| {
        assert s[position + 1] == PASTE_END[position - (|s| - 6) + 1];
      }
      NoTerminatorInMarker(s, position + 1);
    }
  }

  /** The end of a paste leaves the draft as it is if and only if what is pending is harmless. */
  lemma {:induction false} ClosingPasteKeepsDraft(t: Tracker)
    requires DraftStreams.IsPending(t.pending)
    ensures Feed(t, PASTE_END).chars == t.chars <==> Harmless(t)
  {
    if |t.pending| <= 1 {
      MarkerIsRead(t);
    } else if t.pending[1] == ']' || t.pending[1] == 'P' {
      MarkerIsPending(t);
    } else {
      MarkerIsTyped(t);
    }
  }

  lemma {:induction false} MarkerIsRead(t: Tracker)
    requires DraftStreams.IsPending(t.pending) && |t.pending| <= 1
    ensures Feed(t, PASTE_END).chars == t.chars
  {
    assert t.pending == "" || t.pending == [ESC];
    assert DropsPending(t, PASTE_END) || t.pending == "";
    assert "" + PASTE_END == PASTE_END && PASTE_END + "" == PASTE_END;
    DraftStreams.PasteMarkerIsRead(PASTE_END, "", t.chars, t.inPaste);
  }

  lemma {:induction false} MarkerIsPending(t: Tracker)
    requires |t.pending| > 1 && t.pending[0] == ESC && EscapeLength(t.pending) == 0
    requires t.pending[1] == ']' || t.pending[1] == 'P'
    ensures Feed(t, PASTE_END).chars == t.chars
  {
    var s := t.pending + PASTE_END;
    ControlStringGoesOn(t.pending, 2);
    assert s[0] == ESC && s[1] == t.pending[1];
    assert EscapeLength(s) == 0;
  }

  lemma {:induction false} MarkerIsTyped(t: Tracker)
    requires |t.pending| > 1 && t.pending[0] == ESC && EscapeLength(t.pending) == 0
    requires t.pending[1] != ']' && t.pending[1] != 'P'
    ensures Feed(t, PASTE_END).chars == t.chars <==> |t.chars| >= DRAFT_MAX_CHARS
  {
    var s := t.pending + PASTE_END;
    var length := EscapeLength(s);
    SwallowsEscape(t.pending);
    assert s[0] == ESC;
    assert ApplyEscape(s[..length], t.chars, t.inPaste).0 == t.chars;
    var pasting := ApplyEscape(s[..length], t.chars, t.inPaste).1;
    TypingShows(s[length..], t.chars, pasting);
  }

  /** A sequence left unfinished takes ESC, or more of the marker, and leaves printable text of it. */
  lemma {:induction false} SwallowsEscape(pending: string)
    requires |pending| > 1 && pending[0] == ESC && EscapeLength(pending) == 0
    requires pending[1] != ']' && pending[1] != 'P'
    ensures var s := pending + PASTE_END;
            && s[0] == ESC && s[1] == pending[1] && |pending| < EscapeLength(s) < |s|
            && (pending[1] == 'O' || pending[1] == '[')
            && forall i :: EscapeLength(s) <= i < |s| ==> ' ' <= s[i] < BACKSPACE
  {
    var s := pending + PASTE_END;
    assert s[0] == ESC && s[1] == pending[1];
    if pending[1] == '[' {
      var j := FindFinal(pending, 2);
      if j == |pending| {
        assert forall k :: 2 <= k < |pending| ==> s[k] == pending[k];
        assert s[|pending|] == ESC && s[|pending| + 1] == '[';
      } else {
        assert s[2] == pending[2];
      }
    }
    assert forall i :: |pending| + 1 <= i < |s| ==> s[i] == PASTE_END[i - |pending|];
  }

  // ---- a retry that sends something else ----

  const CSI: string := [ESC] + "["

  lemma {:induction false} CsiThenMarker()
    ensures Feed(Tracker("", CSI, false), PASTE_END).chars == "201~"
  {
    var s := CSI + PASTE_END;
    assert s[0] == ESC && s[1] == '[' && s[2] == ESC && s[3] == '[';
    assert s[4..] == "201~";
    assert ApplyEscape(s[..4], "", false) == ("", false) by {
      assert |s[..4]| == 4 && s[..4][1] == '[' && |PASTE_START| == 6 && |PASTE_END| == 6;
    }
    FourKeys("201~");
  }

  lemma {:induction false} FourKeys(s: string)
    requires |s| == 4 && forall i :: 0 <= i < |s| ==> ' ' <= s[i] < BACKSPACE
    ensures Scan(s, "", false).chars == s
  {
    TypedIsAdded(s, "");
    assert "" + s == s;
  }

  lemma {:induction false} TypedIsAdded(s: string, chars: string)
    requires |chars| + |s| <= DRAFT_MAX_CHARS && forall i :: 0 <= i < |s| ==> ' ' <= s[i] < BACKSPACE
    ensures Scan(s, chars, false) == Tracker(chars + s, "", false)
    decreases |s|
  {
    if s == "" {
      assert chars + s == chars;
    } else {
      TypedIsAdded(s[1..], chars + [s[0]]);
      assert (chars + [s[0]]) + s[1..] == chars + s;
    }
  }

  lemma {:induction false} PromptThenEnter()
    ensures Feed(Feed(Rebuilt(""), Payload("a", false)), "\r") == Rebuilt("")
  {
    assert "" + Payload("a", false) == Payload("a", false) == [CTRL_KILL_LINE] + "a";
    DraftStreams.KillLineOfNothing("a");
    TypedIsAdded("a", "");
    assert "" + "a" == "a";
    assert Feed(Rebuilt(""), Payload("a", false)) == Rebuilt("a");
    assert "" + "\r" == "\r" && "\r"[1..] == "";
  }

  lemma {:induction false} CsiIsPending()
    ensures Feed(Rebuilt(""), CSI) == Tracker("", CSI, false)
  {
    assert "" + CSI == CSI;
    assert FindFinal(CSI, 2) == 2;
  }

  /** A person types the start of an escape sequence while a prompt waits, and Enter is to be pressed again. */
  function TypingWhileItWaits(): seq<Event> {
    [Submitted("a", false, false), PasteSettled(false, true), Typed(CSI), LandingPolled(Waiting(true, false), false)]
  }

  /** Once the hold is over, the end of a paste sent before that Enter is read as text, and Enter is pressed on it. */
  lemma {:induction false} UnfinishedSequenceIsSubmitted()
    ensures var sent := Run(Reading(false), Fresh(""), TypingWhileItWaits()).sent;
            sent != [] && Last(sent).kind == Retry("a") && Last(sent).tracker.chars == "201~"
  {
    PromptThenEnter();
    CsiIsPending();
    CsiThenMarker();
    RetryAfterTyping(Reading(false));
  }

  lemma {:induction false} RetryAfterTyping(read: Keyboard)
    requires read(read(Rebuilt(""), Payload("a", false)), "\r") == Rebuilt("") && read(Rebuilt(""), CSI).chars == ""
    ensures var sent := Run(read, Fresh(""), TypingWhileItWaits()).sent;
            sent != [] && Last(sent).kind == Retry("a")
            && Last(sent).tracker == read(read(Rebuilt(""), CSI), PASTE_END)
  {
    var events, submission := TypingWhileItWaits(), Submission("a", false, "", false);
    var s1 := Step(read, Fresh(""), events[0]);
    assert s1.stage == Settling(submission);
    var s2 := Step(read, s1, events[1]);
    assert s2.stage == Confirming(submission, 0) && s2.tracker == Rebuilt("") && s2.goingIn && s2.held == [];
    var s3 := Step(read, s2, events[2]);
    assert s3.held == [CSI];
    UnfinishedSequenceIsRetried(read, s3, submission);
    UnrollFour(read, Fresh(""), events);
  }

  lemma {:induction false} UnrollFour(read: Keyboard, s: State, events: seq<Event>)
    requires |events| == 4
    ensures Run(read, s, events) == Step(read, Step(read, Step(read, Step(read, s, events[0]), events[1]), events[2]), events[3])
  {
    var s1 := Step(read, s, events[0]);
    var s2 := Step(read, s1, events[1]);
    var s3 := Step(read, s2, events[2]);
    var s4 := Step(read, s3, events[3]);
    assert Run(read, s, events) == Run(read, s1, events[1..]);
    assert Run(read, s1, events[1..]) == Run(read, s2, events[1..][1..]) && events[1..][1..] == events[2..];
    assert Run(read, s2, events[2..]) == Run(read, s3, events[2..][1..]) && events[2..][1..] == events[3..];
    assert events[3..][0] == events[3] && events[3..][1..] == [];
    assert Run(read, s3, events[3..]) == Run(read, s4, []);
  }

  lemma {:induction false} UnfinishedSequenceIsRetried(read: Keyboard, s: State, submission: Submission)
    requires s.stage == Confirming(submission, 0) && !submission.typingGivenBack && s.held == [CSI]
    requires read(s.tracker, CSI).chars == ""
    ensures var after := Retried(read, s, submission, 0, true);
            && after.sent != [] && Last(after.sent).kind == Retry(submission.prompt)
            && Last(after.sent).tracker == read(read(s.tracker, CSI), PASTE_END)
  {
    var freed := s.(goingIn := false, held := []);
    var typed := Wrote(read, freed, Typing, CSI);
    assert [CSI][1..] == [];
    assert WroteAll(read, typed, []) == typed;
    assert WroteAll(read, freed, [CSI]) == WroteAll(read, typed, [CSI][1..]);
    assert GiveTypingBack(read, s) == Wrote(read, freed, Typing, CSI);
  }

  /** The event ends the submission with its prompt gone in, as far as can be told. */
  predicate Lands(s: State, event: Event) {
    match event
    case PasteSettled(blocked, checkable) =>
      s.stage.Settling? && !blocked && (s.stage.submission.queue || !checkable)
    case LandingPolled(finding, _) => s.stage.Confirming? && finding == Taken
    case _ => false
  }

  /** What is in the tracked draft once the event has pressed its key: nothing, after a queued prompt's Tab. */
  function LeftBy(read: Keyboard, s: State, event: Event): string {
    if event.PasteSettled? && s.stage.Settling? then
      if s.stage.submission.queue then "" else read(s.tracker, "\r").chars
    else s.tracker.chars
  }

  /**
   While a submission is under way an event puts its draft back if and only if the prompt lands by it, there
   was a draft, and nothing is left in the composer.
   */
  lemma {:induction false} StepPutsBackIff(read: Keyboard, s: State, event: Event, typed: seq<string>)
    requires Sound(read, s, typed) && !s.stage.Idle?
    ensures var going := LastGoing(Step(read, s, event).sent);
            && going.Some?
            && (going.value.putBack <==> Lands(s, event) && s.stage.submission.heldDraft != "" && LeftBy(read, s, event) == "")
  {
    StepIsSound(read, s, event, typed);
    match event
    case Typed(text) =>
      OneMore(read, s.sent, Sent(Typing, text, s.tracker));
    case WrittenDirectly(text) => OneMore(read, s.sent, Sent(Direct, text, s.tracker));
    case DraftPushed(_) =>
    case Submitted(_, _, _) =>
    case PasteSettled(blocked, checkable) =>
      if s.stage.Settling? {
        SettlingPutsBackIff(read, s, blocked, checkable, typed);
      }
    case LandingPolled(finding, sourceExists) =>
      if s.stage.Confirming? {
        PollingPutsBackIff(read, s, finding, sourceExists, typed);
      }
    case Abandoned => EndingLeaves(read, s, s.stage.submission);
  }

  /** A submission that ends without landing leaves the draft cleared. */
  lemma {:induction false} EndingLeaves(read: Keyboard, s: State, submission: Submission)
    requires Tidy(read, s)
    ensures LastGoing(Ended(read, s, submission, false).sent) == LastGoing(s.sent)
  {
    if !submission.typingGivenBack {
      GivingBackDelivers(read, s);
    }
  }

  lemma {:induction false} SubmittingIsGoing(read: Keyboard, s: State, key: string, typed: seq<string>)
    requires Sound(read, s, typed) && s.stage.Settling?
    ensures var submitted := Wrote(read, s, Submit, key);
            Tidy(read, submitted) && LastGoing(submitted.sent) == Some(Going(s.stage.submission.heldDraft, true, false))
  {
    QuietWrite(read, s, Submit, key);
    assert Front(s.sent + [Sent(Submit, key, s.tracker)]) == s.sent;
  }

  lemma {:induction false} SettlingPutsBackIff(read: Keyboard, s: State, blocked: bool, checkable: bool, typed: seq<string>)
    requires Sound(read, s, typed) && s.stage.Settling?
    ensures var event := PasteSettled(blocked, checkable);
            var going := LastGoing(Step(read, s, event).sent);
            && going.Some?
            && (going.value.putBack <==> Lands(s, event) && s.stage.submission.heldDraft != "" && LeftBy(read, s, event) == "")
  {
    var submission := s.stage.submission;
    if blocked {
      EndingLeaves(read, s.(tracker := Rebuilt(submission.heldDraft)), submission);
    } else {
      var submitted := Wrote(read, s, Submit, if submission.queue then "\t" else "\r");
      SubmittingIsGoing(read, s, if submission.queue then "\t" else "\r", typed);
      if submission.queue {
        EndingPutsBackIff(read, submitted.(tracker := EMPTY), submission, true);
      } else if !checkable {
        EndingPutsBackIff(read, submitted, submission, true);
      }
    }
  }

  lemma {:induction false} PollingPutsBackIff(read: Keyboard, s: State, finding: Finding, sourceExists: bool, typed: seq<string>)
    requires Sound(read, s, typed) && s.stage.Confirming?
    ensures var event := LandingPolled(finding, sourceExists);
            var going := LastGoing(Step(read, s, event).sent);
            && going.Some?
            && (going.value.putBack <==> Lands(s, event) && s.stage.submission.heldDraft != "" && LeftBy(read, s, event) == "")
  {
    match finding
    case Taken => EndingPutsBackIff(read, s, s.stage.submission, true);
    case Exited => EndingLeaves(read, s, s.stage.submission);
    case Blocked => MissingLeaves(read, s, sourceExists, typed);
    case Waiting(holdOver, timeUp) =>
      RetryingIsSound(read, s, holdOver, typed);
      if timeUp {
        MissingLeaves(read, Retried(read, s, s.stage.submission, s.stage.presses, holdOver), sourceExists, typed);
      }
  }

  lemma {:induction false} MissingLeaves(read: Keyboard, s: State, sourceExists: bool, typed: seq<string>)
    requires Sound(read, s, typed) && s.stage.Confirming?
    ensures LastGoing(Missing(read, s, s.stage.submission, sourceExists).sent) == LastGoing(s.sent)
  {
    var submission := s.stage.submission;
    var restored := if sourceExists && s.tracker.chars == "" then s.(tracker := Rebuilt(submission.prompt)) else s;
    EndingLeaves(read, restored, submission);
  }

  // ---- a prompt that does not land ----

  /** The tracker after these were typed one by one. */
  function TypedOnto(read: Keyboard, t: Tracker, texts: seq<string>): Tracker
    decreases |texts|
  {
    if texts == [] then t else TypedOnto(read, read(t, texts[0]), texts[1..])
  }

  lemma {:induction false} WritingTypes(read: Keyboard, s: State, texts: seq<string>)
    ensures WroteAll(read, s, texts).tracker == TypedOnto(read, s.tracker, texts)
    decreases |texts|
  {
    if texts != [] {
      WritingTypes(read, Wrote(read, s, Typing, texts[0]), texts[1..]);
    }
  }

  /** A dialog over the paste: nothing is pressed, and the draft is the one from before, with the typing since. */
  lemma {:induction false} BlockedPasteIsTakenBack(read: Keyboard, s: State, checkable: bool, typed: seq<string>)
    requires Sound(read, s, typed) && s.stage.Settling?
    ensures var after := Step(read, s, PasteSettled(true, checkable));
            && after.stage.Idle? && !after.goingIn && LastGoing(after.sent) == LastGoing(s.sent)
            && after.tracker == TypedOnto(read, Rebuilt(s.stage.submission.heldDraft), s.held)
  {
    var submission := s.stage.submission;
    var restored := s.(tracker := Rebuilt(submission.heldDraft));
    GivingBackDelivers(read, restored);
    WritingTypes(read, restored.(goingIn := false, held := []), s.held);
  }

  /**
   A prompt that nothing shows to have gone in stays as the draft, if there is a way to tell and no other text
   is in the tracker; the typing since then goes onto that.
   */
  lemma {:induction false} MissingPromptStaysAsDraft(read: Keyboard, s: State, sourceExists: bool, typed: seq<string>)
    requires Sound(read, s, typed) && s.stage.Confirming?
    ensures var after := Step(read, s, LandingPolled(Blocked, sourceExists));
            var left := if sourceExists && s.tracker.chars == "" then Rebuilt(s.stage.submission.prompt) else s.tracker;
            && after.stage.Idle? && !after.goingIn && LastGoing(after.sent) == LastGoing(s.sent)
            && after.tracker == TypedOnto(read, left, s.held)
  {
    var submission := s.stage.submission;
    var restored := if sourceExists && s.tracker.chars == "" then s.(tracker := Rebuilt(submission.prompt)) else s;
    if !submission.typingGivenBack {
      GivingBackDelivers(read, restored);
      WritingTypes(read, restored.(goingIn := false, held := []), s.held);
    }
  }

  function Retries(sent: seq<Sent>): nat {
    if sent == [] then 0 else Retries(Front(sent)) + if Last(sent).kind.Retry? then 1 else 0
  }

  lemma {:induction false} RetriesOneMore(sent: seq<Sent>, entry: Sent)
    ensures Retries(sent + [entry]) == Retries(sent) + if entry.kind.Retry? then 1 else 0
  {
    assert Front(sent + [entry]) == sent;
  }

  lemma {:induction false} TypingIsNoRetry(read: Keyboard, s: State, texts: seq<string>)
    ensures Retries(WroteAll(read, s, texts).sent) == Retries(s.sent)
    decreases |texts|
  {
    if texts != [] {
      RetriesOneMore(s.sent, Sent(Typing, texts[0], s.tracker));
      TypingIsNoRetry(read, Wrote(read, s, Typing, texts[0]), texts[1..]);
    }
  }

  /**
   A prompt still waiting: once the hold is over the typing is given back and is held no more, before that it
   stays held; then Enter is pressed once more if and only if the draft is empty or the prompt.
   */
  lemma {:induction false} WaitingGivesBackAndPresses(read: Keyboard, s: State, holdOver: bool, typed: seq<string>)
    requires Sound(read, s, typed) && s.stage.Confirming?
    ensures var after := Step(read, s, LandingPolled(Waiting(holdOver, false), true));
            var prompt := s.stage.submission.prompt;
            var left := if holdOver then TypedOnto(read, s.tracker, s.held) else s.tracker;
            && (if holdOver then !after.goingIn && after.held == [] else after.goingIn == s.goingIn && after.held == s.held)
            && after.stage.Confirming?
            && if left.chars == "" || left.chars == prompt then
                 && Retries(after.sent) == Retries(s.sent) + 1
                 && EndsWithPress(after.sent, prompt, s.stage.presses == 0)
               else Retries(after.sent) == Retries(s.sent)
  {
    RetryingActs(read, s, s.stage.submission, s.stage.presses, holdOver);
  }

  lemma {:induction false} RetryingActs(read: Keyboard, s: State, submission: Submission, presses: nat, holdOver: bool)
    requires Tidy(read, s) && (submission.typingGivenBack ==> !s.goingIn && s.held == [])
    ensures var after := Retried(read, s, submission, presses, holdOver);
            var left := if holdOver then TypedOnto(read, s.tracker, s.held) else s.tracker;
            && (if holdOver then !after.goingIn && after.held == [] else after.goingIn == s.goingIn && after.held == s.held)
            && after.stage.Confirming?
            && if MayPress(s.(tracker := left), submission.prompt) then
                 && Retries(after.sent) == Retries(s.sent) + 1
                 && EndsWithPress(after.sent, submission.prompt, presses == 0)
               else Retries(after.sent) == Retries(s.sent)
  {
    if holdOver && !submission.typingGivenBack {
      GivingBackTypes(read, s);
      PressingIfAllowed(read, GiveTypingBack(read, s), submission.(typingGivenBack := true), presses);
    } else {
      PressingIfAllowed(read, s, submission, presses);
    }
  }

  lemma {:induction false} PressingIfAllowed(read: Keyboard, s: State, submission: Submission, presses: nat)
    ensures var after := PressedIfAllowed(read, s, submission, presses);
            && after.goingIn == s.goingIn && after.held == s.held && after.stage.Confirming?
            && if MayPress(s, submission.prompt) then
                 && Retries(after.sent) == Retries(s.sent) + 1
                 && EndsWithPress(after.sent, submission.prompt, presses == 0)
               else Retries(after.sent) == Retries(s.sent)
  {
    PressingIsOneRetry(read, s, submission.prompt, presses);
  }

  lemma {:induction false} GivingBackTypes(read: Keyboard, s: State)
    requires Tidy(read, s)
    ensures var after := GiveTypingBack(read, s);
            && !after.goingIn && after.held == [] && after.stage == s.stage
            && after.tracker == TypedOnto(read, s.tracker, s.held) && Retries(after.sent) == Retries(s.sent)
  {
    var freed := s.(goingIn := false, held := []);
    GivingBackDelivers(read, s);
    TypingIsNoRetry(read, freed, s.held);
    WritingTypes(read, freed, s.held);
  }

  /** Enter was pressed last, and the first time the paste was closed right before it. */
  predicate EndsWithPress(sent: seq<Sent>, prompt: string, first: bool) {
    && sent != [] && Last(sent).kind == Retry(prompt) && Last(sent).text == "\r"
    && (first ==> |sent| > 1 && sent[|sent| - 2].kind == ClosePaste(prompt) && sent[|sent| - 2].text == PASTE_END)
  }

  lemma {:induction false} PressingIsOneRetry(read: Keyboard, s: State, prompt: string, presses: nat)
    ensures EndsWithPress(Pressed(read, s, prompt, presses).sent, prompt, presses == 0)
    ensures Retries(Pressed(read, s, prompt, presses).sent) == Retries(s.sent) + 1
    ensures var after := Pressed(read, s, prompt, presses); after.goingIn == s.goingIn && after.held == s.held
  {
    var closed := if presses == 0 then Wrote(read, s, ClosePaste(prompt), PASTE_END) else s;
    if presses == 0 {
      RetriesOneMore(s.sent, Sent(ClosePaste(prompt), PASTE_END, s.tracker));
    }
    RetriesOneMore(closed.sent, Sent(Retry(prompt), "\r", closed.tracker));
  }

  // ---- a whole submission ----

  predicate HasNoEscape(s: string) {
    forall i :: 0 <= i < |s| ==> s[i] != ESC
  }

  lemma {:induction false} NothingPendingWithoutEscape(s: string, chars: string, inPaste: bool)
    requires HasNoEscape(s)
    ensures var t := Scan(s, chars, inPaste); t.pending == "" && t.inPaste == inPaste
    decreases |s|
  {
    if s != "" {
      NothingPendingWithoutEscape(s[1..], ApplyKey(s[0], chars, inPaste), inPaste);
    }
  }

  lemma {:induction false} ThenScan(a: string, b: string, chars: string, inPaste: bool)
    requires HasNoEscape(a)
    ensures Scan(a + b, chars, inPaste) == Scan(b, Scan(a, chars, inPaste).chars, inPaste)
  {
    NothingPendingWithoutEscape(a, chars, inPaste);
    DraftStreams.ScanInTwo(a, b, chars, inPaste);
    assert "" + b == b;
  }

  /** A prompt without ESC leaves no paste open and nothing pending, bracketed or not. */
  lemma {:induction false} PayloadIsClosed(prompt: string, bracketed: bool, draft: string)
    requires HasNoEscape(prompt)
    ensures var t := Feed(Rebuilt(draft), Payload(prompt, bracketed)); t.pending == "" && !t.inPaste
  {
    var text := Payload(prompt, bracketed);
    assert "" + text == text;
    if bracketed && prompt != "" {
      BracketedIsClosed(prompt, draft);
    } else {
      NothingPendingWithoutEscape(text, draft, false);
    }
  }

  lemma {:induction false} BracketedIsClosed(prompt: string, draft: string)
    requires HasNoEscape(prompt)
    ensures var t := Scan([CTRL_KILL_LINE] + (PASTE_START + prompt + PASTE_END), draft, false); t.pending == "" && !t.inPaste
  {
    var line := Scan([CTRL_KILL_LINE], draft, false).chars;
    var pasted := Scan(prompt, line, true).chars;
    ThenScan([CTRL_KILL_LINE], PASTE_START + prompt + PASTE_END, draft, false);
    assert PASTE_START + prompt + PASTE_END == PASTE_START + (prompt + PASTE_END);
    DraftStreams.PasteMarkerIsRead(PASTE_START, prompt + PASTE_END, line, false);
    ThenScan(prompt, PASTE_END, line, true);
    assert PASTE_END + "" == PASTE_END && PASTE_START[4] != PASTE_END[4];
    DraftStreams.PasteMarkerIsRead(PASTE_END, "", pasted, true);
  }

  /** The steps of a prompt that goes in undisturbed, queued or not. */
  function Undisturbed(prompt: string, bracketed: bool, queue: bool): seq<Event> {
    [Submitted(prompt, bracketed, queue), PasteSettled(false, true)] + if queue then [] else [LandingPolled(Taken, true)]
  }

  /**
   A prompt going in undisturbed over a draft: the line is cleared and the prompt pasted, Enter or Tab is
   pressed, and the draft is put back, so that the composer holds what it held before.
   */
  lemma {:induction false} SubmissionKeepsDraft(draft: string, prompt: string, bracketed: bool, queue: bool)
    requires draft != "" && DraftStreams.Retypable(draft)
    requires HasNoEscape(prompt) && |prompt| <= DRAFT_MAX_CHARS
    ensures var after := Run(Reading(queue), Fresh(draft), Undisturbed(prompt, bracketed, queue));
            && after.tracker == Tracker(draft, "", false)
            && after.stage.Idle? && !after.goingIn
            && |after.sent| == 3
            && after.sent[0].text == [CTRL_KILL_LINE] + (if bracketed && prompt != "" then PASTE_START + prompt + PASTE_END
                                                         else prompt)
            && after.sent[1].text == (if queue then "\t" else "\r")
            && after.sent[2].text == DraftStreams.PutBack(draft)
  {
    var read := Reading(queue);
    var pasted := Feed(Rebuilt(draft), Payload(prompt, bracketed));
    PayloadIsClosed(prompt, bracketed, draft);
    EnterEmpties(pasted);
    DraftStreams.PutBackRebuilds(draft);
    UndisturbedRun(read, draft, prompt, bracketed, queue);
  }

  lemma {:induction false} EnterEmpties(t: Tracker)
    requires t.pending == "" && !t.inPaste
    ensures Feed(t, "\r") == EMPTY
  {
    assert "" + "\r" == ['\r'];
    DraftStreams.KeyAlone('\r', t.chars, t.inPaste);
  }

  lemma {:induction false} UndisturbedRun(read: Keyboard, draft: string, prompt: string, bracketed: bool, queue: bool)
    requires draft != "" && |prompt| <= DRAFT_MAX_CHARS
    requires read(read(Rebuilt(draft), Payload(prompt, bracketed)), if queue then "\t" else "\r") == EMPTY
    ensures var after := Run(read, Fresh(draft), Undisturbed(prompt, bracketed, queue));
            && after.tracker == read(EMPTY, DraftStreams.PutBack(draft)) && after.stage.Idle? && !after.goingIn
            && |after.sent| == 3
            && after.sent[0].text == Payload(prompt, bracketed)
            && after.sent[1].text == (if queue then "\t" else "\r")
            && after.sent[2].text == DraftStreams.PutBack(draft)
  {
    var events := Undisturbed(prompt, bracketed, queue);
    var s1 := Step(read, Fresh(draft), events[0]);
    var s2 := Step(read, s1, events[1]);
    assert Run(read, Fresh(draft), events) == Run(read, s1, events[1..]);
    assert events[1..][1..] == events[2..];
    assert Run(read, s1, events[1..]) == Run(read, s2, events[2..]);
    assert s1.stage == Settling(Submission(prompt, queue, draft, false)) && s1.held == [];
    if !queue {
      assert s2.stage == Confirming(Submission(prompt, queue, draft, false), 0) && s2.held == [];
      assert events[2..][1..] == [];
      assert Run(read, s2, events[2..]) == Step(read, s2, events[2]);
    }
  }
}

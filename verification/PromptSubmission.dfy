/**
 Prompts going into a terminal one at a time while a person may be typing in it.  A submission runs between
 its awaits as one step; what the person types meanwhile is held until the prompt is in, or until they have
 waited long enough.
 */
module PromptSubmission {
  import opened DraftTracker
  import DraftStreams

  /** Why something was written to the terminal; what presses for a prompt names it. */
  datatype Kind =
    | Typing
    | Direct
    | Paste
    | Submit
    | ClosePaste(prompt: string)
    | Retry(prompt: string)
    | PutBack

  /** Something written to the terminal, and the draft tracker when it was. */
  datatype Sent = Sent(kind: Kind, text: string, tracker: Tracker)

  datatype Submission = Submission(prompt: string, queue: bool, heldDraft: string, typingGivenBack: bool)

  /** Where the submission that holds the lock is suspended. */
  datatype Stage =
    | Idle
    | Settling(submission: Submission)
    | Confirming(submission: Submission, presses: nat)

  /** The tracked draft is also the recorded one. */
  datatype State = State(tracker: Tracker, goingIn: bool, held: seq<string>, sent: seq<Sent>, stage: Stage)

  /** What the tracker makes of something written to the terminal. */
  type Keyboard = (Tracker, string) -> Tracker

  /** For an agent with a prompt queue, Tab queues what is in the composer. */
  function Reading(hasQueue: bool): Keyboard {
    (t: Tracker, text: string) => if text == "\t" && hasQueue then EMPTY else Feed(t, text)
  }

  function Rebuilt(draft: string): Tracker {
    Tracker(draft, "", false)
  }

  function Wrote(read: Keyboard, s: State, kind: Kind, text: string): State {
    s.(sent := s.sent + [Sent(kind, text, s.tracker)], tracker := read(s.tracker, text))
  }

  function UserInput(read: Keyboard, s: State, text: string): State {
    if s.goingIn then s.(held := s.held + [text]) else Wrote(read, s, Typing, text)
  }

  function WroteAll(read: Keyboard, s: State, texts: seq<string>): State
    decreases |texts|
  {
    if texts == [] then s else WroteAll(read, Wrote(read, s, Typing, texts[0]), texts[1..])
  }

  function GiveTypingBack(read: Keyboard, s: State): State {
    WroteAll(read, s.(goingIn := false, held := []), s.held)
  }

  /** What is typed to put a draft back; someone who typed meanwhile has text of theirs in the composer. */
  function PutDraftBack(read: Keyboard, s: State, draft: string): State {
    if s.tracker.chars != "" then s else Wrote(read, s, PutBack, DraftStreams.PutBack(draft))
  }

  function Release(read: Keyboard, s: State, submission: Submission, landed: bool): State {
    var put := if landed && submission.heldDraft != "" then PutDraftBack(read, s, submission.heldDraft) else s;
    if submission.typingGivenBack then put else GiveTypingBack(read, put)
  }

  function Ended(read: Keyboard, s: State, submission: Submission, landed: bool): State {
    Release(read, s, submission, landed).(stage := Idle)
  }

  // ---- the steps of a submission ----

  function Payload(prompt: string, bracketed: bool): string {
    [CTRL_KILL_LINE] + (if prompt == "" then "" else if bracketed then PASTE_START + prompt + PASTE_END else prompt)
  }

  /** Up to the wait for the paste to settle. */
  function Begun(read: Keyboard, s: State, prompt: string, bracketed: bool, queue: bool): State {
    var submission := Submission(Normalized(prompt), queue, s.tracker.chars, false);
    Wrote(read, s.(goingIn := true), Paste, Payload(Normalized(prompt), bracketed)).(stage := Settling(submission))
  }

  /** From there to the first wait for the prompt to land, or to the end. */
  function Settled(read: Keyboard, s: State, submission: Submission, blocked: bool, checkable: bool): State {
    if blocked then Ended(read, s.(tracker := Rebuilt(submission.heldDraft)), submission, false)
    else if submission.queue then
      Ended(read, Wrote(read, s, Submit, "\t").(tracker := EMPTY), submission, true)
    else
      var submitted := Wrote(read, s, Submit, "\r");
      if checkable then submitted.(stage := Confirming(submission, 0)) else Ended(read, submitted, submission, true)
  }

  /** What a poll finds; only a prompt still waiting for the agent goes on, unless the time is up. */
  datatype Finding = Taken | Exited | Blocked | Waiting(holdOver: bool, timeUp: bool)

  predicate MayPress(s: State, prompt: string) {
    s.tracker.chars == "" || s.tracker.chars == prompt
  }

  function Pressed(read: Keyboard, s: State, prompt: string, presses: nat): State {
    var closed := if presses == 0 then Wrote(read, s, ClosePaste(prompt), PASTE_END) else s;
    Wrote(read, closed, Retry(prompt), "\r")
  }

  function Missing(read: Keyboard, s: State, submission: Submission, sourceExists: bool): State {
    var restored := if sourceExists && s.tracker.chars == "" then s.(tracker := Rebuilt(submission.prompt)) else s;
    Ended(read, restored, submission, false)
  }

  function PressedIfAllowed(read: Keyboard, s: State, submission: Submission, presses: nat): State {
    if MayPress(s, submission.prompt) then
      Pressed(read, s, submission.prompt, presses).(stage := Confirming(submission, presses + 1))
    else s.(stage := Confirming(submission, presses))
  }

  /** A prompt not taken yet: the typing may go back, and Enter is pressed again if nothing else is there. */
  function Retried(read: Keyboard, s: State, submission: Submission, presses: nat, holdOver: bool): State {
    var giveBack := holdOver && !submission.typingGivenBack;
    var after := if giveBack then GiveTypingBack(read, s) else s;
    var later := if giveBack then submission.(typingGivenBack := true) else submission;
    PressedIfAllowed(read, after, later, presses)
  }

  function Polled(read: Keyboard, s: State, submission: Submission, presses: nat, finding: Finding, sourceExists: bool): State {
    match finding
    case Taken => Ended(read, s, submission, true)
    case Exited => Ended(read, s, submission, false)
    case Blocked => Missing(read, s, submission, sourceExists)
    case Waiting(holdOver, timeUp) =>
      var retried := Retried(read, s, submission, presses, holdOver);
      if timeUp then Missing(read, retried, retried.stage.submission, sourceExists) else retried
  }

  class PromptComposer {
    const hasQueue: bool
    var tracker: Tracker
    var promptGoingIn: bool
    var heldUserInput: seq<string>
    var sent: seq<Sent>
    var stage: Stage

    constructor (hasQueue: bool, draft: string)
      ensures this.hasQueue == hasQueue && Now() == State(Rebuilt(draft), false, [], [], Idle)
    {
      this.hasQueue := hasQueue;
      tracker, promptGoingIn, heldUserInput, sent, stage := Rebuilt(draft), false, [], [], Idle;
    }

    function Now(): State
      reads this
    {
      State(tracker, promptGoingIn, heldUserInput, sent, stage)
    }

    method WriteInput(kind: Kind, text: string)
      modifies this`sent, this`tracker
      ensures Now() == Wrote(Reading(hasQueue), old(Now()), kind, text)
    {
      sent := sent + [Sent(kind, text, tracker)];
      tracker := Feed(tracker, text);
      if text == "\t" && hasQueue {
        tracker := EMPTY;
      }
    }

    method WriteUserInput(text: string)
      modifies this
      ensures Now() == UserInput(Reading(hasQueue), old(Now()), text)
    {
      if promptGoingIn {
        heldUserInput := heldUserInput + [text];
        return;
      }
      WriteInput(Typing, text);
    }

    method GiveBack()
      modifies this
      ensures Now() == GiveTypingBack(Reading(hasQueue), old(Now()))
    {
      var held := heldUserInput;
      promptGoingIn, heldUserInput := false, [];
      while held != []
        invariant WroteAll(Reading(hasQueue), Now(), held) == GiveTypingBack(Reading(hasQueue), old(Now()))
        decreases |held|
      {
        WriteInput(Typing, held[0]);
        held := held[1..];
      }
    }

    method ReleaseComposer(submission: Submission, landed: bool)
      modifies this
      ensures Now() == Release(Reading(hasQueue), old(Now()), submission, landed)
    {
      if landed && submission.heldDraft != "" && tracker.chars == "" {
        WriteInput(PutBack, DraftStreams.PutBack(submission.heldDraft));
      }
      if !submission.typingGivenBack {
        GiveBack();
      }
    }

    method SubmitPrompt(prompt: string, bracketed: bool, queue: bool)
      requires stage.Idle?
      modifies this
      ensures Now() == Begun(Reading(hasQueue), old(Now()), prompt, bracketed, queue && hasQueue)
    {
      var normalized := Normalized(prompt);
      var heldDraft := tracker.chars;
      promptGoingIn := true;
      WriteInput(Paste, Payload(normalized, bracketed));
      stage := Settling(Submission(normalized, queue && hasQueue, heldDraft, false));
    }

    method ResumeSettled(blocked: bool, checkable: bool)
      requires stage.Settling?
      modifies this
      ensures Now() == Settled(Reading(hasQueue), old(Now()), old(stage).submission, blocked, checkable)
    {
      var submission := stage.submission;
      var landed := !blocked;
      if blocked {
        tracker := Rebuilt(submission.heldDraft);
      } else if submission.queue {
        WriteInput(Submit, "\t");
        tracker := EMPTY;
      } else {
        WriteInput(Submit, "\r");
        if checkable {
          stage := Confirming(submission, 0);
          return;
        }
      }
      ReleaseComposer(submission, landed);
      stage := Idle;
    }

    method PressAgain(prompt: string, presses: nat)
      modifies this
      ensures Now() == Pressed(Reading(hasQueue), old(Now()), prompt, presses)
    {
      if presses == 0 {
        WriteInput(ClosePaste(prompt), PASTE_END);
      }
      WriteInput(Retry(prompt), "\r");
    }

    method RetryPrompt(holdOver: bool)
      requires stage.Confirming?
      modifies this
      ensures Now() == Retried(Reading(hasQueue), old(Now()), old(stage).submission, old(stage).presses, holdOver)
    {
      var Confirming(submission, presses) := stage;
      if holdOver && !submission.typingGivenBack {
        GiveBack();
        submission := submission.(typingGivenBack := true);
      }
      if tracker.chars == "" || tracker.chars == submission.prompt {
        PressAgain(submission.prompt, presses);
        presses := presses + 1;
      }
      stage := Confirming(submission, presses);
    }

    method GiveUp(sourceExists: bool)
      requires stage.Confirming?
      modifies this
      ensures Now() == Missing(Reading(hasQueue), old(Now()), old(stage).submission, sourceExists)
    {
      var submission := stage.submission;
      if sourceExists && tracker.chars == "" {
        tracker := Rebuilt(submission.prompt);
      }
      ReleaseComposer(submission, false);
      stage := Idle;
    }

    /** The submission is cancelled, or fails, at an await: only the finally clause still runs. */
    method Abandon()
      requires !stage.Idle?
      modifies this
      ensures Now() == Ended(Reading(hasQueue), old(Now()), old(stage).submission, false)
    {
      ReleaseComposer(stage.submission, false);
      stage := Idle;
    }

    method ResumePolled(finding: Finding, sourceExists: bool)
      requires stage.Confirming?
      modifies this
      ensures Now() == Polled(Reading(hasQueue), old(Now()), old(stage).submission, old(stage).presses, finding, sourceExists)
    {
      match finding
      case Taken =>
        ReleaseComposer(stage.submission, true);
        stage := Idle;
      case Exited =>
        ReleaseComposer(stage.submission, false);
        stage := Idle;
      case Blocked =>
        GiveUp(sourceExists);
      case Waiting(holdOver, timeUp) =>
        RetryPrompt(holdOver);
        if timeUp {
          GiveUp(sourceExists);
        }
    }
  }
}

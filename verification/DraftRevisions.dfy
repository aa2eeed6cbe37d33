/**
 A session's draft, pushed from windows and changed by the session itself: every change moves a revision, a
 push made from a copy the draft has moved past is refused, and the history is given every text the draft
 replaces, is replaced by or refuses.
 */
module DraftRevisions {
  import opened Wrappers
  import DraftTracker
  import opened FileHistory
  import opened FileHistoryRetention

  datatype State = State(draft: string, revision: nat, history: Table)

  /** What every window is told after a push or a change. */
  datatype Message = Message(draft: string, revision: nat, conflict: bool)

  function Applied(cap: nat, file: File, s: State, draft: string, now: real): State {
    State(draft, s.revision + 1, Written(cap, s.history, file, s.draft, draft, now).0)
  }

  predicate Conflicts(s: State, base: Option<int>) {
    base.Some? && s.revision != 0 && base.value != s.revision
  }

  function Pushed(cap: nat, file: File, s: State, draft: string, base: Option<int>, now: real): (State, Message) {
    var normalized := DraftTracker.Normalized(draft);
    if normalized == s.draft then (s, Message(s.draft, s.revision, false))
    else if Conflicts(s, base) then
      (s.(history := Recorded(cap, s.history, file, normalized, Refused, now).0), Message(s.draft, s.revision, true))
    else
      (Applied(cap, file, s, normalized, now), Message(normalized, s.revision + 1, false))
  }

  class ManagedDraft {
    const file: File
    const history: FileHistoryService
    var draft: string
    var revision: nat

    constructor (file: File, history: FileHistoryService, draft: string, revision: nat)
      ensures this.file == file && this.history == history && this.draft == draft && this.revision == revision
    {
      this.file, this.history, this.draft, this.revision := file, history, draft, revision;
    }

    function Now(): State
      reads this, history
    {
      State(draft, revision, Table(history.rows, history.nextId))
    }

    method ApplyDraftChange(newDraft: string, now: real) returns (told: Message)
      modifies this, history
      ensures Now() == Applied(history.maxVersionsPerFile, file, old(Now()), newDraft, now)
      ensures told == Message(draft, revision, false)
    {
      var previous := draft;
      draft := newDraft;
      revision := revision + 1;
      var _ := history.RecordWrite(file, previous, newDraft, now);
      told := Message(newDraft, revision, false);
    }

    method SetDraft(pushed: string, base: Option<int>, now: real) returns (told: Message)
      modifies this, history
      ensures (Now(), told) == Pushed(history.maxVersionsPerFile, file, old(Now()), pushed, base, now)
    {
      var normalized := DraftTracker.Normalized(pushed);
      if normalized == draft {
        return Message(normalized, revision, false);
      }
      if base.Some? && revision != 0 && base.value != revision {
        var _ := history.RecordSnapshot(file, normalized, Refused, now);
        return Message(draft, revision, true);
      }
      told := ApplyDraftChange(normalized, now);
    }
  }

  // ---- runs ----

  /**
   A push from a window, a change the session makes (typing, a prompt submitted or put back), or a recording
   of another session's draft in the same history.
   */
  datatype Event =
    | Push(draft: string, base: Option<int>, now: real)
    | Change(draft: string, now: real)
    | Elsewhere(write: Write)

  function Step(cap: nat, file: File, s: State, event: Event): State {
    match event
    case Push(draft, base, now) => Pushed(cap, file, s, draft, base, now).0
    case Change(draft, now) => Applied(cap, file, s, draft, now)
    case Elsewhere(w) => s.(history := Recorded(cap, s.history, w.file, w.content, w.source, w.now).0)
  }

  function Run(cap: nat, file: File, s: State, events: seq<Event>): State
    decreases |events|
  {
    if events == [] then s else Run(cap, file, Step(cap, file, s, events[0]), events[1..])
  }

  lemma {:induction false} RevisionNeverFalls(cap: nat, file: File, s: State, events: seq<Event>)
    ensures Run(cap, file, s, events).revision >= s.revision
    decreases |events|
  {
    if events != [] {
      RevisionNeverFalls(cap, file, Step(cap, file, s, events[0]), events[1..]);
    }
  }

  /** As long as the revision has not moved, neither has the text. */
  lemma {:induction false} SameRevisionSameText(cap: nat, file: File, s: State, events: seq<Event>)
    requires Run(cap, file, s, events).revision == s.revision
    ensures Run(cap, file, s, events).draft == s.draft
    decreases |events|
  {
    if events != [] {
      var next := Step(cap, file, s, events[0]);
      RevisionNeverFalls(cap, file, next, events[1..]);
      SameRevisionSameText(cap, file, next, events[1..]);
    }
  }

  /**
   A push that changes the text lands if and only if it names no base, its base is the current revision, or the
   draft has none yet; otherwise draft and revision stay.  A push of the same text moves nothing.  The window
   is always told the draft and the revision there are.
   */
  lemma {:induction false} PushLandsIffCurrent(cap: nat, file: File, s: State, draft: string, base: Option<int>, now: real)
    ensures var (after, told) := Pushed(cap, file, s, draft, base, now);
            && told.draft == after.draft && told.revision == after.revision
            && if DraftTracker.Normalized(draft) == s.draft then after == s && !told.conflict
               else
                 && (!told.conflict <==> base.None? || s.revision == 0 || base.value == s.revision)
                 && (!told.conflict <==> after.draft == DraftTracker.Normalized(draft))
                 && after.revision == (if told.conflict then s.revision else s.revision + 1)
                 && (told.conflict ==> after.draft == s.draft)
  {
  }

  /**
   A window that was told a text and its revision, and later pushes from that revision, replaces exactly the
   text it was told, or is refused; it is refused only when the draft has changed since.
   */
  lemma {:induction false} PushReplacesWhatTheWindowSaw(cap: nat, file: File, told: State, events: seq<Event>,
                                                        draft: string, now: real)
    ensures var current := Run(cap, file, told, events);
            var message := Pushed(cap, file, current, draft, Some(told.revision), now).1;
            && (!message.conflict && DraftTracker.Normalized(draft) != current.draft ==> current.draft == told.draft)
            && (message.conflict ==> current.revision > told.revision)
  {
    RevisionNeverFalls(cap, file, told, events);
    var current := Run(cap, file, told, events);
    if current.revision == told.revision {
      SameRevisionSameText(cap, file, told, events);
    }
  }

  // ---- the history ----

  /** What an event records, in order. */
  function Writes(cap: nat, file: File, s: State, event: Event): seq<Write> {
    match event
    case Change(draft, now) => ChangeWrites(cap, file, s, draft, now)
    case Elsewhere(w) => [w]
    case Push(draft, base, now) =>
      var normalized := DraftTracker.Normalized(draft);
      if normalized == s.draft then []
      else if Conflicts(s, base) then [Write(file, normalized, Refused, now)]
      else ChangeWrites(cap, file, s, normalized, now)
  }

  function ChangeWrites(cap: nat, file: File, s: State, draft: string, now: real): seq<Write> {
    (if IsLatest(s.history, file, s.draft) then []
     else [Write(file, s.draft, if Latest(s.history.rows, file).Some? then External else Opened, now)])
    + [Write(file, draft, Manual, now)]
  }

  function AllWrites(cap: nat, file: File, s: State, events: seq<Event>): seq<Write>
    decreases |events|
  {
    if events == [] then []
    else Writes(cap, file, s, events[0]) + AllWrites(cap, file, Step(cap, file, s, events[0]), events[1..])
  }

  lemma {:induction false} RunOne(cap: nat, table: Table, w: Write)
    ensures FileHistoryRetention.Run(cap, table, [w]) == Recorded(cap, table, w.file, w.content, w.source, w.now).0
  {
    assert [w][1..] == [];
  }

  lemma {:induction false} RunInTwo(cap: nat, table: Table, a: seq<Write>, b: seq<Write>)
    ensures FileHistoryRetention.Run(cap, table, a + b)
         == FileHistoryRetention.Run(cap, FileHistoryRetention.Run(cap, table, a), b)
    decreases |a|
  {
    if a == [] {
      assert a + b == b;
    } else {
      assert (a + b)[1..] == a[1..] + b;
      RunInTwo(cap, Recorded(cap, table, a[0].file, a[0].content, a[0].source, a[0].now).0, a[1..], b);
    }
  }

  lemma {:induction false} ChangeIsItsWrites(cap: nat, file: File, s: State, draft: string, now: real)
    ensures Applied(cap, file, s, draft, now).history
         == FileHistoryRetention.Run(cap, s.history, ChangeWrites(cap, file, s, draft, now))
  {
    var second := Write(file, draft, Manual, now);
    if IsLatest(s.history, file, s.draft) {
      RunOne(cap, s.history, second);
      assert [] + [second] == [second];
    } else {
      var first := Write(file, s.draft, if Latest(s.history.rows, file).Some? then External else Opened, now);
      RunInTwo(cap, s.history, [first], [second]);
      RunOne(cap, s.history, first);
      RunOne(cap, FileHistoryRetention.Run(cap, s.history, [first]), second);
    }
  }

  lemma {:induction false} HistoryIsItsWrites(cap: nat, file: File, s: State, events: seq<Event>)
    ensures Run(cap, file, s, events).history
         == FileHistoryRetention.Run(cap, s.history, AllWrites(cap, file, s, events))
    decreases |events|
  {
    if events != [] {
      var event := events[0];
      var next := Step(cap, file, s, event);
      StepIsItsWrites(cap, file, s, event);
      HistoryIsItsWrites(cap, file, next, events[1..]);
      RunInTwo(cap, s.history, Writes(cap, file, s, event), AllWrites(cap, file, next, events[1..]));
    }
  }

  lemma {:induction false} StepIsItsWrites(cap: nat, file: File, s: State, event: Event)
    ensures Step(cap, file, s, event).history
         == FileHistoryRetention.Run(cap, s.history, Writes(cap, file, s, event))
  {
    match event
    case Change(draft, now) =>
      ChangeIsItsWrites(cap, file, s, draft, now);
    case Elsewhere(w) =>
      RunOne(cap, s.history, w);
    case Push(draft, base, now) =>
      if Conflicts(s, base) {
        RunOne(cap, s.history, Write(file, DraftTracker.Normalized(draft), Refused, now));
      } else {
        ChangeIsItsWrites(cap, file, s, DraftTracker.Normalized(draft), now);
      }
  }

  /**
   A text the history holds stays readable however the draft, and other sessions' drafts, go on, as long as
   fewer than `cap` recordings of this draft, and no more bytes than the root keeps, have come after it.
   */
  lemma {:induction false} DraftTextStaysReadable(cap: nat, file: File, s: State, events: seq<Event>, id: nat, text: string)
    requires IdsAscend(s.history) && Holds(s.history, id, file, text)
    requires var writes := AllWrites(cap, file, s, events);
             && NewerOfFile(s.history, id, file) + AddedByAll(OfFile(file), writes) < cap
             && BytesSince(s.history, id, file.root) + AddedByAll(BytesOf(file.root), writes) <= MAX_BYTES_PER_ROOT
    ensures Holds(Run(cap, file, s, events).history, id, file, text)
  {
    HistoryIsItsWrites(cap, file, s, events);
    TextStaysReadable(cap, s.history, AllWrites(cap, file, s, events), id, file, text);
  }

  lemma {:induction false} NormalizedFits(draft: string)
    ensures ByteSize(DraftTracker.Normalized(draft)) <= MAX_BYTES_PER_ROOT
  {
    FourBytesAtMost(DraftTracker.Normalized(draft));
  }

  lemma {:induction false} FourBytesAtMost(content: string)
    ensures ByteSize(content) <= 4 * |content|
    decreases |content|
  {
    if content != [] {
      FourBytesAtMost(content[1..]);
    }
  }

  /** A text recorded as a version of its own, or that is the latest already, is held as the newest. */
  lemma {:induction false} FreshIsHeld(cap: nat, table: Table, file: File, content: string, source: Source, now: real)
    requires IdsAscend(table) && cap > 0 && source != Manual && ByteSize(content) <= MAX_BYTES_PER_ROOT
    ensures var (after, id) := Recorded(cap, table, file, content, source, now);
            Holds(after, id, file, content) && NewerOfFile(after, id, file) == 0
  {
    if IsLatest(table, file, content) {
      LatestIsFound(table.rows, file, 0, table.nextId);
    } else {
      var version := Version(table.nextId, file, content, source, now);
      var (entered, id) := Entered(table, file, content, source, now);
      EnteredAscends(table, file, content, source, now);
      AboveCeilingAbsent(table.rows, 0, table.nextId, table.nextId);
      FromOneMore(table.rows, version, id);
      assert [version][1..] == [];
      TrimKeepsExactly(cap, file, entered.rows, entered.nextId, id);
      TotalSifted(BytesOf(file.root), OverCount(file, cap), [version]);
      TrimmedRest(cap, file, [version]);
    }
  }

  /** A refused text exists nowhere else, and the history holds it. */
  lemma {:induction false} RefusedIsHeld(cap: nat, file: File, s: State, draft: string, base: Option<int>, now: real)
    requires IdsAscend(s.history) && cap > 0
    requires Pushed(cap, file, s, draft, base, now).1.conflict
    ensures exists id :: Holds(Pushed(cap, file, s, draft, base, now).0.history, id, file, DraftTracker.Normalized(draft))
  {
    NormalizedFits(draft);
    FreshIsHeld(cap, s.history, file, DraftTracker.Normalized(draft), Refused, now);
    assert Holds(Pushed(cap, file, s, draft, base, now).0.history,
                 Recorded(cap, s.history, file, DraftTracker.Normalized(draft), Refused, now).1, file, DraftTracker.Normalized(draft));
  }

  lemma {:induction false} ZeroOfFile(rows: seq<Version>, file: File)
    requires Total(OfFile(file), rows) == 0
    ensures Latest(rows, file).None?
    decreases |rows|
  {
    if rows != [] {
      ZeroOfFile(rows[1..], file);
    }
  }

  lemma {:induction false} NewestIsLatest(rows: seq<Version>, file: File, id: nat)
    requires From(rows, id) != [] && From(rows, id)[0].file == file && Total(OfFile(file), From(rows, id)[1..]) == 0
    ensures Latest(rows, file) == Some(From(rows, id)[0])
    decreases |rows|
  {
    if rows[0].id == id {
      ZeroOfFile(rows[1..], file);
    } else {
      NewestIsLatest(rows[1..], file, id);
    }
  }

  /**
   A change leaves both the text it replaced and the text it brought held, as long as the versions recorded
   since the replaced one leave room in the root.
   */
  lemma {:induction false} BothTextsAreHeld(cap: nat, file: File, s: State, draft: string, now: real)
      returns (before: nat, after: nat)
    requires IdsAscend(s.history) && cap > 1 && ByteSize(s.draft) <= MAX_BYTES_PER_ROOT
    requires var (observed, id) := Observed(cap, s.history, file, s.draft, now);
             BytesSince(observed, id, file.root) + ByteSize(draft) <= MAX_BYTES_PER_ROOT
    ensures Holds(Applied(cap, file, s, draft, now).history, before, file, s.draft)
    ensures Holds(Applied(cap, file, s, draft, now).history, after, file, draft)
  {
    var source := if Latest(s.history.rows, file).Some? then External else Opened;
    FreshIsHeld(cap, s.history, file, s.draft, source, now);
    RecordedAscends(cap, s.history, file, s.draft, source, now);
    var (observed, id) := Observed(cap, s.history, file, s.draft, now);
    WrittenOverHolds(cap, observed, file, s.draft, draft, now, id);
    before, after := id, Recorded(cap, observed, file, draft, Manual, now).1;
  }

  lemma {:induction false} WrittenOverHolds(cap: nat, table: Table, file: File, previous: string, content: string, now: real,
                                            id: nat)
    requires IdsAscend(table) && cap > 1 && Holds(table, id, file, previous) && NewerOfFile(table, id, file) == 0
    requires BytesSince(table, id, file.root) + ByteSize(content) <= MAX_BYTES_PER_ROOT
    ensures var (after, held) := Recorded(cap, table, file, content, Manual, now);
            Holds(after, id, file, previous) && Holds(after, held, file, content)
  {
    RecordedKeeps(cap, table, file, content, Manual, now, id, file, previous);
    NewTextIsHeld(cap, table, file, content, now, id);
  }

  lemma {:induction false} NewTextIsHeld(cap: nat, table: Table, file: File, content: string, now: real, id: nat)
    requires IdsAscend(table) && cap > 0 && Holds(table, id, file, []) && NewerOfFile(table, id, file) == 0
    requires BytesSince(table, id, file.root) + ByteSize(content) <= MAX_BYTES_PER_ROOT
    ensures var (after, held) := Recorded(cap, table, file, content, Manual, now);
            && Holds(after, held, file, content)
            && NewerOfFile(after, held, file) == 0
            && BytesSince(after, held, file.root) <= BytesSince(table, id, file.root) + ByteSize(content)
  {
    NewestIsLatest(table.rows, file, id);
    if !IsLatest(table, file, content) {
      var (entered, held) := Entered(table, file, content, Manual, now);
      if Folds(Latest(table.rows, file), content, Manual, now) {
        EnteredKeeps(table, file, content, Manual, now, id);
      } else {
        var version := Version(table.nextId, file, content, Manual, now);
        AboveCeilingAbsent(table.rows, 0, table.nextId, table.nextId);
        FromOneMore(table.rows, version, held);
        assert [version][1..] == [];
      }
      NewTextFits(cap, table, file, content, now);
    }
  }

  lemma {:induction false} NewTextFits(cap: nat, table: Table, file: File, content: string, now: real)
    requires IdsAscend(table) && cap > 0 && !IsLatest(table, file, content)
    requires var (entered, held) := Entered(table, file, content, Manual, now);
             Total(BytesOf(file.root), From(entered.rows, held)) <= MAX_BYTES_PER_ROOT
    ensures var (entered, held) := Entered(table, file, content, Manual, now);
            var after := Recorded(cap, table, file, content, Manual, now);
            && after.1 == held && Holds(after.0, held, file, content) && NewerOfFile(after.0, held, file) == 0
            && BytesSince(after.0, held, file.root) <= Total(BytesOf(file.root), From(entered.rows, held))
  {
    var (entered, held) := Entered(table, file, content, Manual, now);
    var from := From(entered.rows, held);
    EnteredHolds(table, file, content, Manual, now);
    EnteredAscends(table, file, content, Manual, now);
    TotalSifted(BytesOf(file.root), OverCount(file, cap), from);
    TrimKeepsExactly(cap, file, entered.rows, entered.nextId, held);
    TrimmedRest(cap, file, from);
    TotalTrimmed(OfFile(file), cap, file, from[1..]);
    TotalTrimmed(BytesOf(file.root), cap, file, from);
  }

  // ---- every text of a run ----

  /** The texts an event has the history keep: what a change replaces and brings, or what is refused. */
  function TextsOf(s: State, event: Event): seq<string> {
    match event
    case Elsewhere(_) => []
    case Change(draft, _) => [s.draft, draft]
    case Push(draft, base, _) =>
      if DraftTracker.Normalized(draft) == s.draft then []
      else if Conflicts(s, base) then [DraftTracker.Normalized(draft)]
      else [s.draft, DraftTracker.Normalized(draft)]
  }

  /** The version stays, whatever it holds, while these recordings are made. */
  predicate Fits(cap: nat, table: Table, id: nat, file: File, writes: seq<Write>) {
    && From(table.rows, id) != []
    && NewerOfFile(table, id, file) + AddedByAll(OfFile(file), writes) < cap
    && BytesSince(table, id, file.root) + AddedByAll(BytesOf(file.root), writes) <= MAX_BYTES_PER_ROOT
  }

  /** A change and the later recordings fit after the version of the text it replaces. */
  predicate ChangeFits(cap: nat, file: File, s: State, draft: string, now: real, later: seq<Write>) {
    var (observed, id) := Observed(cap, s.history, file, s.draft, now);
    ByteSize(s.draft) <= MAX_BYTES_PER_ROOT && Fits(cap, observed, id, file, [Write(file, draft, Manual, now)] + later)
  }

  /** The recordings after an event leave room for its texts. */
  predicate LeavesRoom(cap: nat, file: File, s: State, event: Event, later: seq<Write>) {
    match event
    case Elsewhere(_) => true
    case Change(draft, now) => ChangeFits(cap, file, s, draft, now, later)
    case Push(draft, base, now) =>
      var normalized := DraftTracker.Normalized(draft);
      if normalized == s.draft then true
      else if Conflicts(s, base) then
        var (after, id) := Recorded(cap, s.history, file, normalized, Refused, now);
        Fits(cap, after, id, file, later)
      else ChangeFits(cap, file, s, normalized, now, later)
  }

  ghost predicate IsHeld(table: Table, file: File, text: string) {
    exists id :: Holds(table, id, file, text)
  }

  lemma {:induction false} ChangedTextsStay(cap: nat, file: File, s: State, draft: string, now: real, later: seq<Write>)
    requires IdsAscend(s.history) && ChangeFits(cap, file, s, draft, now, later)
    ensures var table := FileHistoryRetention.Run(cap, Applied(cap, file, s, draft, now).history, later);
            IsHeld(table, file, s.draft) && IsHeld(table, file, draft)
  {
    var source := if Latest(s.history.rows, file).Some? then External else Opened;
    var (observed, id) := Observed(cap, s.history, file, s.draft, now);
    var write := Write(file, draft, Manual, now);
    FreshIsHeld(cap, s.history, file, s.draft, source, now);
    RecordedAscends(cap, s.history, file, s.draft, source, now);
    AddedInTwo(OfFile(file), write, later);
    AddedInTwo(BytesOf(file.root), write, later);
    NewTextIsHeld(cap, observed, file, draft, now, id);
    var (after, held) := Recorded(cap, observed, file, draft, Manual, now);
    RecordedKeeps(cap, observed, file, draft, Manual, now, id, file, s.draft);
    RecordedAscends(cap, observed, file, draft, Manual, now);
    TextStaysReadable(cap, after, later, id, file, s.draft);
    TextStaysReadable(cap, after, later, held, file, draft);
  }

  lemma {:induction false} AddedInTwo(weight: Weight, write: Write, later: seq<Write>)
    ensures AddedByAll(weight, [write] + later) == Added(weight, write.file, write.content) + AddedByAll(weight, later)
  {
    assert ([write] + later)[1..] == later;
  }

  lemma {:induction false} EventTextsStay(cap: nat, file: File, s: State, event: Event, later: seq<Write>)
    requires IdsAscend(s.history) && cap > 0 && LeavesRoom(cap, file, s, event, later)
    ensures var table := FileHistoryRetention.Run(cap, Step(cap, file, s, event).history, later);
            forall text | text in TextsOf(s, event) :: IsHeld(table, file, text)
  {
    match event
    case Elsewhere(_) =>
    case Change(draft, now) => ChangedTextsStay(cap, file, s, draft, now, later);
    case Push(draft, base, now) =>
      var normalized := DraftTracker.Normalized(draft);
      if normalized != s.draft {
        if Conflicts(s, base) {
          var (after, id) := Recorded(cap, s.history, file, normalized, Refused, now);
          NormalizedFits(draft);
          FreshIsHeld(cap, s.history, file, normalized, Refused, now);
          RecordedAscends(cap, s.history, file, normalized, Refused, now);
          TextStaysReadable(cap, after, later, id, file, normalized);
        } else {
          ChangedTextsStay(cap, file, s, normalized, now, later);
        }
      }
  }

  lemma {:induction false} RunAt(cap: nat, file: File, s: State, events: seq<Event>, i: nat)
    requires i < |events|
    ensures Run(cap, file, s, events)
         == Run(cap, file, Step(cap, file, Run(cap, file, s, events[..i]), events[i]), events[i + 1..])
    decreases i
  {
    if i > 0 {
      var next := Step(cap, file, s, events[0]);
      RunAt(cap, file, next, events[1..], i - 1);
      assert events[1..][..i - 1] == events[..i][1..] && events[1..][i..] == events[i + 1..];
    }
  }

  /**
   Every text that the draft had and lost, was given, or refused, anywhere in a run, is held when the run
   ends, if the recordings after it leave room.
   */
  lemma {:induction false} NoDraftTextIsLost(cap: nat, file: File, s: State, events: seq<Event>, i: nat)
    requires IdsAscend(s.history) && cap > 0 && i < |events|
    requires var before := Run(cap, file, s, events[..i]);
             var after := Step(cap, file, before, events[i]);
             LeavesRoom(cap, file, before, events[i], AllWrites(cap, file, after, events[i + 1..]))
    ensures var before := Run(cap, file, s, events[..i]);
            forall text | text in TextsOf(before, events[i]) :: IsHeld(Run(cap, file, s, events).history, file, text)
  {
    var before := Run(cap, file, s, events[..i]);
    var after := Step(cap, file, before, events[i]);
    HistoryIsItsWrites(cap, file, s, events[..i]);
    RunAscends(cap, s.history, AllWrites(cap, file, s, events[..i]));
    HistoryIsItsWrites(cap, file, after, events[i + 1..]);
    RunAt(cap, file, s, events, i);
    EventTextsStay(cap, file, before, events[i], AllWrites(cap, file, after, events[i + 1..]));
  }
}

/**
 Keeping a session's scrollback durable: output and trimming go on while a flush copies, writes and
 records, and an append or a replacement of the file is chosen by comparing compaction generations.
 */
module ReplayCheckpoint {
  import opened Bytes
  import opened Wrappers

  const SCROLLBACK_BYTES: nat := 12_000_000

  /** What a flush took with it when it started. */
  datatype Snapshot = Snapshot(generation: nat, payload: seq<Byte>, pendingPayload: seq<Byte>, replace: bool)

  /** Where the session's flush is: not running, copied but not written, or written but not recorded. */
  datatype Phase = Idle | Copied(snapshot: Snapshot) | Landed(snapshot: Snapshot)

  /**
   The one flush all sessions share: none pending, waiting out the debounce, or writing sessions in turn, and
   whether a write of any session has landed by then.
   */
  datatype Task = Done | Sleeping | Flushing(written: bool)

  function Arm(task: Task): Task {
    if task.Done? then Sleeping else task
  }

  /**
   One session, with the shared flush.  `stalled` says that the last flush to end landed nothing at all, or
   that none has ended yet.  `trimmed` is not kept by the program: it is everything cut from the front of the buffer
   so far, so that the whole durable output can be spoken about.
   */
  datatype Session = Session(trimmed: seq<Byte>, buffer: seq<Byte>, pending: seq<Byte>,
                             generation: nat, checkpointGeneration: nat,
                             disk: Option<seq<Byte>>, phase: Phase, task: Task, stalled: bool)
  {
    function Output(): seq<Byte> {
      trimmed + buffer
    }
  }

  datatype Event =
    | Arrives(data: seq<Byte>)   // durable output
    | OthersArrive               // output of another session
    | FlushStarts                // the debounce ran out: every session is copied
    | WriteLands
    | WriteFails
    | FlushRecords               // back on the event loop after a write that landed
    | OthersLand                 // a write of another session in the same flush
    | FlushEnds(othersDue: bool) // nothing left to write; is anything due again elsewhere?

  function Overflow(length: nat): nat {
    if length > SCROLLBACK_BYTES then length - SCROLLBACK_BYTES else 0
  }

  function Append(s: Session, data: seq<Byte>): Session {
    if data == [] then s
    else
      var grown := s.buffer + data;
      var overflow := Overflow(|grown|);
      s.(trimmed := if overflow > 0 then s.trimmed + grown[..overflow] else s.trimmed,
         buffer := if overflow > 0 then grown[overflow..] else grown,
         pending := s.pending + data,
         generation := if overflow > 0 then s.generation + 1 else s.generation,
         task := Arm(s.task))
  }

  /** What a flush would write now, if anything. */
  function Due(s: Session): Option<Snapshot> {
    if s.buffer == [] || (s.pending == [] && s.generation == s.checkpointGeneration && s.disk.Some?) then None
    else
      var diskBytes := if s.disk.Some? then |s.disk.value| else 0;
      var replace := s.disk.None? || s.generation != s.checkpointGeneration ||
                     diskBytes + |s.pending| > SCROLLBACK_BYTES;
      var payload := if replace then s.buffer else s.pending;
      if payload == [] then None else Some(Snapshot(s.generation, payload, s.pending, replace))
  }

  function Write(disk: Option<seq<Byte>>, snapshot: Snapshot): seq<Byte> {
    if snapshot.replace || disk.None? then snapshot.payload else disk.value + snapshot.payload
  }

  function Record(s: Session, snapshot: Snapshot): Session {
    s.(phase := Idle, task := Flushing(true),
       pending := if snapshot.pendingPayload <= s.pending then s.pending[|snapshot.pendingPayload|..] else s.pending,
       checkpointGeneration := if snapshot.replace && s.generation == snapshot.generation then snapshot.generation
                               else s.checkpointGeneration)
  }

  /** An event that cannot happen now changes nothing. */
  function Apply(s: Session, e: Event): Session {
    match e
    case Arrives(data) => Append(s, data)
    case OthersArrive => s.(task := Arm(s.task))
    case FlushStarts =>
      if !s.task.Sleeping? then s
      else
        var due := Due(s);
        s.(task := Flushing(false), phase := if due.Some? then Copied(due.value) else Idle)
    case WriteLands =>
      if !s.phase.Copied? then s
      else s.(disk := Some(Write(s.disk, s.phase.snapshot)), phase := Landed(s.phase.snapshot))
    case WriteFails =>
      if !s.phase.Copied? then s else s.(phase := Idle)
    case FlushRecords =>
      if !s.phase.Landed? then s else Record(s, s.phase.snapshot)
    case OthersLand =>
      if !s.task.Flushing? then s else s.(task := Flushing(true))
    case FlushEnds(othersDue) =>
      if !s.task.Flushing? || !s.phase.Idle? then s
      else
        s.(task := if s.task.written && (Due(s).Some? || othersDue) then Sleeping else Done, stalled := !s.task.written)
  }

  function ApplyAll(s: Session, events: seq<Event>): Session
    decreases |events|
  {
    if events == [] then s else ApplyAll(Apply(s, events[0]), events[1..])
  }

  /** A session as it starts: with the tail of the file a previous run left, if it left one. */
  function Restored(disk: Option<seq<Byte>>): Session {
    match disk
    case None => Session([], [], [], 0, 0, None, Idle, Done, true)
    case Some(saved) =>
      var overflow := Overflow(|saved|);
      if overflow > 0 then Session(saved[..overflow], saved[overflow..], [], 1, 0, disk, Idle, Done, true)
      else Session([], saved, [], 0, 0, disk, Idle, Done, true)
  }

  // ---- the class ----

  class Scrollback {
    var buffer: seq<Byte>
    var pending: seq<Byte>
    var generation: nat
    var checkpointGeneration: nat
    var disk: Option<seq<Byte>>
    var phase: Phase
    var task: Task
    var stalled: bool
    ghost var trimmed: seq<Byte>

    ghost function State(): Session
      reads this
    {
      Session(trimmed, buffer, pending, generation, checkpointGeneration, disk, phase, task, stalled)
    }

    constructor (saved: Option<seq<Byte>>)
      ensures State() == Restored(saved)
    {
      pending, checkpointGeneration, disk := [], 0, saved;
      phase, task, stalled := Idle, Done, true;
      if saved.Some? && |saved.value| > SCROLLBACK_BYTES {
        buffer := saved.value[|saved.value| - SCROLLBACK_BYTES..];
        trimmed := saved.value[..|saved.value| - SCROLLBACK_BYTES];
        generation := 1;
      } else {
        buffer := if saved.Some? then saved.value else [];
        trimmed := [];
        generation := 0;
      }
    }

    method AppendDurable(durable: seq<Byte>)
      modifies this
      ensures State() == Apply(old(State()), Arrives(durable))
    {
      if durable == [] {
        return;
      }
      buffer := buffer + durable;
      pending := pending + durable;
      if |buffer| > SCROLLBACK_BYTES {
        var overflow := |buffer| - SCROLLBACK_BYTES;
        trimmed := trimmed + buffer[..overflow];
        buffer := buffer[overflow..];
        generation := generation + 1;
      }
      ArmFlush();
    }

    /** Starts the one pending flush if there is none: called for the output of every session. */
    method ArmFlush()
      modifies this`task
      ensures task == Arm(old(task))
    {
      if task.Done? {
        task := Sleeping;
      }
    }

    method StartFlush()
      modifies this
      ensures State() == Apply(old(State()), FlushStarts)
    {
      if !task.Sleeping? {
        return;
      }
      task, phase := Flushing(false), Idle;
      if buffer == [] || (pending == [] && generation == checkpointGeneration && disk.Some?) {
        return;
      }
      var diskBytes := if disk.Some? then |disk.value| else 0;
      var replace := disk.None? || generation != checkpointGeneration || diskBytes + |pending| > SCROLLBACK_BYTES;
      var payload := if replace then buffer else pending;
      assert payload != [];
      phase := Copied(Snapshot(generation, payload, pending, replace));
    }

    method FinishWrite(lands: bool)
      modifies this
      ensures State() == Apply(old(State()), if lands then WriteLands else WriteFails)
    {
      if !phase.Copied? {
        return;
      }
      if !lands {
        phase := Idle;
        return;
      }
      var snapshot := phase.snapshot;
      if snapshot.replace || disk.None? {
        disk := Some(snapshot.payload);
      } else {
        disk := Some(disk.value + snapshot.payload);
      }
      phase := Landed(snapshot);
    }

    method RecordSuccess()
      modifies this
      ensures State() == Apply(old(State()), FlushRecords)
    {
      if !phase.Landed? {
        return;
      }
      var snapshot := phase.snapshot;
      if snapshot.pendingPayload <= pending {
        pending := pending[|snapshot.pendingPayload|..];
      }
      if snapshot.replace && generation == snapshot.generation {
        checkpointGeneration := snapshot.generation;
      }
      phase, task := Idle, Flushing(true);
    }

    method FinishFlush(othersDue: bool)
      modifies this
      ensures State() == Apply(old(State()), FlushEnds(othersDue))
    {
      if !task.Flushing? || !phase.Idle? {
        return;
      }
      var written := task.written;
      task, stalled := Done, !written;
      if written && (Due(Session([], buffer, pending, generation, checkpointGeneration, disk, Idle, Done, true)).Some?
                     || othersDue) {
        ArmFlush();
      }
    }
  }

  // ---- what every step keeps ----

  ghost predicate EndsWith(output: seq<Byte>, tail: seq<Byte>) {
    exists before :: output == before + tail
  }

  /** The buffer is what the file and the output after it spell out together. */
  ghost predicate CopiedFaithfully(s: Session, later: seq<Byte>)
    requires s.phase.Copied?
  {
    var snapshot := s.phase.snapshot;
    && s.checkpointGeneration <= snapshot.generation <= s.generation
    && if snapshot.replace then
         && |snapshot.payload| <= SCROLLBACK_BYTES
         && EndsWith(s.Output(), snapshot.payload + later)
         && (s.generation == snapshot.generation ==> s.buffer == snapshot.payload + later)
       else
         && s.disk.Some? && snapshot.payload == snapshot.pendingPayload
         && snapshot.generation == s.checkpointGeneration
         && |s.disk.value| + |snapshot.payload| <= SCROLLBACK_BYTES
  }

  ghost predicate LandedFaithfully(s: Session, later: seq<Byte>)
    requires s.phase.Landed?
  {
    var snapshot := s.phase.snapshot;
    && s.checkpointGeneration <= snapshot.generation <= s.generation
    && (!snapshot.replace ==> snapshot.generation == s.checkpointGeneration)
    && s.disk.Some? && |s.disk.value| <= SCROLLBACK_BYTES
    && EndsWith(s.Output(), s.disk.value + later)
    && (s.generation == snapshot.generation ==> s.buffer == s.disk.value + later)
  }

  /** The file holds a contiguous slice of the output and pending is exactly what comes after it. */
  ghost predicate DiskThenPending(s: Session) {
    && (if s.disk.Some? then EndsWith(s.Output(), s.disk.value + s.pending) else s.Output() == s.pending)
    && (s.disk.Some? && s.generation == s.checkpointGeneration ==> s.disk.value + s.pending == s.buffer)
    && (s.disk.Some? && |s.disk.value| > SCROLLBACK_BYTES ==> s.generation != s.checkpointGeneration)
  }

  /** `later` is the output a running flush did not take with it; all that is pending when none runs. */
  ghost predicate ConsistentWith(s: Session, later: seq<Byte>) {
    && |s.buffer| <= SCROLLBACK_BYTES
    && s.checkpointGeneration <= s.generation
    && (!s.phase.Landed? ==> DiskThenPending(s))
    && (!s.phase.Idle? ==> s.task.Flushing?)
    && (s.task.Done? && Due(s).Some? ==> s.stalled)
    && match s.phase
       case Idle => s.pending == later
       case Copied(snapshot) => s.pending == snapshot.pendingPayload + later && CopiedFaithfully(s, later)
       case Landed(snapshot) => s.pending == snapshot.pendingPayload + later && LandedFaithfully(s, later)
  }

  ghost predicate Consistent(s: Session) {
    exists later :: ConsistentWith(s, later)
  }

  lemma {:induction false} RestoredIsConsistent(disk: Option<seq<Byte>>)
    ensures Consistent(Restored(disk))
    ensures disk.Some? ==> Restored(disk).Output() == disk.value
  {
    var s := Restored(disk);
    if disk.Some? {
      assert s.Output() == disk.value;
      assert disk.value == [] + (disk.value + []);
      assert disk.value + [] == disk.value;
    }
    assert ConsistentWith(s, []);
  }

  lemma {:induction false} EndsWithMore(output: seq<Byte>, tail: seq<Byte>, data: seq<Byte>)
    requires EndsWith(output, tail)
    ensures EndsWith(output + data, tail + data)
  {
    var before :| output == before + tail;
    assert output + data == before + (tail + data);
  }

  /** Trimming moves bytes from the buffer to what was trimmed; the output only grows by the data. */
  lemma {:induction false} AppendGrowsOutput(s: Session, data: seq<Byte>)
    ensures Append(s, data).Output() == s.Output() + data
    ensures |s.buffer| <= SCROLLBACK_BYTES ==> |Append(s, data).buffer| <= SCROLLBACK_BYTES
    ensures Append(s, data).generation == s.generation ==> Append(s, data).buffer == s.buffer + data
  {
    var grown := s.buffer + data;
    var overflow := Overflow(|grown|);
    if data == [] {
      assert s.Output() + data == s.Output() && s.buffer + data == s.buffer;
    } else if overflow > 0 {
      assert grown == grown[..overflow] + grown[overflow..];
      assert (s.trimmed + grown[..overflow]) + grown[overflow..] == s.trimmed + grown;
      assert s.trimmed + grown == s.Output() + data;
    } else {
      assert s.trimmed + grown == s.Output() + data;
    }
  }

  lemma {:induction false} AppendKeepsDiskThenPending(s: Session, data: seq<Byte>)
    requires DiskThenPending(s) && s.checkpointGeneration <= s.generation
    ensures DiskThenPending(Append(s, data))
  {
    AppendGrowsOutput(s, data);
    var t := Append(s, data);
    if data != [] && s.disk.Some? {
      EndsWithMore(s.Output(), s.disk.value + s.pending, data);
      assert (s.disk.value + s.pending) + data == s.disk.value + t.pending;
    }
  }

  lemma {:induction false} AppendKeepsFlush(s: Session, later: seq<Byte>, data: seq<Byte>)
    requires data != []
    requires (s.phase.Copied? && CopiedFaithfully(s, later)) || (s.phase.Landed? && LandedFaithfully(s, later))
    ensures var t := Append(s, data);
            if s.phase.Copied? then CopiedFaithfully(t, later + data) else LandedFaithfully(t, later + data)
  {
    AppendGrowsOutput(s, data);
    if s.phase.Landed? {
      StillFollows(s, s.disk.value, later, data);
    } else if s.phase.snapshot.replace {
      StillFollows(s, s.phase.snapshot.payload, later, data);
    }
  }

  lemma {:induction false} StillFollows(s: Session, base: seq<Byte>, later: seq<Byte>, data: seq<Byte>)
    requires EndsWith(s.Output(), base + later)
    ensures EndsWith(s.Output() + data, base + (later + data))
    ensures s.buffer == base + later ==> s.buffer + data == base + (later + data)
  {
    EndsWithMore(s.Output(), base + later, data);
    assert (base + later) + data == base + (later + data);
  }

  lemma {:induction false} AppendKeepsConsistent(s: Session, data: seq<Byte>)
    requires Consistent(s)
    ensures Consistent(Append(s, data))
  {
    if data != [] {
      var later :| ConsistentWith(s, later);
      var t := Append(s, data);
      AppendGrowsOutput(s, data);
      if !s.phase.Landed? {
        AppendKeepsDiskThenPending(s, data);
      }
      if s.phase.Idle? {
        assert ConsistentWith(t, t.pending);
      } else {
        AppendKeepsFlush(s, later, data);
        assert (s.phase.snapshot.pendingPayload + later) + data == s.phase.snapshot.pendingPayload + (later + data);
        assert ConsistentWith(t, later + data);
      }
    }
  }

  lemma {:induction false} StartKeepsConsistent(s: Session)
    requires Consistent(s)
    ensures Consistent(Apply(s, FlushStarts))
  {
    var later :| ConsistentWith(s, later);
    var t := Apply(s, FlushStarts);
    if s.task.Sleeping? && Due(s).Some? {
      var snapshot := Due(s).value;
      assert s.pending + [] == s.pending && snapshot.payload + [] == snapshot.payload;
      assert s.Output() == s.trimmed + s.buffer;
      assert ConsistentWith(t, []);
    } else {
      assert ConsistentWith(t, later);
    }
  }

  lemma {:induction false} WriteKeepsConsistent(s: Session, lands: bool)
    requires Consistent(s)
    ensures Consistent(Apply(s, if lands then WriteLands else WriteFails))
  {
    var later :| ConsistentWith(s, later);
    var t := Apply(s, if lands then WriteLands else WriteFails);
    if !s.phase.Copied? {
      assert ConsistentWith(t, later);
    } else if !lands {
      assert ConsistentWith(t, t.pending);
    } else {
      var snapshot := s.phase.snapshot;
      if !snapshot.replace {
        assert (s.disk.value + snapshot.payload) + later == s.disk.value + s.pending;
      }
      assert ConsistentWith(t, later);
    }
  }

  lemma {:induction false} RecordKeepsConsistent(s: Session)
    requires Consistent(s)
    ensures Consistent(Apply(s, FlushRecords))
  {
    var later :| ConsistentWith(s, later);
    var t := Apply(s, FlushRecords);
    assert ConsistentWith(t, later);
  }

  lemma {:induction false} FlushKeepsConsistent(s: Session, e: Event)
    requires Consistent(s) && (e.OthersArrive? || e.OthersLand? || e.FlushEnds?)
    ensures Consistent(Apply(s, e))
  {
    var later :| ConsistentWith(s, later);
    assert ConsistentWith(Apply(s, e), later);
  }

  lemma {:induction false} StepKeepsConsistent(s: Session, e: Event)
    requires Consistent(s)
    ensures Consistent(Apply(s, e))
  {
    match e
    case Arrives(data) => AppendKeepsConsistent(s, data);
    case OthersArrive => FlushKeepsConsistent(s, e);
    case OthersLand => FlushKeepsConsistent(s, e);
    case FlushEnds(_) => FlushKeepsConsistent(s, e);
    case FlushStarts => StartKeepsConsistent(s);
    case WriteLands => WriteKeepsConsistent(s, true);
    case WriteFails => WriteKeepsConsistent(s, false);
    case FlushRecords => RecordKeepsConsistent(s);
  }

  lemma {:induction false} RunKeepsConsistent(s: Session, events: seq<Event>)
    requires Consistent(s)
    ensures Consistent(ApplyAll(s, events))
    decreases |events|
  {
    if events != [] {
      StepKeepsConsistent(s, events[0]);
      RunKeepsConsistent(Apply(s, events[0]), events[1..]);
    }
  }

  // ---- over whole runs ----

  /**
   However output, trimming and flushes interleave: the file is a contiguous slice of the output, pending
   is exactly the output after it, and while the generations agree the two together are the buffer.  Both
   hold again as soon as a landed write is recorded.
   */
  lemma {:induction false} NothingLostNothingTwice(saved: Option<seq<Byte>>, events: seq<Event>)
    ensures var s := ApplyAll(Restored(saved), events);
            && (s.disk.Some? ==> exists before, after :: s.Output() == before + s.disk.value + after)
            && (!s.phase.Landed? && s.disk.Some? ==> exists before :: s.Output() == before + s.disk.value + s.pending)
            && (!s.phase.Landed? && s.disk.None? ==> s.Output() == s.pending)
            && (!s.phase.Landed? && s.disk.Some? && s.generation == s.checkpointGeneration ==>
                  s.disk.value + s.pending == s.buffer)
  {
    RestoredIsConsistent(saved);
    RunKeepsConsistent(Restored(saved), events);
    var s := ApplyAll(Restored(saved), events);
    var later :| ConsistentWith(s, later);
    if s.disk.Some? {
      EndsWithBoth(s.Output(), s.disk.value, if s.phase.Landed? then later else s.pending);
    }
  }

  lemma {:induction false} EndsWithBoth(output: seq<Byte>, disk: seq<Byte>, after: seq<Byte>)
    requires EndsWith(output, disk + after)
    ensures exists before :: output == before + disk + after
  {
    var before :| output == before + (disk + after);
    assert output == before + disk + after;
  }

  /** Starting within the limit the file never exceeds it; from above, the first write to land ends it. */
  lemma {:induction false} FileStaysWithinLimit(saved: Option<seq<Byte>>, events: seq<Event>)
    ensures var s := ApplyAll(Restored(saved), events);
            s.disk.Some? && |s.disk.value| > SCROLLBACK_BYTES ==> s.disk == saved
  {
    RestoredIsConsistent(saved);
    LimitIsKept(Restored(saved), saved, events);
  }

  lemma {:induction false} LimitIsKept(s: Session, saved: Option<seq<Byte>>, events: seq<Event>)
    requires Consistent(s)
    requires s.disk.Some? && |s.disk.value| > SCROLLBACK_BYTES ==> s.disk == saved
    ensures var t := ApplyAll(s, events);
            t.disk.Some? && |t.disk.value| > SCROLLBACK_BYTES ==> t.disk == saved
    decreases |events|
  {
    if events != [] {
      StepKeepsConsistent(s, events[0]);
      var later :| ConsistentWith(Apply(s, events[0]), later);
      LimitIsKept(Apply(s, events[0]), saved, events[1..]);
    }
  }

  /** Output the file does not have yet is never left with no flush coming, unless the last one landed nothing. */
  lemma {:induction false} UnsavedOutputIsScheduled(saved: Option<seq<Byte>>, events: seq<Event>)
    ensures var s := ApplyAll(Restored(saved), events);
            Due(s).Some? ==> !s.task.Done? || s.stalled
  {
    RestoredIsConsistent(saved);
    RunKeepsConsistent(Restored(saved), events);
    var later :| ConsistentWith(ApplyAll(Restored(saved), events), later);
  }

  /**
   A flush nothing interrupts makes the session durable, whichever session asked for it: a restart would
   restore exactly its buffer, and nothing is left to write.
   */
  lemma {:induction false} FlushMakesDurable(saved: Option<seq<Byte>>, events: seq<Event>)
    ensures var s := ApplyAll(Restored(saved), events);
            var t := Apply(Apply(Apply(Apply(s, OthersArrive), FlushStarts), WriteLands), FlushRecords);
            !s.task.Flushing? && s.buffer != [] ==>
              t.buffer == s.buffer && t.disk == Some(s.buffer) && Due(t).None? && Restored(t.disk).buffer == s.buffer
  {
    RestoredIsConsistent(saved);
    RunKeepsConsistent(Restored(saved), events);
    var s := ApplyAll(Restored(saved), events);
    var later :| ConsistentWith(s, later);
    if !s.task.Flushing? && s.buffer != [] {
      if Due(s).None? {
        assert s.disk.value + s.pending == s.disk.value;
      } else {
        assert s.pending + [] == s.pending;
      }
    }
  }

  // ---- what a flush writes ----

  /** Nothing was cut from the buffer, and so no generation has begun. */
  predicate Untrimmed(s: Session) {
    s.trimmed == [] ==>
      s.generation == s.checkpointGeneration == 0 && (!s.phase.Idle? ==> s.phase.snapshot.generation == 0)
  }

  lemma {:induction false} StepKeepsUntrimmed(s: Session, e: Event)
    requires Untrimmed(s)
    ensures Untrimmed(Apply(s, e)) && (Apply(s, e).trimmed == [] ==> s.trimmed == [])
  {
    if e.Arrives? {
      var grown := s.buffer + e.data;
      var overflow := Overflow(|grown|);
      assert overflow > 0 ==> s.trimmed + grown[..overflow] != [];
    }
  }

  lemma {:induction false} RunKeepsUntrimmed(s: Session, events: seq<Event>)
    requires Untrimmed(s)
    ensures Untrimmed(ApplyAll(s, events))
    decreases |events|
  {
    if events != [] {
      StepKeepsUntrimmed(s, events[0]);
      RunKeepsUntrimmed(Apply(s, events[0]), events[1..]);
    }
  }

  /**
   As long as all output fits the buffer, a flush writes just the output since the last one: it appends exactly
   what is pending to the file, or, with no file yet, writes the buffer as one.
   */
  lemma {:induction false} FittingOutputIsAppended(saved: Option<seq<Byte>>, events: seq<Event>)
    ensures var s := ApplyAll(Restored(saved), events);
            s.trimmed == [] && !s.phase.Landed? && Due(s).Some? ==>
              && Due(s).value.replace == s.disk.None?
              && Due(s).value.payload == if s.disk.None? then s.buffer else s.pending
  {
    RestoredIsConsistent(saved);
    RunKeepsConsistent(Restored(saved), events);
    RunKeepsUntrimmed(Restored(saved), events);
    var s := ApplyAll(Restored(saved), events);
    var later :| ConsistentWith(s, later);
  }

  lemma {:induction false} NothingHappensByItself(s: Session, events: seq<Event>)
    requires s.task.Done? && s.phase.Idle? && forall e | e in events :: !e.Arrives? && !e.OthersArrive?
    ensures ApplyAll(s, events) == s
    decreases |events|
  {
    if events != [] {
      assert events[0] in events;
      NothingHappensByItself(s, events[1..]);
    }
  }

  /**
   A flush in which every write failed is not repeated by itself: whatever is due, nothing is written any more
   until output arrives somewhere.  After one that landed a write, what is due is flushed again.
   */
  lemma {:induction false} FailedFlushWaitsForOutput(s: Session, othersDue: bool, events: seq<Event>)
    requires s.task.Flushing? && s.phase.Idle? && forall e | e in events :: !e.Arrives? && !e.OthersArrive?
    ensures var after := Apply(s, FlushEnds(othersDue));
            && (!s.task.written ==> after.task.Done? && ApplyAll(after, events) == after)
            && (s.task.written ==> (after.task.Sleeping? <==> Due(s).Some? || othersDue))
  {
    if !s.task.written {
      NothingHappensByItself(Apply(s, FlushEnds(othersDue)), events);
    }
  }
}

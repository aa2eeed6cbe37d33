/**
 What the watchdog does, said about the ticks so far and not about the file: a restart is due after enough
 unanswered probes in a row, and never sooner.
 */
module WatchdogHistory {
  import opened ServiceWatchdog

  function Front(ticks: seq<Tick>): seq<Tick>
    requires ticks != []
  {
    ticks[..|ticks| - 1]
  }

  function Last(ticks: seq<Tick>): Tick
    requires ticks != []
  {
    ticks[|ticks| - 1]
  }

  /** The deck runs and did not answer. */
  predicate IsSilent(t: Tick) {
    t.loaded && !t.answers
  }

  predicate IsAnswered(t: Tick) {
    t.loaded && t.answers
  }

  lemma {:induction false} AfterOneMore(file: Memory, ticks: seq<Tick>)
    requires ticks != []
    ensures After(file, ticks) == RunTick(After(file, Front(ticks)), Last(ticks)).memory
    decreases |ticks|
  {
    if |ticks| == 1 {
      assert ticks[1..] == [] && Front(ticks) == [];
    } else {
      AfterOneMore(RunTick(file, ticks[0]).memory, ticks[1..]);
      assert Front(ticks)[1..] == Front(ticks[1..]);
    }
  }

  // ---- no restart without enough silence ----

  /** The silent ticks since the deck was last found answering, or stopped, and that was written down. */
  function SilenceNoted(ticks: seq<Tick>): nat {
    if ticks == [] then 0
    else if IsSilent(Last(ticks)) then SilenceNoted(Front(ticks)) + 1
    else if Last(ticks).writeLands then 0
    else SilenceNoted(Front(ticks))
  }

  lemma {:induction false} FailuresAreSilence(file: Memory, ticks: seq<Tick>)
    requires file.consecutiveFailures == 0
    ensures After(file, ticks).consecutiveFailures <= SilenceNoted(ticks)
    decreases |ticks|
  {
    if ticks != [] {
      AfterOneMore(file, ticks);
      FailuresAreSilence(file, Front(ticks));
    }
  }

  /** A restart is asked for only on enough silent ticks since the deck was last noted as answering or stopped. */
  lemma {:induction false} RestartNeedsSilence(file: Memory, ticks: seq<Tick>, t: Tick)
    requires file.consecutiveFailures == 0 && RunTick(After(file, ticks), t).attempted
    ensures IsSilent(t) && SilenceNoted(ticks) + 1 >= FAILURE_THRESHOLD
  {
    FailuresAreSilence(file, ticks);
  }

  lemma {:induction false} SilenceIsAtTheEnd(ticks: seq<Tick>, i: nat)
    requires forall t | t in ticks && !IsSilent(t) :: t.writeLands
    requires i < |ticks| && |ticks| - i <= SilenceNoted(ticks)
    ensures IsSilent(ticks[i])
    decreases |ticks|
  {
    assert Last(ticks) in ticks;
    if i < |ticks| - 1 {
      SilenceIsAtTheEnd(Front(ticks), i);
    }
  }

  lemma {:induction false} SilenceIsShort(ticks: seq<Tick>)
    ensures SilenceNoted(ticks) <= |ticks|
  {
    if ticks != [] {
      SilenceIsShort(Front(ticks));
    }
  }

  /**
   As long as every tick that finds the deck answering or stopped gets to write that down, a restart is asked
   for only by the last of FAILURE_THRESHOLD silent ticks in a row.
   */
  lemma {:induction false} RestartEndsSilentRow(file: Memory, ticks: seq<Tick>, t: Tick)
    requires file.consecutiveFailures == 0 && RunTick(After(file, ticks), t).attempted
    requires forall u | u in ticks && !IsSilent(u) :: u.writeLands
    ensures IsSilent(t) && |ticks| + 1 >= FAILURE_THRESHOLD
    ensures forall i :: |ticks| + 1 - FAILURE_THRESHOLD <= i < |ticks| ==> IsSilent(ticks[i])
  {
    RestartNeedsSilence(file, ticks, t);
    SilenceIsShort(ticks);
    forall i | |ticks| + 1 - FAILURE_THRESHOLD <= i < |ticks| ensures IsSilent(ticks[i]) {
      SilenceIsAtTheEnd(ticks, i);
    }
  }

  // ---- exactly when a restart is due ----

  /** The file could be read and written. */
  predicate IsSteady(t: Tick) {
    t.readable && t.writeLands && t.lastWriteLands
  }

  /** How often the deck was restarted in vain, that is since it last answered often enough in a row, and when last. */
  datatype Tries = Tries(count: nat, last: real)

  /** The answered ticks at the end; ticks that find the deck stopped do not interrupt them. */
  function Answers(ticks: seq<Tick>): nat {
    if ticks == [] then 0
    else if !Last(ticks).loaded then Answers(Front(ticks))
    else if Last(ticks).answers then Answers(Front(ticks)) + 1
    else 0
  }

  predicate Attempted(ticks: seq<Tick>)
    requires ticks != []
  {
    RunTick(After(FORGOTTEN, Front(ticks)), Last(ticks)).attempted
  }

  predicate ReportsRestart(ticks: seq<Tick>)
    requires ticks != []
  {
    RunTick(After(FORGOTTEN, Front(ticks)), Last(ticks)).outcome == Restarted
  }

  /** The silent ticks at the end, counted anew after one that reports a restart. */
  function Silence(ticks: seq<Tick>): nat {
    if ticks == [] || !IsSilent(Last(ticks)) || ReportsRestart(ticks) then 0
    else Silence(Front(ticks)) + 1
  }

  function RestartsReported(ticks: seq<Tick>): nat {
    if ticks == [] then 0 else RestartsReported(Front(ticks)) + if ReportsRestart(ticks) then 1 else 0
  }

  function TriesSoFar(ticks: seq<Tick>): Tries {
    if ticks == [] then Tries(0, 0.0)
    else
      var before := TriesSoFar(Front(ticks));
      if IsAnswered(Last(ticks)) && Answers(ticks) >= FAILURE_THRESHOLD then before.(count := 0)
      else if Attempted(ticks) then Tries(before.count + 1, Last(ticks).now)
      else before
  }

  /** What a tick reports and whether it restarts the deck, by the ticks before it. */
  function Expected(silence: nat, tries: Tries, t: Tick): (Outcome, bool) {
    if !t.loaded then (NotInstalled, false)
    else if t.answers then (Healthy, false)
    else if silence + 1 < FAILURE_THRESHOLD then (Unanswered, false)
    else if tries.count > OVERFLOWING_EXPONENT then (Raised, false)
    else if t.now - tries.last < Cooldown(tries.count) then (CoolingDown, false)
    else if !t.restartWorks then (Unanswered, true)
    else if tries.count == OVERFLOWING_EXPONENT then (Raised, true)
    else (Restarted, true)
  }

  /** The file knows what the ticks so far say. */
  ghost predicate Knows(m: Memory, silence: nat, answers: nat, tries: Tries) {
    && m.healthyStreak == answers && m.restartsSinceHealthy == tries.count && m.lastRestartAt == tries.last
    && (tries.count <= OVERFLOWING_EXPONENT ==> m.consecutiveFailures == silence)
    && m.consecutiveFailures <= silence
    && (m.consecutiveFailures + 1 < FAILURE_THRESHOLD ==> m.consecutiveFailures == silence)
    && (m.consecutiveFailures > 0 ==> answers == 0)
  }

  lemma {:induction false} FileKnows(ticks: seq<Tick>)
    requires forall t | t in ticks :: IsSteady(t)
    ensures Knows(After(FORGOTTEN, ticks), Silence(ticks), Answers(ticks), TriesSoFar(ticks))
    ensures After(FORGOTTEN, ticks).restarts == RestartsReported(ticks)
    decreases |ticks|
  {
    if ticks != [] {
      assert Last(ticks) in ticks;
      AfterOneMore(FORGOTTEN, ticks);
      FileKnows(Front(ticks));
    }
  }

  /**
   With a file that can be read and written, what a tick reports and whether it asks for a restart follow from
   the ticks before it: FAILURE_THRESHOLD silent ones in a row, this one included and none before a restart
   that was reported, and the cooldown over that the restarts in vain call for.
   */
  lemma {:induction false} TickDoesWhatIsDue(ticks: seq<Tick>, t: Tick)
    requires (forall u | u in ticks :: IsSteady(u)) && IsSteady(t)
    ensures var done := RunTick(After(FORGOTTEN, ticks), t);
            (done.outcome, done.attempted) == Expected(Silence(ticks), TriesSoFar(ticks), t)
  {
    FileKnows(ticks);
  }

  // ---- a healthy row brings the first cooldown back ----

  lemma {:induction false} AnsweredRowIsCounted(file: Memory, row: seq<Tick>)
    requires forall t | t in row :: IsAnswered(t) && t.readable && t.writeLands
    ensures After(file, row).healthyStreak == file.healthyStreak + |row|
    ensures row != [] && |row| + file.healthyStreak >= FAILURE_THRESHOLD ==> After(file, row).restartsSinceHealthy == 0
    decreases |row|
  {
    if row != [] {
      AfterOneMore(file, row);
      assert Last(row) in row;
      AnsweredRowIsCounted(file, Front(row));
    }
  }

  /** Whatever the file held, FAILURE_THRESHOLD answered ticks in a row bring the cooldown back to its first value. */
  lemma {:induction false} AnsweredRowEndsBackoff(file: Memory, row: seq<Tick>)
    requires |row| >= FAILURE_THRESHOLD && forall t | t in row :: IsAnswered(t) && t.readable && t.writeLands
    ensures After(file, row).consecutiveFailures == 0
    ensures Cooldown(After(file, row).restartsSinceHealthy) == RESTART_COOLDOWN
  {
    AnsweredRowIsCounted(file, row);
    AfterOneMore(file, row);
    assert Last(row) in row;
  }

  // ---- a recovery that is not written down ----

  /** No tick has asked for a restart. */
  predicate NoneAttempted(ticks: seq<Tick>) {
    ticks == [] || (!Attempted(ticks) && NoneAttempted(Front(ticks)))
  }

  lemma {:induction false} FailuresAreExactlyNoted(ticks: seq<Tick>)
    requires NoneAttempted(ticks)
    requires forall t | t in ticks :: t.readable && (IsSilent(t) ==> t.writeLands)
    ensures var m := After(FORGOTTEN, ticks);
            m.consecutiveFailures == SilenceNoted(ticks) && m.restartsSinceHealthy == 0 && m.lastRestartAt == 0.0
    decreases |ticks|
  {
    if ticks != [] {
      assert Last(ticks) in ticks;
      AfterOneMore(FORGOTTEN, ticks);
      FailuresAreExactlyNoted(Front(ticks));
    }
  }

  /**
   Which writes of answered and stopped ticks land decides: the first restart is asked for exactly on enough
   silent ticks since one of those that landed, whatever answers there were in between.
   */
  lemma {:induction false} FirstRestartCountsFromNoted(ticks: seq<Tick>, t: Tick)
    requires NoneAttempted(ticks) && t.readable && t.writeLands
    requires forall u | u in ticks :: u.readable && (IsSilent(u) ==> u.writeLands)
    ensures RunTick(After(FORGOTTEN, ticks), t).attempted <==>
            IsSilent(t) && SilenceNoted(ticks) + 1 >= FAILURE_THRESHOLD && t.now >= RESTART_COOLDOWN
  {
    FailuresAreExactlyNoted(ticks);
  }

  /** When the write of an answered tick is lost, the failures before it count on: two, an answer, one, and a restart. */
  lemma {:induction false} LostRecoveryIsCounted()
    ensures var silent := Tick(10000.0, true, true, false, true, false, true);
            var answered := silent.(answers := true, writeLands := false);
            RunTick(After(FORGOTTEN, [silent, silent, answered]), silent).attempted
  {
    var silent := Tick(10000.0, true, true, false, true, false, true);
    var answered := silent.(answers := true, writeLands := false);
    var ticks := [silent, silent, answered];
    AfterOneMore(FORGOTTEN, ticks);
    assert Front(ticks) == [silent, silent];
    AfterOneMore(FORGOTTEN, [silent, silent]);
    assert Front([silent, silent]) == [silent];
    AfterOneMore(FORGOTTEN, [silent]);
    assert Front([silent]) == [];
  }
}

/**
 The freeze watchdog: every tick is a process of its own, so what it remembers is a file that may refuse
 any write.  Restarts must still be spaced with a backoff that doubles up to a cap.
 */
module ServiceWatchdog {
  import opened Wrappers

  const FAILURE_THRESHOLD: nat := 3
  const RESTART_COOLDOWN: real := 300.0
  const RESTART_COOLDOWN_MAX: real := 3600.0
  // 2.0 raised to this power no longer fits a float, and Python raises instead of returning.
  const OVERFLOWING_EXPONENT: nat := 1024

  /** The state file; a file that is not there reads as the first of these. */
  datatype Memory = Memory(consecutiveFailures: nat, healthyStreak: nat, restartsSinceHealthy: nat,
                           lastRestartAt: real, restarts: nat)

  const FORGOTTEN := Memory(0, 0, 0, 0.0, 0)

  datatype Outcome = Healthy | Unanswered | Restarted | CoolingDown | NotInstalled | StateUnwritable | Raised

  /** Everything a tick does not decide: the clock, the service, and whether the disk plays along. */
  datatype Tick = Tick(now: real, readable: bool, loaded: bool, answers: bool, writeLands: bool,
                       restartWorks: bool, lastWriteLands: bool)

  function Power2(exponent: nat): (p: nat)
    ensures p >= 1
  {
    if exponent == 0 then 1 else 2 * Power2(exponent - 1)
  }

  function Capped(cooldown: real): real {
    if cooldown <= RESTART_COOLDOWN_MAX then cooldown else RESTART_COOLDOWN_MAX
  }

  /** How long to wait after the last restart; None when computing it overflows. */
  function CurrentCooldown(restartsSinceHealthy: nat): Option<real> {
    var ineffective := if restartsSinceHealthy == 0 then 0 else restartsSinceHealthy - 1;
    if ineffective >= OVERFLOWING_EXPONENT then None
    else Some(Capped(RESTART_COOLDOWN * Power2(ineffective) as real))
  }

  /** What a tick leaves behind: the file, what it reports, and whether it asked for a restart. */
  datatype Done = Done(memory: Memory, outcome: Outcome, attempted: bool)

  function Written(before: Memory, after: Memory, lands: bool): Memory {
    if lands then after else before
  }

  function RunTick(file: Memory, t: Tick): Done {
    var state := if t.readable then file else FORGOTTEN;
    if !t.loaded then
      Done(Written(file, state.(consecutiveFailures := 0), t.writeLands), NotInstalled, false)
    else if t.answers then
      var streak := state.healthyStreak + 1;
      var recovered := state.(consecutiveFailures := 0, healthyStreak := streak,
                              restartsSinceHealthy := if streak >= FAILURE_THRESHOLD then 0
                                                      else state.restartsSinceHealthy);
      Done(Written(file, recovered, t.writeLands), Healthy, false)
    else
      var failing := state.(consecutiveFailures := state.consecutiveFailures + 1, healthyStreak := 0);
      if failing.consecutiveFailures < FAILURE_THRESHOLD then
        Done(Written(file, failing, t.writeLands), if t.writeLands then Unanswered else StateUnwritable, false)
      else
        var cooldown := CurrentCooldown(failing.restartsSinceHealthy);
        if cooldown.None? then Done(file, Raised, false)
        else if t.now - failing.lastRestartAt < cooldown.value then
          Done(Written(file, failing, t.writeLands), CoolingDown, false)
        else if !t.writeLands then Done(file, StateUnwritable, false)
        else
          var attempt := failing.(lastRestartAt := t.now, restartsSinceHealthy := failing.restartsSinceHealthy + 1);
          if !t.restartWorks then Done(attempt, Unanswered, true)
          else if CurrentCooldown(attempt.restartsSinceHealthy).None? then Done(attempt, Raised, true)
          else Done(Written(attempt, attempt.(consecutiveFailures := 0, restarts := attempt.restarts + 1),
                            t.lastWriteLands), Restarted, true)
  }

  class Watchdog {
    var file: Memory

    method WriteState(state: Memory, lands: bool) returns (ok: bool)
      modifies this
      ensures ok == lands && file == Written(old(file), state, lands)
    {
      if lands {
        file := state;
      }
      return lands;
    }

    method DoTick(t: Tick) returns (outcome: Outcome, attempted: bool)
      modifies this
      ensures Done(file, outcome, attempted) == RunTick(old(file), t)
    {
      attempted := false;
      var state := if t.readable then file else FORGOTTEN;
      var ok;
      if !t.loaded {
        ok := WriteState(state.(consecutiveFailures := 0), t.writeLands);
        return NotInstalled, false;
      }
      if t.answers {
        var streak := state.healthyStreak + 1;
        var recovered := state.(consecutiveFailures := 0, healthyStreak := streak);
        if streak >= FAILURE_THRESHOLD {
          recovered := recovered.(restartsSinceHealthy := 0);
        }
        ok := WriteState(recovered, t.writeLands);
        return Healthy, false;
      }
      var failures := state.consecutiveFailures + 1;
      state := state.(consecutiveFailures := failures, healthyStreak := 0);
      if failures < FAILURE_THRESHOLD {
        ok := WriteState(state, t.writeLands);
        if !ok {
          return StateUnwritable, false;
        }
        return Unanswered, false;
      }
      var sinceRestart := t.now - state.lastRestartAt;
      var cooldown := CurrentCooldown(state.restartsSinceHealthy);
      if cooldown.None? {
        return Raised, false;
      }
      if sinceRestart < cooldown.value {
        ok := WriteState(state, t.writeLands);
        return CoolingDown, false;
      }
      // The attempt is recorded before it is made, and made only if that record landed.
      state := state.(lastRestartAt := t.now, restartsSinceHealthy := state.restartsSinceHealthy + 1);
      ok := WriteState(state, t.writeLands);
      if !ok {
        return StateUnwritable, false;
      }
      attempted := true;
      if !t.restartWorks {
        return Unanswered, true;
      }
      state := state.(consecutiveFailures := 0, restarts := state.restarts + 1);
      if CurrentCooldown(state.restartsSinceHealthy).None? {
        return Raised, true;
      }
      ok := WriteState(state, t.lastWriteLands);
      return Restarted, true;
    }
  }

  // ---- whole runs ----

  /** The file after a run of ticks. */
  function After(file: Memory, ticks: seq<Tick>): Memory
    decreases |ticks|
  {
    if ticks == [] then file else After(RunTick(file, ticks[0]).memory, ticks[1..])
  }

  /** The times restarts were asked for. */
  function Attempts(file: Memory, ticks: seq<Tick>): seq<real>
    decreases |ticks|
  {
    if ticks == [] then []
    else
      var done := RunTick(file, ticks[0]);
      (if done.attempted then [ticks[0].now] else []) + Attempts(done.memory, ticks[1..])
  }

  /** The tick leaves the last restart in the file: it could read it, did not write, or there was none. */
  predicate Remembers(file: Memory, t: Tick) {
    t.readable || !t.writeLands || file.lastRestartAt == 0.0
  }

  predicate AllRemember(file: Memory, ticks: seq<Tick>)
    decreases |ticks|
  {
    ticks == [] || (Remembers(file, ticks[0]) && AllRemember(RunTick(file, ticks[0]).memory, ticks[1..]))
  }

  /** No tick of the run manages to persist that the deck is healthy again. */
  predicate NeverReset(file: Memory, ticks: seq<Tick>)
    decreases |ticks|
  {
    ticks == [] ||
    (RunTick(file, ticks[0]).memory.restartsSinceHealthy >= file.restartsSinceHealthy
     && NeverReset(RunTick(file, ticks[0]).memory, ticks[1..]))
  }

  function Cooldown(restartsSinceHealthy: nat): real {
    var ineffective := if restartsSinceHealthy == 0 then 0 else restartsSinceHealthy - 1;
    Capped(RESTART_COOLDOWN * Power2(ineffective) as real)
  }

  /** The least time `count` more restarts take, from a count already reached. */
  function Delay(restartsSinceHealthy: nat, count: nat): real
    decreases count
  {
    if count == 0 then 0.0 else Cooldown(restartsSinceHealthy) + Delay(restartsSinceHealthy + 1, count - 1)
  }

  /**
   A restart is asked for only when the cooldown in the file is over, and only with itself in the file.  Any
   other tick leaves the last restart there if and only if it could read the file, did not write it, or
   there was none.
   */
  lemma {:induction false} AttemptRespectsCooldown(file: Memory, t: Tick)
    ensures var done := RunTick(file, t);
            if done.attempted then
              && t.now - file.lastRestartAt >= Cooldown(file.restartsSinceHealthy)
              && done.memory.lastRestartAt == t.now
              && done.memory.restartsSinceHealthy == file.restartsSinceHealthy + 1
            else
              && (done.memory.lastRestartAt == file.lastRestartAt <==> Remembers(file, t))
              && (done.memory.lastRestartAt == file.lastRestartAt || done.memory.lastRestartAt == 0.0)
              && done.memory.restartsSinceHealthy <= file.restartsSinceHealthy
  {
  }

  lemma {:induction false} NothingToForget(file: Memory, ticks: seq<Tick>)
    requires file.lastRestartAt == 0.0 && Attempts(file, ticks) == []
    ensures After(file, ticks).lastRestartAt == 0.0 && AllRemember(file, ticks)
    decreases |ticks|
  {
    if ticks != [] {
      AttemptRespectsCooldown(file, ticks[0]);
      NothingToForget(RunTick(file, ticks[0]).memory, ticks[1..]);
    }
  }

  /** As long as no restart is asked for, the file knows the last one if and only if no tick forgets it. */
  lemma {:induction false} LastRestartIsRemembered(file: Memory, ticks: seq<Tick>)
    requires Attempts(file, ticks) == []
    ensures After(file, ticks).lastRestartAt == file.lastRestartAt <==> AllRemember(file, ticks)
    decreases |ticks|
  {
    if ticks != [] {
      var next := RunTick(file, ticks[0]).memory;
      AttemptRespectsCooldown(file, ticks[0]);
      if Remembers(file, ticks[0]) {
        LastRestartIsRemembered(next, ticks[1..]);
      } else {
        NothingToForget(next, ticks[1..]);
      }
    }
  }

  /**
   Any two restarts with none asked for between them are at least a cooldown apart, the one the file calls
   for when the second is asked for, unless a tick between them forgets the first.
   */
  lemma {:induction false} ConsecutiveAttemptsAreSpaced(file: Memory, first: Tick, between: seq<Tick>, second: Tick)
    requires RunTick(file, first).attempted
    requires Attempts(RunTick(file, first).memory, between) == []
    requires AllRemember(RunTick(file, first).memory, between)
    requires RunTick(After(RunTick(file, first).memory, between), second).attempted
    ensures var persisted := After(RunTick(file, first).memory, between);
            second.now - first.now >= Cooldown(persisted.restartsSinceHealthy) >= RESTART_COOLDOWN
  {
    var reached := RunTick(file, first).memory;
    AttemptRespectsCooldown(file, first);
    LastRestartIsRemembered(reached, between);
    AttemptRespectsCooldown(After(reached, between), second);
  }

  /** With no reset persisted and nothing forgotten, each restart waits for all the cooldowns up to it. */
  lemma {:induction false} AttemptsFollowBackoff(file: Memory, ticks: seq<Tick>, k: nat)
    requires AllRemember(file, ticks) && NeverReset(file, ticks) && k < |Attempts(file, ticks)|
    ensures Attempts(file, ticks)[k] >= file.lastRestartAt + Delay(file.restartsSinceHealthy, k + 1)
    decreases |ticks|
  {
    var t, rest := ticks[0], ticks[1..];
    var done := RunTick(file, t);
    AttemptRespectsCooldown(file, t);
    if !done.attempted {
      AttemptsFollowBackoff(done.memory, rest, k);
    } else if k > 0 {
      AttemptsFollowBackoff(done.memory, rest, k - 1);
    }
  }

  lemma {:induction false} BackoffFromCount(file: Memory, ticks: seq<Tick>, k: nat)
    requires AllRemember(file, ticks) && NeverReset(file, ticks) && k < |Attempts(file, ticks)|
    ensures Attempts(file, ticks)[k] >= Attempts(file, ticks)[0] + Delay(file.restartsSinceHealthy + 1, k)
    decreases |ticks|
  {
    var t, rest := ticks[0], ticks[1..];
    var done := RunTick(file, t);
    AttemptRespectsCooldown(file, t);
    if !done.attempted {
      BackoffFromCount(done.memory, rest, k);
    } else if k > 0 {
      AttemptsFollowBackoff(done.memory, rest, k - 1);
    }
  }

  lemma {:induction false} LaterCountsWaitLonger(a: nat, b: nat, count: nat)
    requires a <= b
    ensures Cooldown(a) <= Cooldown(b) && Delay(a, count) <= Delay(b, count)
    decreases count
  {
    PowersGrow(if a == 0 then 0 else a - 1, if b == 0 then 0 else b - 1);
    if count > 0 {
      LaterCountsWaitLonger(a + 1, b + 1, count - 1);
    }
  }

  /**
   The schedule: with no reset persisted and nothing forgotten, the k-th restart after the first comes at
   least the sum of the first k cooldowns after it -- five, ten, twenty, forty minutes, and an hour from
   then on -- and of longer ones if restarts had been counted before.
   */
  lemma {:induction false} BackoffSchedule(file: Memory, ticks: seq<Tick>, k: nat)
    requires AllRemember(file, ticks) && NeverReset(file, ticks) && k < |Attempts(file, ticks)|
    ensures Attempts(file, ticks)[k] >= Attempts(file, ticks)[0] + Delay(file.restartsSinceHealthy + 1, k)
    ensures Attempts(file, ticks)[k] >= Attempts(file, ticks)[0] + Delay(1, k)
  {
    BackoffFromCount(file, ticks, k);
    LaterCountsWaitLonger(1, file.restartsSinceHealthy + 1, k);
  }

  /** The cooldowns themselves: doubling from five minutes, an hour from the fifth on. */
  lemma {:induction false} CooldownsDoubleToTheCap(restartsSinceHealthy: nat)
    ensures Cooldown(1) == 300.0 && Cooldown(2) == 600.0 && Cooldown(3) == 1200.0 && Cooldown(4) == 2400.0
    ensures restartsSinceHealthy >= 5 ==> Cooldown(restartsSinceHealthy) == 3600.0
    decreases restartsSinceHealthy
  {
    assert Power2(1) == 2 && Power2(2) == 4 && Power2(3) == 8;
    assert Power2(4) == 16;
    if restartsSinceHealthy > 5 {
      CooldownsDoubleToTheCap(restartsSinceHealthy - 1);
      PowersGrow(4, restartsSinceHealthy - 1);
    }
  }

  lemma {:induction false} PowersGrow(a: nat, b: nat)
    requires a <= b
    ensures Power2(a) <= Power2(b)
    decreases b
  {
    if a < b {
      PowersGrow(a, b - 1);
    }
  }

  /** With a file that refuses every write nothing is ever restarted and nothing is forgotten. */
  lemma {:induction false} NoMemoryNoRestart(file: Memory, ticks: seq<Tick>)
    requires forall t | t in ticks :: !t.writeLands
    ensures Attempts(file, ticks) == [] && After(file, ticks) == file
    decreases |ticks|
  {
    if ticks != [] {
      assert ticks[0] in ticks;
      NoMemoryNoRestart(file, ticks[1..]);
    }
  }

  // ---- where it falls short ----

  /**
   After 1025 restarts that did not help, computing the cooldown overflows: from then on every tick that
   would restart the deck raises instead, for as long as the deck stays silent and its count is kept.
   */
  lemma {:induction false} OverflowEndsRestarts(file: Memory, ticks: seq<Tick>)
    requires file.restartsSinceHealthy > OVERFLOWING_EXPONENT && file.consecutiveFailures + 1 >= FAILURE_THRESHOLD
    requires forall t | t in ticks :: (t.readable && t.loaded && !t.answers) || (!t.readable && !t.writeLands)
    ensures Attempts(file, ticks) == [] && After(file, ticks) == file
    decreases |ticks|
  {
    if ticks != [] {
      assert ticks[0] in ticks;
      OverflowEndsRestarts(file, ticks[1..]);
    }
  }

  /** One restart short of that the watchdog still restarts, so the bound is exact. */
  lemma {:induction false} LastRestartBeforeOverflow(file: Memory, t: Tick)
    requires file.consecutiveFailures + 1 >= FAILURE_THRESHOLD
    requires t.readable && t.loaded && !t.answers && t.writeLands && t.now - file.lastRestartAt >= RESTART_COOLDOWN_MAX
    ensures RunTick(file, t).attempted <==> file.restartsSinceHealthy <= OVERFLOWING_EXPONENT
  {
  }

  /** A file that cannot be read once forgets the restart it recorded, and with it the cooldown. */
  lemma {:induction false} UnreadableFileForgetsCooldown()
    ensures var file := Memory(2, 0, 0, 0.0, 0);
            var silent := Tick(10000.0, true, true, false, true, false, true);
            var ticks := [silent, silent.(readable := false), silent, silent];
            Attempts(file, ticks) == [10000.0, 10000.0]
  {
    var file := Memory(2, 0, 0, 0.0, 0);
    var silent := Tick(10000.0, true, true, false, true, false, true);
    var unread := silent.(readable := false);
    var ticks := [silent, unread, silent, silent];
    var one := RunTick(file, silent).memory;
    var two := RunTick(one, unread).memory;
    var three := RunTick(two, silent).memory;
    assert two == Memory(1, 0, 0, 0.0, 0) && three == Memory(2, 0, 0, 0.0, 0);
    assert ticks[1..] == [unread, silent, silent];
    assert ticks[1..][1..] == [silent, silent] && [silent, silent][1..] == [silent];
    assert Attempts(three, [silent]) == [10000.0] + Attempts(RunTick(three, silent).memory, []);
    assert Attempts(two, [silent, silent]) == Attempts(three, [silent]);
    assert Attempts(one, ticks[1..]) == Attempts(two, [silent, silent]);
    assert Attempts(file, ticks) == [10000.0] + Attempts(one, ticks[1..]);
  }
}

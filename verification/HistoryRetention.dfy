/**
 Retention and scanning over whole runs: what eviction gave up, a later scan must not bring back.
 */
module HistoryRetention {
  import opened Bytes
  import opened Wrappers
  import opened TranscriptChunks
  import opened HistoryIndex

  datatype State = State(entries: map<Path, Entry>, watermark: int) {
    function Known(path: Path): Option<Entry> {
      if path in entries then Some(entries[path]) else None
    }
  }

  datatype Action =
    | Sync(path: Path, stat: Stat, read: Option<seq<Byte>>)
    | Prune(onDisk: set<Path>)
    | Enforce(gone: seq<Path>)
    | Interrupted(gone: seq<Path>)   // the database raised after these were deleted

  /** One step of the index thread; the cases are what the index's methods promise. */
  ghost predicate Next(extract: Extract, before: State, action: Action, after: State) {
    match action
    case Sync(path, stat, read) =>
      && after.watermark == before.watermark
      && after.Known(path) == SyncEntry(extract, before.Known(path), stat, read, before.watermark)
      && forall p | p != path :: after.Known(p) == before.Known(p)
    case Prune(onDisk) =>
      after == before.(entries := map p | p in before.entries && p in onDisk :: before.entries[p])
    case Enforce(gone) =>
      if gone == [] then after == before else Evicts(before.entries, after.entries, after.watermark, gone)
    case Interrupted(gone) =>
      after.watermark == before.watermark && GivesUp(before.entries, after.entries, gone)
  }

  /** A file's modification time never goes back. */
  ghost predicate TimeGoesForward(before: State, action: Action) {
    action.Sync? && action.path in before.entries ==> before.entries[action.path].mtime <= action.stat.mtime
  }

  ghost predicate IsRun(extract: Extract, states: seq<State>, actions: seq<Action>) {
    && |states| == |actions| + 1
    && forall i :: 0 <= i < |actions| ==>
         Next(extract, states[i], actions[i], states[i + 1]) && TimeGoesForward(states[i], actions[i])
  }

  /** Once something was cut away, everything still indexed is at or past the cut. */
  ghost predicate PastTheCut(s: State) {
    && 0 <= s.watermark
    && (s.watermark > 0 ==> forall p | p in s.entries :: s.watermark <= s.entries[p].mtime)
  }

  lemma {:induction false} StepKeepsPastTheCut(extract: Extract, before: State, action: Action, after: State)
    requires PastTheCut(before) && Next(extract, before, action, after) && TimeGoesForward(before, action)
    ensures PastTheCut(after) && before.watermark <= after.watermark
  {
    match action
    case Sync(path, stat, read) =>
      forall p | p in after.entries && after.watermark > 0 ensures after.watermark <= after.entries[p].mtime {
        assert p != path ==> after.Known(p) == before.Known(p);
        if p == path {
          assert after.Known(path).Some?;
          assert path in before.entries ==> before.watermark <= before.entries[path].mtime;
        }
      }
    case Prune(_) =>
    case Enforce(gone) =>
      if gone != [] {
        NewestNotNegative(before.entries, gone);
        assert gone[0] in gone;
        assert before.watermark > 0 ==> before.watermark <= before.entries[gone[0]].mtime;
        forall q | q in after.entries && after.watermark > 0 ensures after.watermark <= after.entries[q].mtime {
          var p :| p in gone && before.entries[p].mtime == after.watermark;
        }
      }
    case Interrupted(_) =>
  }

  /** In every reachable state the indexed transcripts are past the cut, and the cut never moves back. */
  lemma {:induction false} CutNeverMovesBack(extract: Extract, states: seq<State>, actions: seq<Action>, i: nat, j: nat)
    requires IsRun(extract, states, actions) && PastTheCut(states[0])
    requires i <= j < |states|
    ensures PastTheCut(states[i]) && PastTheCut(states[j]) && states[i].watermark <= states[j].watermark
    decreases j
  {
    if i < j {
      CutNeverMovesBack(extract, states, actions, i, j - 1);
      StepKeepsPastTheCut(extract, states[j - 1], actions[j - 1], states[j - 1 + 1]);
    } else if j > 0 {
      CutNeverMovesBack(extract, states, actions, j - 1, j - 1);
      StepKeepsPastTheCut(extract, states[j - 1], actions[j - 1], states[j - 1 + 1]);
    }
  }

  /** The transcript was given up at this step, and its file has not been modified since. */
  ghost predicate EvictedAndUntouched(states: seq<State>, actions: seq<Action>, step: nat, path: Path)
    requires |states| == |actions| + 1 && step < |actions|
  {
    && actions[step].Enforce? && path in actions[step].gone && path in states[step].entries
    && forall k :: step < k < |actions| && actions[k].Sync? && actions[k].path == path ==>
         actions[k].stat.mtime == states[step].entries[path].mtime
  }

  /** What eviction gave up stays out for as long as nothing touches it. */
  lemma {:induction false} EvictedStaysOut(extract: Extract, states: seq<State>, actions: seq<Action>,
                                           step: nat, path: Path, later: nat)
    requires IsRun(extract, states, actions) && PastTheCut(states[0])
    requires step < |actions| && step < later < |states|
    requires EvictedAndUntouched(states, actions, step, path)
    requires states[step + 1].watermark > 0
    ensures path !in states[later].entries
    decreases later
  {
    var mtime := states[step].entries[path].mtime;
    NewestNotNegative(states[step].entries, actions[step].gone);
    if later > step + 1 {
      var last := later - 1;
      EvictedStaysOut(extract, states, actions, step, path, last);
      CutNeverMovesBack(extract, states, actions, step + 1, last);
      assert Next(extract, states[last], actions[last], states[last + 1]);
      if actions[last].Sync? && actions[last].path != path {
        assert states[last + 1].Known(path) == states[last].Known(path);
      }
    } else {
      assert Next(extract, states[step], actions[step], states[step + 1]);
    }
  }

  /**
   The watermark protects an eviction exactly when it is not zero, that is when some transcript given
   up was modified after the epoch: otherwise the next scan of an untouched one indexes it again.
   */
  lemma {:induction false} ProtectedIffWatermarkSet(extract: Extract, before: State, gone: seq<Path>, after: State, path: Path,
                                 stat: Stat, read: Option<seq<Byte>>)
    requires PastTheCut(before) && gone != [] && Next(extract, before, Enforce(gone), after)
    requires path in gone && stat.mtime == before.entries[path].mtime
    ensures SyncEntry(extract, after.Known(path), stat, read, after.watermark).None? <==> after.watermark != 0
    ensures after.watermark != 0 <==> exists p | p in gone :: before.entries[p].mtime > 0
  {
    NewestNotNegative(before.entries, gone);
  }

  /** Given up with nothing in the index newer than the epoch, a transcript comes straight back. */
  lemma {:induction false} EpochTranscriptComesBack(extract: Extract, read: Option<seq<Byte>>)
    ensures var entry := Entry(10, 0, []);
            var before, after := State(map["a" := entry], 0), State(map[], 0);
            && Next(extract, before, Enforce(["a"]), after)
            && SyncEntry(extract, after.Known("a"), Stat(10, 0), read, after.watermark).Some?
  {
    var entries := map["a" := Entry(10, 0, [])];
    assert Without(entries, ["a"]) == map[];
    assert Newest(entries, ["a"]) == Max(0, Newest(entries, []));
    assert forall p | p in ["a"] :: p in entries;
  }

  /**
   An eviction the database interrupts has deleted transcripts behind the watermark of the one before.  The
   next scan of an untouched one indexes it again, exactly unless it is as old as that watermark.
   */
  lemma {:induction false} InterruptedComesBackIffNewer(extract: Extract, before: State, gone: seq<Path>, after: State,
                                                        path: Path, stat: Stat, read: Option<seq<Byte>>)
    requires PastTheCut(before) && Next(extract, before, Interrupted(gone), after)
    requires path in gone && stat.mtime == before.entries[path].mtime
    ensures SyncEntry(extract, after.Known(path), stat, read, after.watermark).Some? <==>
            before.watermark == 0 || stat.mtime > before.watermark
  {
    assert path !in after.entries;
  }

  /** Given up at time 7 when the last cut was at time 5, a transcript comes back after the error. */
  lemma {:induction false} InterruptedEvictionIsUndone(extract: Extract, read: Option<seq<Byte>>)
    ensures var before, after := State(map["a" := Entry(10, 7, [])], 5), State(map[], 5);
            && PastTheCut(before) && Next(extract, before, Interrupted(["a"]), after)
            && SyncEntry(extract, after.Known("a"), Stat(10, 7), read, after.watermark).Some?
  {
    assert Without(map["a" := Entry(10, 7, [])], ["a"]) == map[];
  }
}

/**
 The regular expression of a walk and return, read as a grammar, against the scanning that finds it.
 */
module RepaintPattern {
  import opened Bytes
  import opened Wrappers
  import opened RepaintFilter

  // ---- the grammar ----

  /** A line feed, or a return right before one. */
  predicate IsInBreak(run: seq<Byte>, i: nat)
    requires i < |run|
  {
    run[i] == 10 || (run[i] == 13 && i + 1 < |run| && run[i + 1] == 10)
  }

  /** LF or CR LF, so many times. */
  predicate IsBreaks(run: seq<Byte>, lines: nat) {
    (forall i :: 0 <= i < |run| ==> IsInBreak(run, i)) && multiset(run)[10] == lines
  }

  /** CSI, with nothing but digits, and perhaps semicolons, before the last byte. */
  predicate IsControl(data: seq<Byte>, semicolons: bool) {
    && |data| > 2 && data[0] == 0x1b && data[1] == 0x5b
    && forall i :: 2 <= i < |data| - 1 ==> 0x30 <= data[i] <= 0x39 || (semicolons && data[i] == 0x3b)
  }

  predicate IsMove(data: seq<Byte>) {
    || (IsControl(data, true) && (data[|data| - 1] == 0x43 || data[|data| - 1] == 0x44 || data[|data| - 1] == 0x47))
    || data == [0x1b, 0x5b, 0x3f, 0x32, 0x35, 0x68] || data == [0x1b, 0x5b, 0x3f, 0x32, 0x35, 0x6c]
  }

  ghost predicate IsMoves(data: seq<Byte>)
    decreases |data|
  {
    data == [] || exists n :: 0 < n <= |data| && IsMove(data[..n]) && IsMoves(data[n..])
  }

  predicate IsUp(data: seq<Byte>) {
    IsControl(data, false) && data[|data| - 1] == 0x41
  }

  ghost predicate IsBack(data: seq<Byte>) {
    exists n :: 0 <= n <= |data| && IsMoves(data[..n]) && IsUp(data[n..])
  }

  /** Line breaks, then moves and a cursor-up. */
  ghost predicate IsWalkAndReturn(data: seq<Byte>, walk: Walk) {
    && walk.lines > 0 && walk.run + walk.back <= |data|
    && IsBreaks(data[..walk.run], walk.lines)
    && IsBack(data[walk.run..walk.run + walk.back])
  }

  // ---- line breaks ----

  lemma {:induction false} LineFeedsAddUp(one: seq<Byte>, more: seq<Byte>)
    requires one == [10] || one == [13, 10]
    ensures multiset(one + more)[10] == 1 + multiset(more)[10]
  {
    assert multiset(one + more) == multiset(one) + multiset(more);
  }

  lemma {:induction false} BreakAndMore(one: seq<Byte>, more: seq<Byte>, lines: nat)
    requires (one == [10] || one == [13, 10]) && IsBreaks(more, lines)
    ensures IsBreaks(one + more, 1 + lines)
  {
    LineFeedsAddUp(one, more);
    forall i | 0 <= i < |one + more| ensures IsInBreak(one + more, i) {
      assert i >= |one| ==> IsInBreak(more, i - |one|);
    }
  }

  lemma {:induction false} MoreAfterBreak(one: seq<Byte>, more: seq<Byte>, lines: nat)
    requires (one == [10] || one == [13, 10]) && IsBreaks(one + more, lines)
    ensures lines > 0 && IsBreaks(more, lines - 1)
  {
    LineFeedsAddUp(one, more);
    forall i | 0 <= i < |more| ensures IsInBreak(more, i) {
      assert IsInBreak(one + more, |one| + i);
    }
  }

  lemma {:induction false} RunIsBreaks(data: seq<Byte>)
    ensures IsBreaks(data[..BreakRun(data).0], BreakRun(data).1)
    decreases |data|
  {
    var length := BreakLength(data);
    if length == 0 {
      assert data[..0] == [];
    } else {
      var (run, lines) := BreakRun(data[length..]);
      RunIsBreaks(data[length..]);
      assert data[..length + run] == data[..length] + data[length..][..run];
      BreakAndMore(data[..length], data[length..][..run], lines);
    }
  }

  lemma {:induction false} FirstBreak(breaks: seq<Byte>, lines: nat) returns (length: nat)
    requires breaks != [] && IsBreaks(breaks, lines)
    ensures 0 < length <= |breaks| && lines > 0 && IsBreaks(breaks[length..], lines - 1)
    ensures breaks[..length] == [10] || breaks[..length] == [13, 10]
  {
    assert IsInBreak(breaks, 0);
    length := if breaks[0] == 10 then 1 else 2;
    assert breaks == breaks[..length] + breaks[length..];
    MoreAfterBreak(breaks[..length], breaks[length..], lines);
  }

  lemma {:induction false} BreaksAreTheRun(breaks: seq<Byte>, lines: nat, after: seq<Byte>)
    requires IsBreaks(breaks, lines) && after != [] && after[0] == ESC
    ensures BreakRun(breaks + after) == (|breaks|, lines)
    decreases |breaks|
  {
    if breaks == [] {
      assert breaks + after == after;
    } else {
      var length := FirstBreak(breaks, lines);
      SplitOff(breaks, length, after);
      BreaksAreTheRun(breaks[length..], lines - 1, after);
      NextBreak(breaks[..length], breaks[length..] + after);
      assert breaks + after == breaks[..length] + (breaks[length..] + after);
    }
  }

  lemma {:induction false} NextBreak(one: seq<Byte>, more: seq<Byte>)
    requires one == [10] || one == [13, 10]
    ensures BreakRun(one + more) == (|one| + BreakRun(more).0, 1 + BreakRun(more).1)
  {
    assert (one + more)[|one|..] == more;
    assert BreakLength(one + more) == |one|;
  }

  // ---- control sequences ----

  lemma {:induction false} ParametersGoOn(data: seq<Byte>, position: nat, end: nat, semicolons: bool)
    requires position <= end < |data|
    requires forall i :: position <= i < end ==> 0x30 <= data[i] <= 0x39 || (semicolons && data[i] == 0x3b)
    requires !(0x30 <= data[end] <= 0x39 || data[end] == 0x3b)
    ensures ParametersEnd(data, position, semicolons) == end
    decreases end - position
  {
    if position < end {
      ParametersGoOn(data, position + 1, end, semicolons);
    }
  }

  lemma {:induction false} OnlyParametersBefore(data: seq<Byte>, position: nat, semicolons: bool)
    requires position <= |data|
    ensures forall i :: position <= i < ParametersEnd(data, position, semicolons) ==>
              0x30 <= data[i] <= 0x39 || (semicolons && data[i] == 0x3b)
    decreases |data| - position
  {
    if position < |data| && (IsDigit(data[position]) || (semicolons && data[position] == 0x3b)) {
      OnlyParametersBefore(data, position + 1, semicolons);
    }
  }

  lemma {:induction false} FoundIsMove(data: seq<Byte>)
    requires MoveLength(data) > 0
    ensures IsMove(data[..MoveLength(data)])
  {
    OnlyParametersBefore(data, 2, true);
  }

  lemma {:induction false} MoveIsFound(data: seq<Byte>, n: nat)
    requires n <= |data| && IsMove(data[..n])
    ensures MoveLength(data) == n > 0
  {
    var move := data[..n];
    assert forall i :: 0 <= i < n ==> data[i] == move[i];
    if IsControl(move, true) {
      ParametersGoOn(data, 2, n - 1, true);
    } else {
      ParametersGoOn(data, 2, 2, true);
    }
  }

  lemma {:induction false} FoundIsUp(data: seq<Byte>)
    requires UpLength(data) > 0
    ensures IsUp(data[..UpLength(data)])
  {
    OnlyParametersBefore(data, 2, false);
  }

  lemma {:induction false} UpIsFound(data: seq<Byte>, n: nat)
    requires n <= |data| && IsUp(data[..n])
    ensures UpLength(data) == n > 0 && MoveLength(data) == 0 && data[0] == ESC
  {
    var up := data[..n];
    assert forall i :: 0 <= i < n ==> data[i] == up[i];
    ParametersGoOn(data, 2, n - 1, false);
    ParametersGoOn(data, 2, n - 1, true);
  }

  // ---- moves ----

  lemma {:induction false} FoundAreMoves(data: seq<Byte>)
    ensures IsMoves(data[..MovesLength(data)])
    decreases |data|
  {
    var first := MoveLength(data);
    if first > 0 {
      var length := MovesLength(data);
      FoundIsMove(data);
      FoundAreMoves(data[first..]);
      assert data[..length][..first] == data[..first];
      assert data[..length][first..] == data[first..][..length - first];
    }
  }

  lemma {:induction false} FirstMove(moves: seq<Byte>) returns (n: nat)
    requires moves != [] && IsMoves(moves)
    ensures 0 < n <= |moves| && IsMove(moves[..n]) && IsMoves(moves[n..])
  {
    n :| 0 < n <= |moves| && IsMove(moves[..n]) && IsMoves(moves[n..]);
  }

  lemma {:induction false} NoMoveIsLeft(data: seq<Byte>)
    requires MoveLength(data) == 0
    ensures MovesLength(data) == 0
  {
  }

  lemma {:induction false} MoveThenMoves(data: seq<Byte>, n: nat)
    requires n <= |data| && IsMove(data[..n])
    ensures MovesLength(data) == n + MovesLength(data[n..]) && data[0] == ESC
  {
    MoveIsFound(data, n);
    assert data[..n][0] == data[0];
  }

  /** Moves before a cursor-up are found one by one, up to it. */
  lemma {:induction false} MovesAreFound(moves: seq<Byte>, after: seq<Byte>)
    requires IsMoves(moves) && MoveLength(after) == 0 && after != [] && after[0] == ESC
    ensures MovesLength(moves + after) == |moves| && (moves + after)[0] == ESC
    decreases |moves|
  {
    if moves == [] {
      NoMoveIsLeft(after);
      assert moves + after == after;
    } else {
      var n := FirstMove(moves);
      SplitOff(moves, n, after);
      MovesAreFound(moves[n..], after);
      MoveThenMoves(moves + after, n);
    }
  }

  lemma {:induction false} SplitOff(moves: seq<Byte>, n: nat, after: seq<Byte>)
    requires n <= |moves|
    ensures (moves + after)[..n] == moves[..n] && (moves + after)[n..] == moves[n..] + after
  {
  }

  // ---- the pattern ----

  lemma {:induction false} FoundIsBack(data: seq<Byte>)
    requires UpLength(data[MovesLength(data)..]) > 0
    ensures IsBack(data[..MovesLength(data) + UpLength(data[MovesLength(data)..])])
  {
    var moves := MovesLength(data);
    var up := UpLength(data[moves..]);
    var back := data[..moves + up];
    FoundAreMoves(data);
    FoundIsUp(data[moves..]);
    assert back[..moves] == data[..moves] && back[moves..] == data[moves..][..up];
  }

  lemma {:induction false} SplitBack(back: seq<Byte>) returns (moves: nat)
    requires IsBack(back)
    ensures moves <= |back| && IsMoves(back[..moves]) && IsUp(back[moves..])
  {
    moves :| 0 <= moves <= |back| && IsMoves(back[..moves]) && IsUp(back[moves..]);
  }

  lemma {:induction false} SplitData(data: seq<Byte>, moves: nat, back: nat)
    requires moves <= back <= |data|
    ensures data == data[..back][..moves] + data[moves..] && data[moves..][..back - moves] == data[..back][moves..]
  {
  }

  lemma {:induction false} BackIsFound(data: seq<Byte>, back: nat)
    requires back <= |data| && IsBack(data[..back])
    ensures var moves := MovesLength(data); UpLength(data[moves..]) > 0 && moves + UpLength(data[moves..]) == back
    ensures data != [] && data[0] == ESC
  {
    var moves := SplitBack(data[..back]);
    var before, after := data[..back][..moves], data[moves..];
    SplitData(data, moves, back);
    UpIsFound(after, back - moves);
    assert MovesLength(data) == moves && data != [] && data[0] == ESC by {
      MovesAreFound(before, after);
      assert data == before + after;
    }
  }

  /** What a walk is, by what is looked for: the run, and the moves and the cursor-up behind it. */
  predicate IsLookedFor(data: seq<Byte>, walk: Walk) {
    && walk.lines > 0 && walk.run + walk.back <= |data| && BreakRun(data) == (walk.run, walk.lines)
    && EndsBack(data[walk.run..], walk.back)
  }

  predicate EndsBack(rest: seq<Byte>, back: nat) {
    var moves := MovesLength(rest);
    UpLength(rest[moves..]) > 0 && moves + UpLength(rest[moves..]) == back
  }

  lemma {:induction false} WalkIsLookedFor(data: seq<Byte>, walk: Walk)
    ensures WalkAndReturn(data) == Some(walk) <==> IsLookedFor(data, walk)
  {
  }

  lemma {:induction false} BackIsGrammar(data: seq<Byte>, run: nat, back: nat)
    requires run + back <= |data|
    ensures EndsBack(data[run..], back) <==> IsBack(data[run..run + back])
  {
    assert data[run..][..back] == data[run..run + back];
    if EndsBack(data[run..], back) {
      FoundIsBack(data[run..]);
    } else if IsBack(data[run..run + back]) {
      BackIsFound(data[run..], back);
    }
  }

  lemma {:induction false} BackStartsWithEscape(data: seq<Byte>, run: nat, back: nat)
    requires run + back <= |data| && IsBack(data[run..run + back])
    ensures run < |data| && data[run] == ESC
  {
    assert data[run..][..back] == data[run..run + back];
    BackIsFound(data[run..], back);
  }

  /** The scanning finds at the start of the data exactly what the expression matches there, which is one thing. */
  lemma {:induction false} WalkIsThePattern(data: seq<Byte>, walk: Walk)
    ensures WalkAndReturn(data) == Some(walk) <==> IsWalkAndReturn(data, walk)
  {
    WalkIsLookedFor(data, walk);
    LookingIsGrammar(data, walk);
  }

  lemma {:induction false} LookingIsGrammar(data: seq<Byte>, walk: Walk)
    ensures IsLookedFor(data, walk) <==> IsWalkAndReturn(data, walk)
  {
    if walk.run + walk.back <= |data| {
      assert EndsBack(data[walk.run..], walk.back) <==> IsBack(data[walk.run..walk.run + walk.back]) by {
        BackIsGrammar(data, walk.run, walk.back);
      }
      if IsBack(data[walk.run..walk.run + walk.back]) {
        RunIsGrammar(data, walk);
      }
    }
  }

  lemma {:induction false} RunIsGrammar(data: seq<Byte>, walk: Walk)
    requires walk.run + walk.back <= |data| && IsBack(data[walk.run..walk.run + walk.back])
    ensures BreakRun(data) == (walk.run, walk.lines) <==> IsBreaks(data[..walk.run], walk.lines)
  {
    BackStartsWithEscape(data, walk.run, walk.back);
    RunIsBreaks(data);
    if IsBreaks(data[..walk.run], walk.lines) {
      BreaksAreTheRun(data[..walk.run], walk.lines, data[walk.run..]);
      assert data == data[..walk.run] + data[walk.run..];
    }
  }

  // ---- the substitution ----

  /** A walk of two lines or more is rewritten, a shorter one is left as it is. */
  function Replaced(data: seq<Byte>, walk: Walk): seq<Byte>
    requires walk.run + walk.back <= |data|
  {
    if walk.lines >= 2 then CursorDown(walk.lines) + data[walk.run..walk.run + walk.back]
    else data[..walk.run + walk.back]
  }

  lemma {:induction false} StepReplaces(data: seq<Byte>, walk: Walk)
    requires data != [] && FitsIn(walk, |data|)
    ensures StepLength(Some(walk)) == walk.run + walk.back
    ensures StepOutput(Some(walk), data) == Replaced(data, walk)
    ensures StepLines(Some(walk)) == if walk.lines >= 2 then walk.lines else 0
  {
  }

  lemma {:induction false} SubstituteFront(find: Matcher, data: seq<Byte>, rest: seq<Byte>)
    requires Fits(find) && data != [] && rest == data[StepLength(find(data))..]
    ensures Substitute(find, data).0 == StepOutput(find(data), data) + Substitute(find, rest).0
    ensures Substitute(find, data).1 == StepLines(find(data)) + Substitute(find, rest).1
  {
  }

  lemma {:induction false} FoundFits(data: seq<Byte>, walk: Walk)
    requires IsWalkAndReturn(data, walk)
    ensures data != [] && FitsIn(walk, |data|) && WalkAndReturn(data) == Some(walk)
  {
    WalkIsThePattern(data, walk);
  }

  /** Where the expression matches, the rewriting goes on behind the match. */
  lemma {:induction false} RewriteOfWalk(data: seq<Byte>, walk: Walk, rest: seq<Byte>)
    requires IsWalkAndReturn(data, walk) && rest == data[walk.run + walk.back..]
    ensures Rewrite(data).0 == Replaced(data, walk) + Rewrite(rest).0
    ensures Rewrite(data).1 == (if walk.lines >= 2 then walk.lines else 0) + Rewrite(rest).1
  {
    FoundFits(data, walk);
    SubstituteOfFound(WalkAndReturn, data, walk, rest);
  }

  lemma {:induction false} SubstituteOfFound(find: Matcher, data: seq<Byte>, walk: Walk, rest: seq<Byte>)
    requires Fits(find) && data != [] && FitsIn(walk, |data|) && find(data) == Some(walk)
    requires rest == data[walk.run + walk.back..]
    ensures Substitute(find, data).0 == Replaced(data, walk) + Substitute(find, rest).0
    ensures Substitute(find, data).1 == (if walk.lines >= 2 then walk.lines else 0) + Substitute(find, rest).1
  {
    StepReplaces(data, walk);
    SubstituteFront(find, data, rest);
  }

  /** Where it does not, one byte is kept. */
  lemma {:induction false} RewriteOfOther(data: seq<Byte>)
    requires data != [] && forall walk :: !IsWalkAndReturn(data, walk)
    ensures Rewrite(data) == ([data[0]] + Rewrite(data[1..]).0, Rewrite(data[1..]).1)
  {
    if WalkAndReturn(data).Some? {
      WalkIsThePattern(data, WalkAndReturn(data).value);
    }
    SubstituteFront(WalkAndReturn, data, data[1..]);
    assert data[..1] == [data[0]];
  }
}

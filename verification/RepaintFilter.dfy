/**
 Rewriting a run of newlines that a cursor-up takes straight back as a cursor-down, which reaches the
 same row without scrolling the terminal.
 */
module RepaintFilter {
  import opened Bytes
  import opened Wrappers

  const MIN_RUN_LINES: nat := 2
  const OPEN_BRACKET: Byte := 0x5b
  const LETTER_A: Byte := 0x41
  const LETTER_B: Byte := 0x42

  // ---- the pattern ----

  /** One \r?\n at the start, or 0. */
  function BreakLength(data: seq<Byte>): (length: nat)
    ensures length <= |data| && length <= 2
    ensures length == 1 ==> data[0] == NEWLINE
    ensures length == 2 ==> data[0] == RETURN && data[1] == NEWLINE
  {
    if data != [] && data[0] == NEWLINE then 1
    else if |data| > 1 && data[0] == RETURN && data[1] == NEWLINE then 2
    else 0
  }

  /** The longest run of line breaks at the start: its bytes and its lines. */
  function BreakRun(data: seq<Byte>): (r: (nat, nat))
    ensures r.0 <= |data| && r.1 <= r.0 && (r.1 == 0 <==> r.0 == 0)
    decreases |data|
  {
    var length := BreakLength(data);
    if length == 0 then (0, 0)
    else
      var rest := BreakRun(data[length..]);
      (length + rest.0, 1 + rest.1)
  }

  predicate IsDigit(b: Byte) {
    0x30 <= b <= 0x39
  }

  /** How far digits, or digits and semicolons, go from a position on. */
  function ParametersEnd(data: seq<Byte>, position: nat, semicolons: bool): (end: nat)
    requires position <= |data|
    ensures position <= end <= |data|
    decreases |data| - position
  {
    if position < |data| && (IsDigit(data[position]) || (semicolons && data[position] == 0x3b))
    then ParametersEnd(data, position + 1, semicolons)
    else position
  }

  predicate OpensControl(data: seq<Byte>) {
    |data| > 2 && data[0] == ESC && data[1] == OPEN_BRACKET
  }

  /** A horizontal move (CSI ... C, D or G) or a cursor show or hide (CSI ? 2 5 h or l) at the start, or 0. */
  function MoveLength(data: seq<Byte>): (length: nat)
    ensures length <= |data|
  {
    if !OpensControl(data) then 0
    else
      var end := ParametersEnd(data, 2, true);
      if end < |data| && (data[end] == 0x43 || data[end] == 0x44 || data[end] == 0x47) then end + 1
      else if |data| > 5 && data[2] == 0x3f && data[3] == 0x32 && data[4] == 0x35 && (data[5] == 0x68 || data[5] == 0x6c)
      then 6
      else 0
  }

  function MovesLength(data: seq<Byte>): (length: nat)
    ensures length <= |data|
    decreases |data|
  {
    var first := MoveLength(data);
    if first == 0 then 0 else first + MovesLength(data[first..])
  }

  /** A cursor-up (CSI digits A) at the start, or 0. */
  function UpLength(data: seq<Byte>): (length: nat)
    ensures length <= |data|
  {
    if !OpensControl(data) then 0
    else
      var end := ParametersEnd(data, 2, false);
      if end < |data| && data[end] == LETTER_A then end + 1 else 0
  }

  /** A walk and return: the run of breaks, its lines, and the moves up to and with the cursor-up. */
  datatype Walk = Walk(run: nat, lines: nat, back: nat)

  function WalkAndReturn(data: seq<Byte>): (walk: Option<Walk>)
    ensures walk.Some? ==> walk.value.lines > 0 && walk.value.run > 0 && walk.value.back > 0
                           && walk.value.run + walk.value.back <= |data|
                           && (walk.value.run, walk.value.lines) == BreakRun(data)
                           && data[walk.value.run] == ESC
  {
    var (run, lines) := BreakRun(data);
    var rest := data[run..];
    var moves := MovesLength(rest);
    var up := UpLength(rest[moves..]);
    assert moves > 0 ==> rest[0] == ESC;
    assert moves == 0 ==> rest[moves..] == rest;
    if lines == 0 || up == 0 then None else Some(Walk(run, lines, moves + up))
  }

  // ---- the rewriting ----

  function Digits(n: nat): (digits: seq<Byte>)
    ensures digits != [] && forall b | b in digits :: IsDigit(b)
  {
    if n < 10 then [0x30 + n] else Digits(n / 10) + [0x30 + n % 10]
  }

  function CursorDown(lines: nat): seq<Byte> {
    [RETURN, ESC, OPEN_BRACKET] + Digits(lines) + [LETTER_B]
  }

  /** Finds a walk at the start of the data. */
  type Matcher = seq<Byte> -> Option<Walk>

  ghost predicate Fits(find: Matcher) {
    forall data :: find(data).Some? ==> FitsIn(find(data).value, |data|)
  }

  predicate FitsIn(walk: Walk, length: nat) {
    0 < walk.run && 0 < walk.back && walk.run + walk.back <= length
  }

  /** One step of the substitution consumes a match, or one byte that starts none. */
  function StepLength(step: Option<Walk>): (length: nat) {
    match step
    case None => 1
    case Some(walk) => walk.run + walk.back
  }

  function StepLines(step: Option<Walk>): nat {
    if step.Some? && step.value.lines >= MIN_RUN_LINES then step.value.lines else 0
  }

  /** What a step leaves in the output. */
  function StepOutput(step: Option<Walk>, data: seq<Byte>): seq<Byte>
    requires data != [] && (step.Some? ==> FitsIn(step.value, |data|))
  {
    if StepLines(step) > 0 then CursorDown(step.value.lines) + data[step.value.run..StepLength(step)]
    else data[..StepLength(step)]
  }

  /** re.sub: the data with its walks rewritten, and how many lines were collapsed. */
  function Substitute(find: Matcher, data: seq<Byte>): (seq<Byte>, nat)
    requires Fits(find)
    decreases |data|
  {
    if data == [] then ([], 0)
    else
      var step := find(data);
      var (out, collapsed) := Substitute(find, data[StepLength(step)..]);
      (StepOutput(step, data) + out, StepLines(step) + collapsed)
  }

  function Rewrite(data: seq<Byte>): (seq<Byte>, nat) {
    Substitute(WalkAndReturn, data)
  }

  class Filter {
    var collapsedLines: nat

    constructor ()
      ensures collapsedLines == 0
    {
      collapsedLines := 0;
    }

    method Feed(data: seq<Byte>) returns (out: seq<Byte>)
      modifies this
      ensures out == Rewrite(data).0
      ensures collapsedLines == old(collapsedLines) + Rewrite(data).1
    {
      if NEWLINE !in data {
        WithoutNewlinesUnchanged(data);
        return data;
      }
      out := SubstituteAll(WalkAndReturn, data);
    }

    method SubstituteAll(find: Matcher, data: seq<Byte>) returns (out: seq<Byte>)
      requires Fits(find)
      modifies this
      ensures out == Substitute(find, data).0
      ensures collapsedLines == old(collapsedLines) + Substitute(find, data).1
    {
      out := [];
      var rest := data;
      while rest != []
        invariant out + Substitute(find, rest).0 == Substitute(find, data).0
        invariant collapsedLines + Substitute(find, rest).1 == old(collapsedLines) + Substitute(find, data).1
        decreases |rest|
      {
        var step := find(rest);
        var length, kept := SubstituteOne(step, rest);
        SubstituteNext(find, out, rest);
        out := out + kept;
        rest := rest[length..];
      }
      assert out + [] == out;
    }

    method SubstituteOne(step: Option<Walk>, data: seq<Byte>) returns (length: nat, kept: seq<Byte>)
      requires data != [] && (step.Some? ==> FitsIn(step.value, |data|))
      modifies this
      ensures length == StepLength(step) && kept == StepOutput(step, data)
      ensures collapsedLines == old(collapsedLines) + StepLines(step)
    {
      if step.None? {
        return 1, data[..1];
      }
      var Walk(run, lines, back) := step.value;
      length := run + back;
      if lines < MIN_RUN_LINES {
        return length, data[..length];
      }
      collapsedLines := collapsedLines + lines;
      kept := CursorDown(lines) + data[run..length];
    }
  }

  lemma {:induction false} SubstituteNext(find: Matcher, out: seq<Byte>, data: seq<Byte>)
    requires Fits(find) && data != []
    ensures var step := find(data);
            var later := Substitute(find, data[StepLength(step)..]);
            && out + Substitute(find, data).0 == (out + StepOutput(step, data)) + later.0
            && Substitute(find, data).1 == StepLines(step) + later.1
  {
    var step := find(data);
    var kept, after := StepOutput(step, data), Substitute(find, data[StepLength(step)..]).0;
    assert out + (kept + after) == (out + kept) + after;
  }

  lemma {:induction false} WithoutNewlinesUnchanged(data: seq<Byte>)
    requires NEWLINE !in data
    ensures Rewrite(data) == (data, 0)
    decreases |data|
  {
    if data != [] {
      WithoutNewlinesUnchanged(data[1..]);
      assert data == data[..1] + data[1..];
    }
  }
}

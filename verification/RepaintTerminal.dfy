/**
 What the rewriting means to a terminal: carriage return, line feed, cursor down and cursor up (sections
 8.3.19 CUD and 8.3.22 CUU of ECMA-48) act on a cursor and scroll the screen at its last row.  Every other
 control sequence may move the cursor any way that does not depend on how far the screen has scrolled.
 */
module RepaintTerminal {
  import opened Bytes
  import opened Wrappers
  import opened RepaintFilter

  /** What the bytes so far have begun: nothing, ESC, a control sequence, or a control string. */
  datatype Parser = Ground | Escape | Control(parameters: seq<Byte>) | ControlString

  /** Something written: where on the screen, how far it had scrolled by then, and what. */
  datatype Mark = Mark(row: nat, column: nat, scrolled: nat, what: seq<Byte>)

  datatype Terminal = Terminal(row: nat, column: nat, parser: Parser, scrolled: nat, marks: seq<Mark>)

  /** Where another control sequence leaves the cursor, by its parameters, its final byte and the cursor. */
  type Effect = (seq<Byte>, Byte, nat, nat) -> (nat, nat)

  function Min(a: nat, b: nat): nat {
    if a <= b then a else b
  }

  function Value(digits: seq<Byte>): nat {
    if digits == [] then 0
    else
      var last := digits[|digits| - 1];
      Value(digits[..|digits| - 1]) * 10 + (if IsDigit(last) then last - 0x30 else 0)
  }

  /** The first parameter; missing or zero means one. */
  function FirstParameter(parameters: seq<Byte>): nat {
    var n := Value(parameters[..ParametersEnd(parameters, 0, false)]);
    if n == 0 then 1 else n
  }

  function OtherControl(height: nat, effect: Effect, t: Terminal, parameters: seq<Byte>, final: Byte): Terminal
    requires height > 0
  {
    var (row, column) := effect(parameters, final, t.row, t.column);
    t.(row := Min(row, height - 1), column := column, parser := Ground,
       marks := t.marks + [Mark(t.row, t.column, t.scrolled, parameters + [final])])
  }

  function Execute(height: nat, effect: Effect, t: Terminal, parameters: seq<Byte>, final: Byte): Terminal
    requires height > 0
  {
    if final == LETTER_A then
      var up := FirstParameter(parameters);
      t.(row := if up <= t.row then t.row - up else 0, parser := Ground)
    else if final == LETTER_B then
      t.(row := Min(t.row + FirstParameter(parameters), height - 1), parser := Ground)
    else OtherControl(height, effect, t, parameters, final)
  }

  function FormatEffector(height: nat, t: Terminal, b: Byte): Terminal
    requires height > 0
  {
    if b == RETURN then t.(column := 0)
    else if b != NEWLINE then t
    else if t.row < height - 1 then t.(row := t.row + 1)
    else t.(scrolled := t.scrolled + 1)
  }

  function Printed(height: nat, effect: Effect, t: Terminal, b: Byte): Terminal
    requires height > 0
  {
    match t.parser
    case Ground => t.(column := t.column + 1, marks := t.marks + [Mark(t.row, t.column, t.scrolled, [b])])
    case Escape =>
      if b == OPEN_BRACKET then t.(parser := Control([]))
      else if b == 0x5d || b == 0x50 then t.(parser := ControlString)
      else OtherControl(height, effect, t, [ESC], b)
    case Control(parameters) =>
      if b < 0x40 then t.(parser := Control(parameters + [b])) else Execute(height, effect, t, parameters, b)
    case ControlString => t
  }

  function ReadByte(height: nat, effect: Effect, t: Terminal, b: Byte): Terminal
    requires height > 0
  {
    if b == ESC then t.(parser := Escape)
    else if t.parser.ControlString? && b == 0x07 then t.(parser := Ground)
    else if !t.parser.ControlString? && b < 0x20 then FormatEffector(height, t, b)
    else Printed(height, effect, t, b)
  }

  function Interpret(height: nat, effect: Effect, t: Terminal, data: seq<Byte>): Terminal
    requires height > 0
    decreases |data|
  {
    if data == [] then t else Interpret(height, effect, ReadByte(height, effect, t, data[0]), data[1..])
  }

  lemma {:induction false} InterpretInTwo(height: nat, effect: Effect, t: Terminal, a: seq<Byte>, b: seq<Byte>)
    requires height > 0
    ensures Interpret(height, effect, t, a + b) == Interpret(height, effect, Interpret(height, effect, t, a), b)
    decreases |a|
  {
    if a == [] {
      assert a + b == b;
    } else {
      assert (a + b)[1..] == a[1..] + b;
      InterpretInTwo(height, effect, ReadByte(height, effect, t, a[0]), a[1..], b);
    }
  }

  lemma {:induction false} InterpretOne(height: nat, effect: Effect, t: Terminal, b: Byte)
    requires height > 0
    ensures Interpret(height, effect, t, [b]) == ReadByte(height, effect, t, b)
  {
    assert [b][1..] == [];
  }

  // ---- terminals that differ only in how far they scrolled ----

  ghost predicate AlikeMarks(a: seq<Mark>, b: seq<Mark>) {
    && |a| == |b|
    && forall i :: 0 <= i < |a| ==> a[i].(scrolled := 0) == b[i].(scrolled := 0)
  }

  /** The same cursor and the same coordinates for everything written; `a` has scrolled `less` lines less. */
  ghost predicate Alike(a: Terminal, b: Terminal, less: nat) {
    && a.row == b.row && a.column == b.column && a.parser == b.parser
    && a.scrolled + less == b.scrolled
    && AlikeMarks(a.marks, b.marks)
    && (less == 0 ==> a == b)
  }

  lemma {:induction false} ByteKeepsAlike(height: nat, effect: Effect, a: Terminal, b: Terminal, less: nat, byte: Byte)
    requires height > 0 && Alike(a, b, less)
    ensures Alike(ReadByte(height, effect, a, byte), ReadByte(height, effect, b, byte), less)
  {
  }

  lemma {:induction false} BytesKeepAlike(height: nat, effect: Effect, a: Terminal, b: Terminal, less: nat, data: seq<Byte>)
    requires height > 0 && Alike(a, b, less)
    ensures Alike(Interpret(height, effect, a, data), Interpret(height, effect, b, data), less)
    decreases |data|
  {
    if data != [] {
      ByteKeepsAlike(height, effect, a, b, less, data[0]);
      BytesKeepAlike(height, effect, ReadByte(height, effect, a, data[0]), ReadByte(height, effect, b, data[0]), less,
                     data[1..]);
    }
  }

  lemma {:induction false} AlikeAdds(a: Terminal, b: Terminal, c: Terminal, first: nat, second: nat)
    requires Alike(a, b, first) && Alike(b, c, second)
    ensures Alike(a, c, first + second)
  {
  }

  // ---- walking down ----

  /** How many of the lines walked down from a row scroll the screen. */
  function Scrolls(height: nat, row: nat, lines: nat): nat
    requires row < height
  {
    if row + lines <= height - 1 then 0 else row + lines - (height - 1)
  }

  predicate HasReturn(data: seq<Byte>) {
    RETURN in data
  }

  /** Line breaks move the cursor down and, at the last row, scroll; a return among them takes it to column 0. */
  lemma {:induction false} RunWalksDown(height: nat, effect: Effect, t: Terminal, data: seq<Byte>)
    requires height > 0 && t.row < height && !t.parser.ControlString?
    ensures var (run, lines) := BreakRun(data);
            Interpret(height, effect, t, data[..run]) == WalkedDown(height, t, lines, HasReturn(data[..run]))
    decreases |data|
  {
    var length := BreakLength(data);
    if length > 0 {
      var rest := data[length..];
      var (run, lines) := BreakRun(rest);
      BreakGoesDown(height, effect, t, data);
      RunWalksDown(height, effect, Interpret(height, effect, t, data[..length]), rest);
      TakeOn(data, length, run);
      assert BreakRun(data) == (length + run, 1 + lines);
      OneMoreBreak(height, effect, t, data[..length], rest[..run], lines);
    }
  }

  /** The terminal after so many lines, with or without a return among them. */
  function WalkedDown(height: nat, t: Terminal, lines: nat, returned: bool): Terminal
    requires t.row < height
  {
    t.(row := Min(t.row + lines, height - 1), scrolled := t.scrolled + Scrolls(height, t.row, lines),
       column := if returned then 0 else t.column)
  }

  lemma {:induction false} OneMoreBreak(height: nat, effect: Effect, t: Terminal, one: seq<Byte>, more: seq<Byte>, lines: nat)
    requires height > 0 && t.row < height
    requires var u := WalkedDown(height, t, 1, HasReturn(one));
             && Interpret(height, effect, t, one) == u
             && Interpret(height, effect, u, more) == WalkedDown(height, u, lines, HasReturn(more))
    ensures Interpret(height, effect, t, one + more) == WalkedDown(height, t, 1 + lines, HasReturn(one + more))
  {
    InterpretInTwo(height, effect, t, one, more);
    ReturnInEither(one, more);
    StepsAddUp(height, t.row, lines);
  }

  lemma {:induction false} TakeOn(data: seq<Byte>, k: nat, m: nat)
    requires k + m <= |data|
    ensures data[..k + m] == data[..k] + data[k..][..m]
  {
  }

  lemma {:induction false} ReturnInEither(a: seq<Byte>, b: seq<Byte>)
    ensures HasReturn(a + b) <==> HasReturn(a) || HasReturn(b)
  {
  }

  lemma {:induction false} StepsAddUp(height: nat, row: nat, more: nat)
    requires row < height
    ensures Min(Min(row + 1, height - 1) + more, height - 1) == Min(row + 1 + more, height - 1)
    ensures Scrolls(height, row, 1) + Scrolls(height, Min(row + 1, height - 1), more) == Scrolls(height, row, 1 + more)
  {
  }

  lemma {:induction false} BreakGoesDown(height: nat, effect: Effect, t: Terminal, data: seq<Byte>)
    requires height > 0 && t.row < height && !t.parser.ControlString? && BreakLength(data) > 0
    ensures var one := data[..BreakLength(data)];
            && Interpret(height, effect, t, one) == WalkedDown(height, t, 1, HasReturn(one))
  {
    var one := data[..BreakLength(data)];
    if |one| == 1 {
      assert one == [NEWLINE];
      InterpretOne(height, effect, t, NEWLINE);
      assert !HasReturn(one);
    } else {
      assert one == [RETURN] + [NEWLINE];
      InterpretInTwo(height, effect, t, [RETURN], [NEWLINE]);
      InterpretOne(height, effect, t, RETURN);
      InterpretOne(height, effect, t.(column := 0), NEWLINE);
      assert one[0] == RETURN;
    }
  }

  // ---- the cursor-down put in its place ----

  lemma {:induction false} DigitsRoundTrip(n: nat)
    ensures Value(Digits(n)) == n
    ensures ParametersEnd(Digits(n), 0, false) == |Digits(n)|
    decreases n
  {
    var digits := Digits(n);
    AllDigitsAreParameters(digits, 0);
    if n < 10 {
      assert digits[..0] == [];
    } else {
      DigitsRoundTrip(n / 10);
      assert digits[..|digits| - 1] == Digits(n / 10);
    }
  }

  lemma {:induction false} AllDigitsAreParameters(digits: seq<Byte>, position: nat)
    requires position <= |digits| && forall b | b in digits :: IsDigit(b)
    ensures ParametersEnd(digits, position, false) == |digits|
    decreases |digits| - position
  {
    if position < |digits| {
      assert digits[position] in digits;
      AllDigitsAreParameters(digits, position + 1);
    }
  }

  lemma {:induction false} ParametersAreCollected(height: nat, effect: Effect, t: Terminal, parameters: seq<Byte>,
                                                  digits: seq<Byte>)
    requires height > 0 && t.parser == Control(parameters) && forall b | b in digits :: IsDigit(b)
    ensures Interpret(height, effect, t, digits) == t.(parser := Control(parameters + digits))
    decreases |digits|
  {
    if digits == [] {
      assert parameters + digits == parameters;
    } else {
      assert digits[0] in digits;
      assert forall b | b in digits[1..] :: b in digits;
      ParametersAreCollected(height, effect, t.(parser := Control(parameters + [digits[0]])), parameters + [digits[0]],
                             digits[1..]);
      assert (parameters + [digits[0]]) + digits[1..] == parameters + digits;
    }
  }

  lemma {:induction false} ReturnAndControlOpen(height: nat, effect: Effect, t: Terminal, opening: seq<Byte>)
    requires height > 0 && opening == [RETURN, ESC, OPEN_BRACKET]
    ensures Interpret(height, effect, t, opening)
         == t.(column := if t.parser.ControlString? then t.column else 0, parser := Control([]))
  {
    var rest := [ESC, OPEN_BRACKET];
    var u := ReadByte(height, effect, t, RETURN);
    assert opening[1..] == rest && rest[1..] == [OPEN_BRACKET];
    InterpretOne(height, effect, u.(parser := Escape), OPEN_BRACKET);
  }

  lemma {:induction false} DownByDigits(height: nat, effect: Effect, t: Terminal, lines: nat)
    requires height > 0 && t.parser == Control([]) && lines > 0
    ensures Interpret(height, effect, t, Digits(lines) + [LETTER_B])
         == t.(row := Min(t.row + lines, height - 1), parser := Ground)
  {
    var digits := Digits(lines);
    InterpretInTwo(height, effect, t, digits, [LETTER_B]);
    ParametersAreCollected(height, effect, t, [], digits);
    assert [] + digits == digits;
    InterpretOne(height, effect, t.(parser := Control(digits)), LETTER_B);
    DigitsRoundTrip(lines);
    assert digits[..|digits|] == digits;
  }

  /** A return and CSI n B: the same rows down without scrolling, to column 0 unless in a control string. */
  lemma {:induction false} CursorDownGoesDown(height: nat, effect: Effect, t: Terminal, lines: nat)
    requires height > 0 && lines > 0
    ensures Interpret(height, effect, t, CursorDown(lines))
         == t.(row := Min(t.row + lines, height - 1), column := if t.parser.ControlString? then t.column else 0,
               parser := Ground)
  {
    var opening := [RETURN, ESC, OPEN_BRACKET];
    var down := Digits(lines) + [LETTER_B];
    assert CursorDown(lines) == opening + down;
    InterpretInTwo(height, effect, t, opening, down);
    ReturnAndControlOpen(height, effect, t, opening);
    DownByDigits(height, effect, Interpret(height, effect, t, opening), lines);
  }

  // ---- one walk ----

  /** A control string swallows line breaks. */
  lemma {:induction false} RunInString(height: nat, effect: Effect, t: Terminal, data: seq<Byte>)
    requires height > 0 && t.parser.ControlString?
    ensures Interpret(height, effect, t, data[..BreakRun(data).0]) == t
    decreases |data|
  {
    var length := BreakLength(data);
    if length > 0 {
      var rest := data[length..];
      var run := BreakRun(rest).0;
      BreakInString(height, effect, t, data);
      RunInString(height, effect, t, rest);
      InterpretInTwo(height, effect, t, data[..length], rest[..run]);
      TakeOn(data, length, run);
    }
  }

  lemma {:induction false} BreakInString(height: nat, effect: Effect, t: Terminal, data: seq<Byte>)
    requires height > 0 && t.parser.ControlString? && BreakLength(data) > 0
    ensures Interpret(height, effect, t, data[..BreakLength(data)]) == t
  {
    var one := data[..BreakLength(data)];
    if |one| == 1 {
      assert one == [NEWLINE];
      InterpretOne(height, effect, t, NEWLINE);
    } else {
      assert one == [RETURN] + [NEWLINE];
      InterpretInTwo(height, effect, t, [RETURN], [NEWLINE]);
      InterpretOne(height, effect, t, RETURN);
      InterpretOne(height, effect, t, NEWLINE);
    }
  }

  /**
   A run may be replaced here: it holds a return or the cursor is in column 0 already or, inside a control
   string, which swallows the run but not the cursor-down, the cursor is in the last row.
   */
  predicate MayReplace(height: nat, t: Terminal, run: seq<Byte>) {
    if t.parser.ControlString? then t.row + 1 == height else HasReturn(run) || t.column == 0
  }

  /** The lines that a run replaced here would have scrolled. */
  function WalkSaves(height: nat, t: Terminal, lines: nat): nat {
    if t.row < height && !t.parser.ControlString? then Scrolls(height, t.row, lines) else 0
  }

  /**
   A collapsed walk, and the same walk as it was, from the same terminal: everything agrees but the lines
   scrolled, which the rewriting saves, if and only if the run may be replaced here.
   */
  lemma {:induction false} WalkIsKept(height: nat, effect: Effect, t: Terminal, data: seq<Byte>)
    requires height > 0 && t.row < height && WalkAndReturn(data).Some?
    ensures var walk := WalkAndReturn(data).value;
            var plain := Interpret(height, effect, t, data[..walk.run] + [ESC]);
            var rewritten := Interpret(height, effect, t, CursorDown(walk.lines) + [ESC]);
            Alike(rewritten, plain, WalkSaves(height, t, walk.lines)) <==> MayReplace(height, t, data[..walk.run])
  {
    var walk := WalkAndReturn(data).value;
    if t.parser.ControlString? {
      RunInString(height, effect, t, data);
    } else {
      RunWalksDown(height, effect, t, data);
    }
    CursorDownGoesDown(height, effect, t, walk.lines);
    InterpretInTwo(height, effect, t, data[..walk.run], [ESC]);
    InterpretInTwo(height, effect, t, CursorDown(walk.lines), [ESC]);
    InterpretOne(height, effect, Interpret(height, effect, t, data[..walk.run]), ESC);
    InterpretOne(height, effect, Interpret(height, effect, t, CursorDown(walk.lines)), ESC);
  }

  lemma {:induction false} RowStaysInside(height: nat, effect: Effect, t: Terminal, data: seq<Byte>)
    requires height > 0 && t.row < height
    ensures Interpret(height, effect, t, data).row < height
    decreases |data|
  {
    if data != [] {
      RowStaysInside(height, effect, ReadByte(height, effect, t, data[0]), data[1..]);
    }
  }

  /** One step of the substitution, whatever stands after it. */
  lemma {:induction false} StepIsAlike(height: nat, effect: Effect, t: Terminal, data: seq<Byte>)
    requires height > 0 && t.row < height && data != []
    requires var step := WalkAndReturn(data);
             StepReturns(height, step, t, data)
    ensures var step := WalkAndReturn(data);
            Alike(Interpret(height, effect, t, StepOutput(step, data)), Interpret(height, effect, t, data[..StepLength(step)]),
                  StepSaves(height, t, step))
  {
    var step := WalkAndReturn(data);
    if StepLines(step) > 0 {
      var walk := step.value;
      var back := data[walk.run + 1..walk.run + walk.back];
      WalkIsKept(height, effect, t, data);
      EscapeInFront(data, walk.run, walk.run + walk.back, CursorDown(walk.lines));
      ThenAlike(height, effect, t, CursorDown(walk.lines) + [ESC], data[..walk.run] + [ESC], back,
                WalkSaves(height, t, walk.lines));
    }
  }

  lemma {:induction false} ThenAlike(height: nat, effect: Effect, t: Terminal, a: seq<Byte>, b: seq<Byte>,
                                     more: seq<Byte>, less: nat)
    requires height > 0 && Alike(Interpret(height, effect, t, a), Interpret(height, effect, t, b), less)
    ensures Alike(Interpret(height, effect, t, a + more), Interpret(height, effect, t, b + more), less)
  {
    InterpretInTwo(height, effect, t, a, more);
    InterpretInTwo(height, effect, t, b, more);
    BytesKeepAlike(height, effect, Interpret(height, effect, t, a), Interpret(height, effect, t, b), less, more);
  }

  lemma {:induction false} EscapeInFront(data: seq<Byte>, run: nat, end: nat, down: seq<Byte>)
    requires run < end <= |data| && data[run] == ESC
    ensures data[..end] == (data[..run] + [ESC]) + data[run + 1..end]
    ensures down + data[run..end] == (down + [ESC]) + data[run + 1..end]
  {
    assert data[run..end] == [ESC] + data[run + 1..end];
  }

  // ---- whole streams ----

  /** Reads bytes from a terminal's state on. */
  type Reader = (Terminal, seq<Byte>) -> Terminal

  function Reading(height: nat, effect: Effect): Reader
    requires height > 0
  {
    (t: Terminal, data: seq<Byte>) => Interpret(height, effect, t, data)
  }

  /** A run collapsed now may be replaced. */
  predicate StepReturns(height: nat, step: Option<Walk>, t: Terminal, data: seq<Byte>)
    requires step.Some? ==> FitsIn(step.value, |data|)
  {
    StepLines(step) > 0 ==> MayReplace(height, t, data[..step.value.run])
  }

  /** The lines one step of the substitution keeps the screen from scrolling. */
  function StepSaves(height: nat, t: Terminal, step: Option<Walk>): nat {
    WalkSaves(height, t, StepLines(step))
  }

  /** Every run collapsed, at the terminal's state when it is read, is one that StepReturns admits. */
  ghost predicate EachReturns(height: nat, read: Reader, find: Matcher, t: Terminal, data: seq<Byte>)
    requires Fits(find)
    decreases |data|
  {
    data == [] ||
    (var step := find(data);
     && StepReturns(height, step, t, data)
     && EachReturns(height, read, find, read(t, data[..StepLength(step)]), data[StepLength(step)..]))
  }

  /** The lines the collapsed runs would have scrolled, each where it is read. */
  ghost function EachSaves(height: nat, read: Reader, find: Matcher, t: Terminal, data: seq<Byte>): nat
    requires Fits(find)
    decreases |data|
  {
    if data == [] then 0
    else
      var step := find(data);
      StepSaves(height, t, step)
      + EachSaves(height, read, find, read(t, data[..StepLength(step)]), data[StepLength(step)..])
  }

  ghost predicate StepIsKept(height: nat, read: Reader, find: Matcher, t: Terminal, data: seq<Byte>)
    requires Fits(find)
  {
    data != [] && t.row < height && StepReturns(height, find(data), t, data) ==>
      var now := read(t, data[..StepLength(find(data))]);
      now.row < height && Alike(read(t, StepOutput(find(data), data)), now, StepSaves(height, t, find(data)))
  }

  ghost predicate KeepsSteps(height: nat, read: Reader, find: Matcher)
    requires Fits(find)
  {
    forall t, data :: StepIsKept(height, read, find, t, data)
  }

  ghost predicate ReadsOn(read: Reader) {
    forall t, a, b :: read(t, a + b) == read(read(t, a), b)
  }

  ghost predicate KeepsAlike(read: Reader) {
    forall a, b, less, data :: Alike(a, b, less) ==> Alike(read(a, data), read(b, data), less)
  }

  lemma {:induction false} SubstituteIsAlike(height: nat, read: Reader, find: Matcher, t: Terminal, data: seq<Byte>)
    requires Fits(find) && KeepsSteps(height, read, find) && ReadsOn(read) && KeepsAlike(read)
    requires t.row < height && EachReturns(height, read, find, t, data)
    ensures Alike(read(t, Substitute(find, data).0), read(t, data), EachSaves(height, read, find, t, data))
    decreases |data|
  {
    if data != [] {
      var step := find(data);
      var now, rest := data[..StepLength(step)], data[StepLength(step)..];
      assert StepIsKept(height, read, find, t, data);
      SubstituteIsAlike(height, read, find, read(t, now), rest);
      NextStep(height, read, find, t, data, now, rest);
      CutAt(data, StepLength(step));
      ThenSubstitute(read, t, StepOutput(step, data), now, Substitute(find, rest).0, rest,
                     StepSaves(height, t, step), EachSaves(height, read, find, read(t, now), rest));
    }
  }

  lemma {:induction false} CutAt(data: seq<Byte>, k: nat)
    requires k <= |data|
    ensures data == data[..k] + data[k..]
  {
  }

  lemma {:induction false} NextStep(height: nat, read: Reader, find: Matcher, t: Terminal, data: seq<Byte>,
                                    now: seq<Byte>, rest: seq<Byte>)
    requires Fits(find) && data != []
    requires now == data[..StepLength(find(data))] && rest == data[StepLength(find(data))..]
    ensures Substitute(find, data).0 == StepOutput(find(data), data) + Substitute(find, rest).0
    ensures EachSaves(height, read, find, t, data)
         == StepSaves(height, t, find(data)) + EachSaves(height, read, find, read(t, now), rest)
  {
  }

  /** Two alike ways to begin and, from where the second leads, two alike ways to go on. */
  lemma {:induction false} ThenSubstitute(read: Reader, t: Terminal, a: seq<Byte>, b: seq<Byte>, more: seq<Byte>,
                                          other: seq<Byte>, less: nat, later: nat)
    requires ReadsOn(read) && KeepsAlike(read)
    requires Alike(read(t, a), read(t, b), less) && Alike(read(read(t, b), more), read(read(t, b), other), later)
    ensures Alike(read(t, a + more), read(t, b + other), less + later)
  {
    assert Alike(read(read(t, a), more), read(read(t, b), more), less);
    AlikeAdds(read(t, a + more), read(read(t, b), more), read(t, b + other), less, later);
  }

  lemma {:induction false} ReadingKeeps(height: nat, effect: Effect)
    requires height > 0 && Fits(WalkAndReturn)
    ensures KeepsSteps(height, Reading(height, effect), WalkAndReturn)
    ensures ReadsOn(Reading(height, effect)) && KeepsAlike(Reading(height, effect))
  {
    var read := Reading(height, effect);
    forall t, data ensures StepIsKept(height, read, WalkAndReturn, t, data) {
      if data != [] && t.row < height && StepReturns(height, WalkAndReturn(data), t, data) {
        StepIsAlike(height, effect, t, data);
        RowStaysInside(height, effect, t, data[..StepLength(WalkAndReturn(data))]);
      }
    }
    forall t, a, b ensures read(t, a + b) == read(read(t, a), b) {
      InterpretInTwo(height, effect, t, a, b);
    }
    forall a, b, less, data | Alike(a, b, less) ensures Alike(read(a, data), read(b, data), less) {
      BytesKeepAlike(height, effect, a, b, less, data);
    }
  }

  ghost predicate RunsMayBeReplaced(height: nat, effect: Effect, t: Terminal, data: seq<Byte>)
    requires height > 0
  {
    EachReturns(height, Reading(height, effect), WalkAndReturn, t, data)
  }

  ghost function ScrollsSaved(height: nat, effect: Effect, t: Terminal, data: seq<Byte>): nat
    requires height > 0
  {
    EachSaves(height, Reading(height, effect), WalkAndReturn, t, data)
  }

  /**
   Fed the rewritten data instead of the data, a terminal ends with the same cursor and has written
   everything at the same coordinates; it has scrolled less by exactly the lines the collapsed runs would
   have scrolled.
   */
  lemma {:induction false} RewriteIsAlike(height: nat, effect: Effect, t: Terminal, data: seq<Byte>)
    requires height > 0 && t.row < height && RunsMayBeReplaced(height, effect, t, data)
    ensures Alike(Interpret(height, effect, t, Rewrite(data).0), Interpret(height, effect, t, data),
                  ScrollsSaved(height, effect, t, data))
  {
    ReadingKeeps(height, effect);
    SubstituteIsAlike(height, Reading(height, effect), WalkAndReturn, t, data);
  }

  /** The whole terminal, and so the screen, is the same exactly when no collapsed run would have scrolled it. */
  lemma {:induction false} ScreenIsTheSame(height: nat, effect: Effect, t: Terminal, data: seq<Byte>)
    requires height > 0 && t.row < height && RunsMayBeReplaced(height, effect, t, data)
    ensures Interpret(height, effect, t, Rewrite(data).0) == Interpret(height, effect, t, data)
       <==> ScrollsSaved(height, effect, t, data) == 0
  {
    RewriteIsAlike(height, effect, t, data);
  }

  lemma {:induction false} TwoBreaks(data: seq<Byte>)
    requires |data| > 2 && data[0] == data[1] == NEWLINE && data[2] == ESC
    ensures BreakRun(data) == (2, 2)
  {
    var one, two := data[1..], data[2..];
    assert one[1..] == two;
    assert BreakLength(two) == 0;
    assert BreakRun(one) == (1, 1);
  }

  lemma {:induction false} PlainUp(rest: seq<Byte>)
    requires |rest| == 3 && rest[0] == ESC && rest[1] == OPEN_BRACKET && rest[2] == LETTER_A
    ensures MovesLength(rest) == 0 && UpLength(rest) == 3
  {
    assert ParametersEnd(rest, 2, true) == 2 && ParametersEnd(rest, 2, false) == 2;
    assert MoveLength(rest) == 0;
  }

  lemma {:induction false} BareWalk(data: seq<Byte>)
    requires |data| == 5 && data[0] == data[1] == NEWLINE
    requires data[2] == ESC && data[3] == OPEN_BRACKET && data[4] == LETTER_A
    ensures WalkAndReturn(data) == Some(Walk(2, 2, 3))
  {
    TwoBreaks(data);
    PlainUp(data[2..]);
    assert data[2..][0..] == data[2..];
  }

  lemma {:induction false} RewriteOneWalk(data: seq<Byte>, run: nat, up: seq<Byte>)
    requires |data| == run + 3 && data[run..run + 3] == up && WalkAndReturn(data) == Some(Walk(run, 2, 3))
    ensures Rewrite(data).0 == CursorDown(2) + up
  {
    SubstituteLast(WalkAndReturn, data);
  }

  lemma {:induction false} SubstituteLast(find: Matcher, data: seq<Byte>)
    requires Fits(find) && data != [] && StepLength(find(data)) == |data|
    ensures Substitute(find, data).0 == StepOutput(find(data), data)
  {
    assert data[|data|..] == [];
    assert StepOutput(find(data), data) + [] == StepOutput(find(data), data);
  }

  lemma {:induction false} UpGoesUp(height: nat, effect: Effect, t: Terminal, up: seq<Byte>)
    requires height > 0 && up == [ESC, OPEN_BRACKET, LETTER_A]
    ensures Interpret(height, effect, t, up) == t.(row := if t.row > 0 then t.row - 1 else 0, parser := Ground)
  {
    assert up[1..] == [OPEN_BRACKET, LETTER_A] && [OPEN_BRACKET, LETTER_A][1..] == [LETTER_A];
    InterpretOne(height, effect, t.(parser := Control([])), LETTER_A);
  }

  /** Bare line feeds keep the column, which the rewritten run does not. */
  lemma {:induction false} BareLineFeedsLoseColumn(effect: Effect)
    ensures var data := [NEWLINE, NEWLINE, ESC, OPEN_BRACKET, LETTER_A];
            var t := Terminal(0, 5, Ground, 0, []);
            Interpret(24, effect, t, data).column == 5 && Interpret(24, effect, t, Rewrite(data).0).column == 0
  {
    var data, up := [NEWLINE, NEWLINE, ESC, OPEN_BRACKET, LETTER_A], [ESC, OPEN_BRACKET, LETTER_A];
    var t := Terminal(0, 5, Ground, 0, []);
    BareWalk(data);
    RewriteOneWalk(data, 2, up);
    assert data == data[..2] + up;
    assert !HasReturn(data[..2]);
    RunWalksDown(24, effect, t, data);
    CursorDownGoesDown(24, effect, t, 2);
    InterpretInTwo(24, effect, t, data[..2], up);
    InterpretInTwo(24, effect, t, CursorDown(2), up);
    UpGoesUp(24, effect, Interpret(24, effect, t, data[..2]), up);
    UpGoesUp(24, effect, Interpret(24, effect, t, CursorDown(2)), up);
  }

  lemma {:induction false} ReturnsWalk(data: seq<Byte>)
    requires |data| == 7 && data[0] == data[2] == RETURN && data[1] == data[3] == NEWLINE
    requires data[4] == ESC && data[5] == OPEN_BRACKET && data[6] == LETTER_A
    ensures WalkAndReturn(data) == Some(Walk(4, 2, 3))
  {
    var one, two := data[2..], data[4..];
    assert one[2..] == two;
    assert BreakLength(two) == 0;
    assert BreakRun(one) == (2, 1) && BreakRun(data) == (4, 2);
    PlainUp(two);
    assert two[0..] == two;
  }

  /** Inside a control string the run is swallowed, returns and all, but what replaces it moves the cursor. */
  lemma {:induction false} WalkInStringMoves(effect: Effect)
    ensures var data := [RETURN, NEWLINE, RETURN, NEWLINE, ESC, OPEN_BRACKET, LETTER_A];
            var t := Terminal(0, 5, ControlString, 0, []);
            Interpret(24, effect, t, data).row == 0 && Interpret(24, effect, t, Rewrite(data).0).row == 1
  {
    var data := [RETURN, NEWLINE, RETURN, NEWLINE, ESC, OPEN_BRACKET, LETTER_A];
    var up := [ESC, OPEN_BRACKET, LETTER_A];
    var t := Terminal(0, 5, ControlString, 0, []);
    ReturnsWalk(data);
    RewriteOneWalk(data, 4, up);
    assert data == data[..4] + up;
    RunInString(24, effect, t, data);
    CursorDownGoesDown(24, effect, t, 2);
    InterpretInTwo(24, effect, t, data[..4], up);
    InterpretInTwo(24, effect, t, CursorDown(2), up);
    UpGoesUp(24, effect, t, up);
    UpGoesUp(24, effect, Interpret(24, effect, t, CursorDown(2)), up);
  }
}

/**
 Positions in a text as the language server protocol gives them (section "Position" of LSP 3.17): a line
 and a count of UTF-16 code units in it, against offsets counted in characters.
 */
module TextPositions {
  import opened Wrappers

  datatype PositionError = Negative | LineExceedsFile | CharacterExceedsLine | SplitsSurrogatePair

  datatype Position = Position(line: int, character: int)

  /** UTF-16 code units of one character. */
  function Units(c: char): nat {
    if c as int < 0x10000 then 1 else 2
  }

  function Utf16Length(s: string): nat {
    if s == "" then 0 else Units(s[0]) + Utf16Length(s[1..])
  }

  function Utf16Offset(line: string, character: nat): Result<nat, PositionError> {
    if character == 0 then Ok(0)
    else if line == "" then Err(CharacterExceedsLine)
    else if Units(line[0]) > character then Err(SplitsSurrogatePair)
    else
      match Utf16Offset(line[1..], character - Units(line[0]))
      case Ok(offset) => Ok(offset + 1)
      case Err(e) => Err(e)
  }

  method FindUtf16Offset(line: string, character: nat) returns (offset: Result<nat, PositionError>)
    ensures offset == Utf16Offset(line, character)
  {
    var units: nat := 0;
    for index := 0 to |line|
      invariant units <= character
      invariant Utf16Offset(line, character) ==
                match Utf16Offset(line[index..], character - units)
                case Ok(more) => Ok(index + more)
                case Err(e) => Err(e)
    {
      if units == character {
        return Ok(index);
      }
      var next := units + Units(line[index]);
      if next > character {
        return Err(SplitsSurrogatePair);
      }
      assert line[index..][1..] == line[index + 1..];
      units := next;
    }
    if units == character {
      return Ok(|line|);
    }
    return Err(CharacterExceedsLine);
  }

  // ---- code units ----

  /** The code units of a character: itself, or a high and a low surrogate. */
  function CodeUnits(c: char): (units: seq<nat>)
    ensures forall unit | unit in units :: unit < 0x10000
  {
    var scalar := c as int;
    if scalar < 0x10000 then [scalar]
    else [0xD800 + (scalar - 0x10000) / 0x400, 0xDC00 + (scalar - 0x10000) % 0x400]
  }

  predicate IsHighSurrogate(unit: nat) {
    0xD800 <= unit < 0xDC00
  }

  /** The scalar value the code units start with. */
  function FirstScalar(units: seq<nat>): int
    requires units != []
  {
    if IsHighSurrogate(units[0]) && |units| > 1 then 0x10000 + (units[0] as int - 0xD800) * 0x400 + (units[1] as int - 0xDC00)
    else units[0]
  }

  function Encoded(s: string): seq<nat> {
    if s == "" then [] else CodeUnits(s[0]) + Encoded(s[1..])
  }

  /** What is counted are the units of an encoding that can be read back. */
  lemma {:induction false} UnitsAreOfEncoding(s: string)
    ensures Utf16Length(s) == |Encoded(s)|
    ensures s != "" ==> FirstScalar(Encoded(s)) == s[0] as int && Encoded(s)[Units(s[0])..] == Encoded(s[1..])
  {
    if s != "" {
      UnitsAreOfEncoding(s[1..]);
      var units := CodeUnits(s[0]);
      assert |units| == Units(s[0]);
      assert Encoded(s)[|units|..] == Encoded(s[1..]);
      assert forall i :: 0 <= i < |units| ==> Encoded(s)[i] == units[i];
    }
  }

  // ---- lines ----

  predicate IsTerminator(c: char) {
    c == '\r' || c == '\n'
  }

  /** The first line's length with its terminator: LF, CR or CRLF. */
  function LineLength(text: string): (length: nat)
    requires text != ""
    ensures 0 < length <= |text|
  {
    if text[0] == '\n' then 1
    else if text[0] == '\r' then if |text| > 1 && text[1] == '\n' then 2 else 1
    else if |text| == 1 then 1
    else 1 + LineLength(text[1..])
  }

  function SplitLines(text: string): seq<string>
    decreases |text|
  {
    if text == "" then [] else [text[..LineLength(text)]] + SplitLines(text[LineLength(text)..])
  }

  /** str.rstrip of the terminators. */
  function WithoutTerminator(line: string): (content: string)
    ensures content <= line
  {
    if line != "" && IsTerminator(line[|line| - 1]) then WithoutTerminator(line[..|line| - 1]) else line
  }

  predicate EndsInTerminator(text: string) {
    text != "" && IsTerminator(text[|text| - 1])
  }

  function TotalLength(lines: seq<string>): nat {
    if lines == [] then 0 else |lines[0]| + TotalLength(lines[1..])
  }

  function PositionOffset(text: string, position: Position): Result<nat, PositionError> {
    if position.line < 0 || position.character < 0 then Err(Negative)
    else
      var lines := if SplitLines(text) == [] then [""] else SplitLines(text);
      if position.line == |lines| && EndsInTerminator(text) && position.character == 0 then Ok(|text|)
      else if position.line >= |lines| then Err(LineExceedsFile)
      else
        match Utf16Offset(WithoutTerminator(lines[position.line]), position.character)
        case Ok(offset) => Ok(TotalLength(lines[..position.line]) + offset)
        case Err(e) => Err(e)
  }

  // ---- UTF-16 offsets invert ----

  /** Exactly the prefixes' UTF-16 lengths are positions, and each gives its prefix back. */
  lemma {:induction false} Utf16OffsetInverts(line: string, character: nat, k: nat)
    ensures Utf16Offset(line, character) == Ok(k) <==> k <= |line| && Utf16Length(line[..k]) == character
  {
    if character == 0 {
      if k > 0 && k <= |line| {
        assert line[..k][0] == line[0];
      }
    } else if line != "" {
      if Units(line[0]) <= character && k > 0 {
        Utf16OffsetInverts(line[1..], character - Units(line[0]), k - 1);
      }
      if 0 < k <= |line| {
        assert line[..k][1..] == line[1..][..k - 1] && line[..k][0] == line[0];
      }
    }
  }

  /** It fails exactly past the end of the line and inside a surrogate pair. */
  lemma {:induction false} Utf16OffsetFails(line: string, character: nat)
    ensures Utf16Offset(line, character) == Err(CharacterExceedsLine) <==> Utf16Length(line) < character
    ensures Utf16Offset(line, character) == Err(SplitsSurrogatePair) <==>
            exists k :: 0 <= k < |line| && Utf16Length(line[..k]) + 1 == character && Units(line[k]) == 2
  {
    if line != "" && character > 0 {
      var first := Units(line[0]);
      if first <= character {
        Utf16OffsetFails(line[1..], character - first);
        forall k | 0 < k < |line|
          ensures Utf16Length(line[..k]) == first + Utf16Length(line[1..][..k - 1]) && line[k] == line[1..][k - 1]
        {
          assert line[..k][1..] == line[1..][..k - 1] && line[..k][0] == line[0];
        }
        assert Utf16Length(line[..0]) == 0;
        if k :| 0 <= k < |line[1..]| && Utf16Length(line[1..][..k]) + 1 == character - first && Units(line[1..][k]) == 2 {
          assert Utf16Length(line[..k + 1]) + 1 == character && Units(line[k + 1]) == 2;
        }
      } else {
        assert Utf16Length(line[..0]) + 1 == character;
      }
    }
  }

  // ---- positions invert ----

  /** An offset no position stands for: between the CR and the LF of one terminator. */
  predicate InsideTerminator(text: string, k: nat) {
    0 < k < |text| && text[k - 1] == '\r' && text[k] == '\n'
  }

  /** The position of an offset: its line, and the UTF-16 length of what precedes it there. */
  function PositionOf(text: string, k: nat): Position
    requires k <= |text|
    decreases |text|
  {
    if text == "" then Position(0, 0)
    else
      var n := LineLength(text);
      if k < n || !EndsInTerminator(text[..n]) then Position(0, Utf16Length(text[..k]))
      else
        var later := PositionOf(text[n..], k - n);
        Position(later.line + 1, later.character)
  }

  lemma {:induction false} TrailingTerminatorsOnly(c: char, line: string)
    requires !IsTerminator(c)
    ensures WithoutTerminator([c] + line) == [c] + WithoutTerminator(line)
    decreases |line|
  {
    var whole := [c] + line;
    if line != "" {
      assert whole[|whole| - 1] == line[|line| - 1];
      assert whole[..|whole| - 1] == [c] + line[..|line| - 1];
      TrailingTerminatorsOnly(c, line[..|line| - 1]);
    } else {
      assert whole == [c];
    }
  }

  /** A line is its content and at most one terminator; only the last line may have none. */
  lemma {:induction false} LineShape(text: string)
    requires text != ""
    ensures var n := LineLength(text);
            var size := |WithoutTerminator(text[..n])|;
            && (forall k :: 0 <= k < size ==> !IsTerminator(text[k]))
            && (EndsInTerminator(text[..n]) <==> size < n)
            && (size == n ==> n == |text|)
            && (size < n ==> IsTerminator(text[size]))
            && (size + 1 < n ==> n == size + 2 && text[size] == '\r' && text[size + 1] == '\n')
            && (size + 1 == n && text[size] == '\r' && n < |text| ==> text[n] != '\n')
  {
    var n := LineLength(text);
    var line := text[..n];
    if IsTerminator(text[0]) {
      if n == 2 {
        assert line[..1][..0] == "";
        assert WithoutTerminator(line[..1]) == WithoutTerminator("");
        assert WithoutTerminator(line) == WithoutTerminator(line[..1]);
      } else {
        assert line[..0] == "";
        assert WithoutTerminator(line) == WithoutTerminator("");
      }
    } else if |text| == 1 {
      assert line == text;
      assert WithoutTerminator(line) == line;
    } else {
      LineShape(text[1..]);
      var rest := text[1..][..n - 1];
      assert line == [text[0]] + rest;
      TrailingTerminatorsOnly(text[0], rest);
    }
  }

  /** In the first line every offset but those past its content is its own position. */
  lemma {:induction false} FirstLineInverts(text: string, character: nat, k: nat)
    requires text != ""
    ensures PositionOffset(text, Position(0, character)) == Ok(k) <==>
            k <= |WithoutTerminator(text[..LineLength(text)])| && Utf16Length(text[..k]) == character
  {
    var n := LineLength(text);
    var lines := SplitLines(text);
    assert lines[0] == text[..n] && lines[..0] == [];
    var content := WithoutTerminator(text[..n]);
    Utf16OffsetInverts(content, character, k);
    if k <= |content| {
      assert content[..k] == text[..k];
    }
  }

  lemma {:induction false} EndsAlike(text: string, n: nat)
    requires n < |text|
    ensures EndsInTerminator(text) <==> EndsInTerminator(text[n..])
  {
  }

  /** Past a terminated first line, positions are those of the rest, one line further down. */
  lemma {:induction false} LaterLineShifts(text: string, line: nat, character: nat, k: nat)
    requires text != "" && EndsInTerminator(text[..LineLength(text)])
    ensures var n := LineLength(text);
            PositionOffset(text, Position(line + 1, character)) == Ok(k) <==>
            k >= n && PositionOffset(text[n..], Position(line, character)) == Ok(k - n)
  {
    var n := LineLength(text);
    var rest := text[n..];
    var lines, later := SplitLines(text), SplitLines(rest);
    assert lines == [text[..n]] + later;
    if rest == "" {
      assert text[..n] == text && later == [] && WithoutTerminator("") == "";
      assert [""][..0] == [] && [""][0] == "";
    } else {
      EndsAlike(text, n);
      assert later != [];
      if line < |later| {
        assert lines[line + 1] == later[line];
        assert lines[..line + 1] == [text[..n]] + later[..line];
      }
    }
  }

  lemma {:induction false} NotInsideLater(text: string, n: nat, k: nat)
    requires n <= k <= |text| && !InsideTerminator(text, n)
    ensures InsideTerminator(text, k) <==> InsideTerminator(text[n..], k - n)
  {
  }

  /**
   Positions and offsets invert each other: a position has an offset exactly when it is the position of
   that offset, and the only offsets without one are those inside a CRLF.
   */
  lemma {:induction false} PositionsInvert(text: string, position: Position, k: nat)
    ensures PositionOffset(text, position) == Ok(k) <==>
            k <= |text| && !InsideTerminator(text, k) && position == PositionOf(text, k)
    decreases |text|
  {
    if position.line < 0 || position.character < 0 {
      if k <= |text| {
        PositionIsNatural(text, k);
      }
    } else if text == "" {
      assert [""][..0] == [] && [""][0] == "" && WithoutTerminator("") == "";
      Utf16OffsetInverts("", position.character, k);
    } else if position.line == 0 {
      FirstLinePositionsInvert(text, position.character, k);
    } else {
      var n := LineLength(text);
      if !EndsInTerminator(text[..n]) {
        NoLaterLine(text, position, k);
      } else if k < n {
        LaterLineShifts(text, position.line - 1, position.character, k);
      } else {
        PositionsInvert(text[n..], Position(position.line - 1, position.character), k - n);
        LaterLineInverts(text, position.line - 1, position.character, k);
      }
    }
  }

  lemma {:induction false} NoLaterLine(text: string, position: Position, k: nat)
    requires text != "" && !EndsInTerminator(text[..LineLength(text)]) && position.line > 0 && position.character >= 0
    ensures PositionOffset(text, position) != Ok(k)
    ensures k <= |text| && !InsideTerminator(text, k) ==> position != PositionOf(text, k)
  {
    var n := LineLength(text);
    LineShape(text);
    assert text[n..] == "" && SplitLines(text) == [text[..n]] + SplitLines("");
    assert text[..n] == text;
  }

  lemma {:induction false} LaterLineInverts(text: string, line: nat, character: nat, k: nat)
    requires text != "" && EndsInTerminator(text[..LineLength(text)]) && k >= LineLength(text)
    requires var n := LineLength(text);
             PositionOffset(text[n..], Position(line, character)) == Ok(k - n) <==>
             k <= |text| && !InsideTerminator(text[n..], k - n) && Position(line, character) == PositionOf(text[n..], k - n)
    ensures PositionOffset(text, Position(line + 1, character)) == Ok(k) <==>
            k <= |text| && !InsideTerminator(text, k) && Position(line + 1, character) == PositionOf(text, k)
  {
    LineShape(text);
    LaterLineShifts(text, line, character, k);
    if k <= |text| {
      NotInsideLater(text, LineLength(text), k);
    }
  }

  lemma {:induction false} FirstLinePositionsInvert(text: string, character: nat, k: nat)
    requires text != ""
    ensures PositionOffset(text, Position(0, character)) == Ok(k) <==>
            k <= |text| && !InsideTerminator(text, k) && Position(0, character) == PositionOf(text, k)
  {
    var n := LineLength(text);
    LineShape(text);
    FirstLineInverts(text, character, k);
    if n <= k <= |text| && EndsInTerminator(text[..n]) {
      PositionIsNatural(text[n..], k - n);
    }
  }

  lemma {:induction false} PositionIsNatural(text: string, k: nat)
    requires k <= |text|
    ensures PositionOf(text, k).line >= 0 && PositionOf(text, k).character >= 0
    decreases |text|
  {
    if text != "" && k >= LineLength(text) {
      PositionIsNatural(text[LineLength(text)..], k - LineLength(text));
    }
  }
}

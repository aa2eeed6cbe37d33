/**
 Collapsing terminal titles out of the raw recording: only the last title is kept, an over-long one is
 thrown away, and a title or its beginning may be cut anywhere by the reads it arrives in.
 */
module TitleCollapse {
  import opened Bytes
  import opened Wrappers
  import opened MarkerScan

  const MAX_TITLE_BYTES: nat := 4096
  const BEL: Byte := 0x07
  const BACKSLASH: Byte := 0x5c
  const BRACKET: Byte := 0x5d
  const SEMICOLON: Byte := 0x3b

  function TitlePrefix(digit: Byte): seq<Byte> {
    [ESC, BRACKET, digit, SEMICOLON]
  }

  /** The three prefixes at once: ESC ] and 0, 1 or 2, and a semicolon. */
  const TITLE: Pattern := [{ESC}, {BRACKET}, {0x30, 0x31, 0x32}, {SEMICOLON}]

  // ---- where a title ends ----

  predicate EndsAt(title: seq<Byte>, end: nat) {
    && 4 < end <= |title|
    && (title[end - 1] == BEL || (5 < end && title[end - 2] == ESC && title[end - 1] == BACKSLASH))
  }

  function FindByte(data: seq<Byte>, b: Byte, position: nat): Option<nat>
    decreases |data| - position
  {
    if position >= |data| then None
    else if data[position] == b then Some(position)
    else FindByte(data, b, position + 1)
  }

  function FindTerminator(data: seq<Byte>, position: nat): Option<nat>
    decreases |data| - position
  {
    if position + 1 >= |data| then None
    else if data[position] == ESC && data[position + 1] == BACKSLASH then Some(position)
    else FindTerminator(data, position + 1)
  }

  /** The end of the title the data starts with: whichever terminator ends first. */
  function TitleEnd(title: seq<Byte>): Option<nat> {
    var bel := FindByte(title, BEL, 4);
    var st := FindTerminator(title, 4);
    if bel.None? && st.None? then None
    else if st.None? then Some(bel.value + 1)
    else if bel.None? then Some(st.value + 2)
    else if bel.value + 1 <= st.value + 2 then Some(bel.value + 1)
    else Some(st.value + 2)
  }

  lemma {:induction false} FindByteIsFirst(data: seq<Byte>, b: Byte, position: nat)
    ensures var found := FindByte(data, b, position);
            if found.Some? then position <= found.value < |data| && data[found.value] == b
                                && forall k :: position <= k < found.value ==> data[k] != b
            else forall k :: position <= k < |data| ==> data[k] != b
    decreases |data| - position
  {
    if position < |data| && data[position] != b {
      FindByteIsFirst(data, b, position + 1);
    }
  }

  lemma {:induction false} FindTerminatorIsFirst(data: seq<Byte>, position: nat)
    ensures var found := FindTerminator(data, position);
            if found.Some? then position <= found.value && found.value + 2 <= |data|
                                && data[found.value] == ESC && data[found.value + 1] == BACKSLASH
                                && forall k :: position < k <= found.value ==> !(data[k] == BACKSLASH && data[k - 1] == ESC)
            else forall k :: position < k < |data| ==> !(data[k] == BACKSLASH && data[k - 1] == ESC)
    decreases |data| - position
  {
    if position + 1 < |data| && !(data[position] == ESC && data[position + 1] == BACKSLASH) {
      FindTerminatorIsFirst(data, position + 1);
    }
  }

  /** The first end there is. */
  lemma {:induction false} TitleEndIsFirst(title: seq<Byte>)
    ensures var end := TitleEnd(title);
            if end.Some? then EndsAt(title, end.value) && forall e :: 0 <= e < end.value ==> !EndsAt(title, e)
            else forall e: nat :: !EndsAt(title, e)
  {
    FindByteIsFirst(title, BEL, 4);
    FindTerminatorIsFirst(title, 4);
  }

  // ---- one call ----

  datatype Collapsed = Collapsed(output: seq<Byte>, carry: seq<Byte>, discard: bool, lastTitle: seq<Byte>)

  predicate EndsInEscape(data: seq<Byte>) {
    data != [] && data[|data| - 1] == ESC
  }

  /** What is carried of a title with no end in sight. */
  function CarryOf(title: seq<Byte>): seq<Byte> {
    if |title| > MAX_TITLE_BYTES then TitlePrefix(0x30) + (if EndsInEscape(title) then [ESC] else []) else title
  }

  function Collapse(data: seq<Byte>, discard: bool, lastTitle: seq<Byte>): Collapsed
    decreases |data|
  {
    match Find(data, TITLE, 0)
    case None =>
      var (out, held) := Sift(TITLE, data);
      Collapsed(out, held, discard, lastTitle)
    case Some(start) =>
      TitleEndIsFirst(data[start..]);
      match TitleEnd(data[start..])
      case None =>
        Collapsed(data[..start], CarryOf(data[start..]), discard || |data| - start > MAX_TITLE_BYTES, lastTitle)
      case Some(length) =>
        var title := data[start..][..length];
        var rest := Collapse(data[start..][length..], false,
                             if !discard && length <= MAX_TITLE_BYTES then title else lastTitle);
        rest.(output := data[..start] + rest.output)
  }

  function CollapseOnto(output: seq<Byte>, data: seq<Byte>, discard: bool, lastTitle: seq<Byte>): Collapsed {
    var rest := Collapse(data, discard, lastTitle);
    rest.(output := output + rest.output)
  }

  // ---- the three prefixes ----

  lemma {:induction false} TitleMatchesSomePrefix(data: seq<Byte>, position: nat, length: nat)
    requires length <= 4
    ensures Matches(data, TITLE, position, length)
       <==> (Matches(data, Literal(TitlePrefix(0x30)), position, length) ||
             Matches(data, Literal(TitlePrefix(0x31)), position, length) ||
             Matches(data, Literal(TitlePrefix(0x32)), position, length))
  {
    MatchesEverywhere(data, TITLE, position, length);
    MatchesEverywhere(data, Literal(TitlePrefix(0x30)), position, length);
    MatchesEverywhere(data, Literal(TitlePrefix(0x31)), position, length);
    MatchesEverywhere(data, Literal(TitlePrefix(0x32)), position, length);
    if position + length <= |data| && length > 2 {
      assert data[position + 2] in TITLE[2] <==> data[position + 2] in {0x30, 0x31, 0x32};
    }
  }

  function Earlier(a: Option<nat>, b: Option<nat>): Option<nat> {
    if a.None? then b else if b.None? || a.value <= b.value then a else b
  }

  /** The earliest of the three prefixes. */
  function FirstTitle(data: seq<Byte>): Option<nat> {
    Earlier(Find(data, Literal(TitlePrefix(0x30)), 0),
            Earlier(Find(data, Literal(TitlePrefix(0x31)), 0), Find(data, Literal(TitlePrefix(0x32)), 0)))
  }

  lemma {:induction false} FirstTitleIsFind(data: seq<Byte>)
    ensures FirstTitle(data) == Find(data, TITLE, 0)
  {
    forall k | 0 <= k <= |data|
      ensures Occurs(data, TITLE, k)
         <==> (Occurs(data, Literal(TitlePrefix(0x30)), k) || Occurs(data, Literal(TitlePrefix(0x31)), k)
               || Occurs(data, Literal(TitlePrefix(0x32)), k))
    {
      TitleMatchesSomePrefix(data, k, 4);
    }
    EarliestOfThree(data, TITLE, Literal(TitlePrefix(0x30)), Literal(TitlePrefix(0x31)), Literal(TitlePrefix(0x32)));
  }

  lemma {:induction false} EarliestOfThree(data: seq<Byte>, any: Pattern, a: Pattern, b: Pattern, c: Pattern)
    requires forall k :: 0 <= k <= |data| ==>
               (Occurs(data, any, k) <==> (Occurs(data, a, k) || Occurs(data, b, k) || Occurs(data, c, k)))
    ensures Earlier(Find(data, a, 0), Earlier(Find(data, b, 0), Find(data, c, 0))) == Find(data, any, 0)
  {
    FindIsFirst(data, any, 0);
    FindIsFirst(data, a, 0);
    FindIsFirst(data, b, 0);
    FindIsFirst(data, c, 0);
  }

  method PartialTitlePrefixLength(data: seq<Byte>) returns (partial: nat)
    ensures EndsInPart(data, TITLE, partial)
    ensures forall length :: 0 <= length < 4 && EndsInPart(data, TITLE, length) ==> length <= partial
  {
    var zero := PartialLength(data, Literal(TitlePrefix(0x30)));
    var one := PartialLength(data, Literal(TitlePrefix(0x31)));
    var two := PartialLength(data, Literal(TitlePrefix(0x32)));
    partial := if zero >= one && zero >= two then zero else if one >= two then one else two;
    forall length | 0 <= length < 4 && length <= |data|
      ensures EndsInPart(data, TITLE, length)
         <==> (EndsInPart(data, Literal(TitlePrefix(0x30)), length) || EndsInPart(data, Literal(TitlePrefix(0x31)), length)
               || EndsInPart(data, Literal(TitlePrefix(0x32)), length))
    {
      TitleMatchesSomePrefix(data, |data| - length, length);
    }
  }

  // ---- the loop ----

  class TitleRecorder {
    var carry: seq<Byte>
    var discard: bool
    var lastTitle: seq<Byte>

    constructor ()
      ensures carry == [] && !discard && lastTitle == []
    {
      carry, discard, lastTitle := [], false, [];
    }

    method CollapseTitles(data: seq<Byte>) returns (output: seq<Byte>)
      modifies this
      ensures Collapsed(output, carry, discard, lastTitle) == Collapse(old(carry) + data, old(discard), old(lastTitle))
    {
      output, carry, discard, lastTitle := CollapseAll(carry + data, discard, lastTitle);
    }
  }

  method CollapseAll(data: seq<Byte>, wasDiscarding: bool, title: seq<Byte>)
    returns (output: seq<Byte>, carry: seq<Byte>, discard: bool, lastTitle: seq<Byte>)
    ensures Collapsed(output, carry, discard, lastTitle) == Collapse(data, wasDiscarding, title)
  {
    output, carry, discard, lastTitle := [], [], wasDiscarding, title;
    var rest := data;
    assert [] + Collapse(data, discard, title).output == Collapse(data, discard, title).output;
    while rest != []
      invariant carry == []
      invariant CollapseOnto(output, rest, discard, lastTitle) == Collapse(data, wasDiscarding, title)
      decreases |rest|
    {
      var start := FirstTitle(rest);
      FirstTitleIsFind(rest);
      if start.None? {
        output, carry := HoldBackPrefix(output, rest, discard, lastTitle);
        return;
      }
      var end := TitleEnd(rest[start.value..]);
      if end.None? {
        output, carry, discard := CarryTitle(output, rest, start.value, discard, lastTitle);
        return;
      }
      output, rest, lastTitle := PassTitle(output, rest, start.value, end.value, discard, lastTitle);
      discard := false;
    }
  }

  method HoldBackPrefix(before: seq<Byte>, data: seq<Byte>, discard: bool, lastTitle: seq<Byte>)
    returns (output: seq<Byte>, carry: seq<Byte>)
    requires Find(data, TITLE, 0).None?
    ensures Collapsed(output, carry, discard, lastTitle) == CollapseOnto(before, data, discard, lastTitle)
  {
    var partial := PartialTitlePrefixLength(data);
    output := before + data[..|data| - partial];
    carry := if partial > 0 then data[|data| - partial..] else [];
    TitlePartIsHeld(data, partial);
  }

  method CarryTitle(before: seq<Byte>, data: seq<Byte>, start: nat, wasDiscarding: bool, lastTitle: seq<Byte>)
    returns (output: seq<Byte>, carry: seq<Byte>, discard: bool)
    requires Find(data, TITLE, 0) == Some(start) && TitleEnd(data[start..]).None?
    ensures Collapsed(output, carry, discard, lastTitle) == CollapseOnto(before, data, wasDiscarding, lastTitle)
  {
    output := before + data[..start];
    carry := data[start..];
    discard := wasDiscarding;
    if |carry| > MAX_TITLE_BYTES {
      discard := true;
      carry := TitlePrefix(0x30) + (if EndsInEscape(carry) then [ESC] else []);
    }
  }

  method PassTitle(before: seq<Byte>, data: seq<Byte>, start: nat, length: nat, discard: bool, title: seq<Byte>)
    returns (output: seq<Byte>, rest: seq<Byte>, lastTitle: seq<Byte>)
    requires Find(data, TITLE, 0) == Some(start) && TitleEnd(data[start..]) == Some(length)
    ensures CollapseOnto(output, rest, false, lastTitle) == CollapseOnto(before, data, discard, title)
    ensures |rest| < |data|
  {
    TitleEndIsFirst(data[start..]);
    output := before + data[..start];
    lastTitle := if !discard && length <= MAX_TITLE_BYTES then data[start..][..length] else title;
    rest := data[start..][length..];
    CollapseTitle(data, start, length, discard, title);
    var later := Collapse(rest, false, lastTitle).output;
    assert before + (data[..start] + later) == output + later;
  }

  lemma {:induction false} TitlePartIsHeld(data: seq<Byte>, partial: nat)
    requires Find(data, TITLE, 0).None? && EndsInPart(data, TITLE, partial)
    requires forall length :: 0 <= length < 4 && EndsInPart(data, TITLE, length) ==> length <= partial
    ensures Sift(TITLE, data) == (data[..|data| - partial], if partial > 0 then data[|data| - partial..] else [])
  {
    FindIsFirst(data, TITLE, 0);
    SiftHoldsLongestPart(TITLE, data);
    var (out, held) := Sift(TITLE, data);
    assert |held| == partial && |out| == |data| - partial && data == out + held;
    assert data[..|out|] == out;
    if partial > 0 {
      assert data[|out|..] == held;
    }
  }

  lemma {:induction false} CollapseTitle(data: seq<Byte>, start: nat, length: nat, discard: bool, lastTitle: seq<Byte>)
    requires Find(data, TITLE, 0) == Some(start) && TitleEnd(data[start..]) == Some(length)
    ensures 4 < length <= |data| - start
    ensures var kept := if !discard && length <= MAX_TITLE_BYTES then data[start..][..length] else lastTitle;
            var rest := Collapse(data[start..][length..], false, kept);
            Collapse(data, discard, lastTitle) == rest.(output := data[..start] + rest.output)
  {
    TitleEndIsFirst(data[start..]);
  }
}

/**
 The stripping of synchronized-update frames against a reference that reads one byte at a time, and
 what that says about how a stream may be cut into chunks.
 */
module SyncReference {
  import opened Bytes
  import opened Wrappers
  import opened MarkerScan
  import opened SyncFrames
  import opened Transducer

  /** Where in the stream the reference is; `held` is the part of a marker read so far. */
  datatype Mode =
    | Outside(held: seq<Byte>)
    | Inside(held: seq<Byte>)
    | AfterFrame

  function At(inside: bool, held: seq<Byte>): Mode {
    if inside then Inside(held) else Outside(held)
  }

  function ReadMarked(markers: Markers, inside: bool, held: seq<Byte>, b: Byte): (Mode, seq<Byte>)
    requires markers.Valid()
  {
    var pattern := markers.Next(inside);
    var (out, now) := Absorb(pattern, held, b);
    if |now| == |pattern| then (if inside then AfterFrame else Inside([]), [])
    else (At(inside, now), if inside then [] else out)
  }

  function ReadByte(markers: Markers, mode: Mode, b: Byte): (Mode, seq<Byte>)
    requires markers.Valid()
  {
    match mode
    case Outside(held) => ReadMarked(markers, false, held, b)
    case Inside(held) => ReadMarked(markers, true, held, b)
    case AfterFrame => if IsBreak(b) then (AfterFrame, []) else ReadMarked(markers, false, [], b)
  }

  function Reader(markers: Markers): Step<Mode>
    requires markers.Valid()
  {
    (mode, b) => ReadByte(markers, mode, b)
  }

  // ---- between markers ----

  lemma {:induction false} Quiet(markers: Markers, inside: bool, data: seq<Byte>)
    requires markers.Valid() && markers.Escapes() && Absent(data, markers.Next(inside))
    ensures var (out, held) := Sift(markers.Next(inside), data);
            Run(Reader(markers), At(inside, []), data) == (At(inside, held), if inside then [] else out)
    decreases |data|
  {
    if data != [] {
      var pattern := markers.Next(inside);
      var init, last := data[..|data| - 1], data[|data| - 1];
      assert data == init + [last];
      AbsentInPrefix(init, [last], pattern);
      Quiet(markers, inside, init);
      SiftHoldsLongestPart(pattern, data);
      var nothing: seq<Byte> := [];
      assert nothing + nothing == nothing;
      RunSnoc(Reader(markers), At(inside, []), init, last);
    }
  }

  /** Up to the end of a first marker the reference keeps what is before it and changes sides. */
  lemma {:induction false} RunToMarker(markers: Markers, inside: bool, data: seq<Byte>, found: nat)
    requires markers.Valid() && markers.Escapes() && Find(data, markers.Next(inside), 0) == Some(found)
    ensures Run(Reader(markers), At(inside, []), data[..found + |markers.Next(inside)|])
         == (if inside then AfterFrame else Inside([]), if inside then [] else data[..found])
  {
    var pattern := markers.Next(inside);
    var end := found + |pattern|;
    var before, marker, last := data[..found], data[found..end - 1], data[end - 1];
    assert data[..end] == before + marker + [last];
    assert data == before + marker + [last] + data[end..];
    FindIsFirst(data, pattern, 0);
    forall k | 0 <= k <= found ensures Occurs(before + marker + [last], pattern, k) <==> Occurs(data, pattern, k) {
      OccursInPrefix(before + marker + [last], data[end..], pattern, k);
    }
    HeldBeforeOccurrence(before, marker, last, pattern);
    Quiet(markers, inside, before + marker);
    RunSnoc(Reader(markers), At(inside, []), before + marker, last);
    var kept := if inside then [] else before;
    assert kept + [] == kept;
  }

  lemma {:induction false} RunAfterFrame(markers: Markers, data: seq<Byte>)
    requires markers.Valid()
    ensures Run(Reader(markers), AfterFrame, data)
         == if SkipBreaks(data) == [] then (AfterFrame, []) else Run(Reader(markers), Outside([]), SkipBreaks(data))
    decreases |data|
  {
    if data != [] && IsBreak(data[0]) {
      RunAfterFrame(markers, data[1..]);
      var out := Run(Reader(markers), AfterFrame, data[1..]).1;
      assert [] + out == out;
    }
  }

  // ---- the find-based stripping is the reference ----

  /** What survives the end of a chunk: that a frame just closed does not. */
  function Kept(mode: Mode): (bool, seq<Byte>) {
    match mode
    case Outside(held) => (false, held)
    case Inside(held) => (true, held)
    case AfterFrame => (false, [])
  }

  ghost predicate Agrees(stripped: Stripped, run: (Mode, seq<Byte>)) {
    stripped.durable == run.1 && (stripped.inside, stripped.carry) == Kept(run.0)
  }

  lemma {:induction false} StripIsRun(markers: Markers, data: seq<Byte>, inside: bool)
    requires markers.Valid() && markers.Escapes()
    ensures Agrees(Strip(markers, data, inside), Run(Reader(markers), At(inside, []), data))
    decreases |data|
  {
    var found := Find(data, markers.Next(inside), 0);
    if found.None? {
      NothingIsRun(markers, data, inside);
    } else {
      var later := Later(markers, data, inside, found.value);
      StripIsRun(markers, later, !inside);
      FoundIsRun(markers, data, inside, found.value, later);
    }
  }

  /** What is stripped after the marker found. */
  function Later(markers: Markers, data: seq<Byte>, inside: bool, found: nat): (later: seq<Byte>)
    requires markers.Valid() && found + |markers.Next(inside)| <= |data|
    ensures |later| < |data|
  {
    var after := data[found + |markers.Next(inside)|..];
    if inside then SkipBreaks(after) else after
  }

  lemma {:induction false} FoundIsRun(markers: Markers, data: seq<Byte>, inside: bool, found: nat, later: seq<Byte>)
    requires markers.Valid() && markers.Escapes() && Find(data, markers.Next(inside), 0) == Some(found)
    requires later == Later(markers, data, inside, found)
    requires Agrees(Strip(markers, later, !inside), Run(Reader(markers), At(!inside, []), later))
    ensures Agrees(Strip(markers, data, inside), Run(Reader(markers), At(inside, []), data))
  {
    if inside {
      FrameIsRun(markers, data, inside, found, later);
    } else {
      TextIsRun(markers, data, inside, found, later);
    }
  }

  lemma {:induction false} NothingIsRun(markers: Markers, data: seq<Byte>, inside: bool)
    requires markers.Valid() && markers.Escapes() && Find(data, markers.Next(inside), 0).None?
    ensures Agrees(Strip(markers, data, inside), Run(Reader(markers), At(inside, []), data))
  {
    FindIsFirst(data, markers.Next(inside), 0);
    Quiet(markers, inside, data);
  }

  lemma {:induction false} TextIsRun(markers: Markers, data: seq<Byte>, inside: bool, found: nat, later: seq<Byte>)
    requires markers.Valid() && markers.Escapes() && Find(data, markers.Next(inside), 0) == Some(found)
    requires !inside && later == Later(markers, data, inside, found)
    requires Agrees(Strip(markers, later, !inside), Run(Reader(markers), At(!inside, []), later))
    ensures Agrees(Strip(markers, data, inside), Run(Reader(markers), At(inside, []), data))
  {
    var end := found + |markers.Next(inside)|;
    assert data == data[..end] + later;
    RunToMarker(markers, inside, data, found);
    RunConcat(Reader(markers), At(inside, []), data[..end], later);
  }

  lemma {:induction false} FrameIsRun(markers: Markers, data: seq<Byte>, inside: bool, found: nat, later: seq<Byte>)
    requires markers.Valid() && markers.Escapes() && Find(data, markers.Next(inside), 0) == Some(found)
    requires inside && later == Later(markers, data, inside, found)
    requires Agrees(Strip(markers, later, !inside), Run(Reader(markers), At(!inside, []), later))
    ensures Agrees(Strip(markers, data, inside), Run(Reader(markers), At(inside, []), data))
  {
    var end := found + |markers.Next(inside)|;
    var after := data[end..];
    assert data == data[..end] + after;
    RunToMarker(markers, inside, data, found);
    RunConcat(Reader(markers), At(inside, []), data[..end], after);
    RunAfterFrame(markers, after);
    var out := Run(Reader(markers), AfterFrame, after).1;
    assert [] + out == out;
  }

  /** A state the filter can be in between chunks: the carry is the beginning of the marker looked for. */
  predicate IsCarry(markers: Markers, inside: bool, carry: seq<Byte>) {
    |carry| < |markers.Next(inside)| && EndsInPart(carry, markers.Next(inside), |carry|)
  }

  lemma {:induction false} CarryIsReplayed(markers: Markers, inside: bool, carry: seq<Byte>)
    requires markers.Valid() && markers.Escapes() && IsCarry(markers, inside, carry)
    ensures Run(Reader(markers), At(inside, []), carry) == (At(inside, carry), [])
  {
    var pattern := markers.Next(inside);
    AbsentInPrefix(carry, [], pattern);
    SiftHoldsLongestPart(pattern, carry);
    Quiet(markers, inside, carry);
    var (out, held) := Sift(pattern, carry);
    assert out == [] && out + held == held;
  }

  /** One call on a chunk does what the reference does from the mode the carry stands for. */
  lemma {:induction false} ChunkIsRun(markers: Markers, inside: bool, carry: seq<Byte>, chunk: seq<Byte>)
    requires markers.Valid() && markers.Escapes() && IsCarry(markers, inside, carry)
    ensures Agrees(Strip(markers, carry + chunk, inside), Run(Reader(markers), At(inside, carry), chunk))
    ensures var s := Strip(markers, carry + chunk, inside); IsCarry(markers, s.inside, s.carry)
  {
    StripIsRun(markers, carry + chunk, inside);
    CarryIsReplayed(markers, inside, carry);
    RunConcat(Reader(markers), At(inside, []), carry, chunk);
    var out := Run(Reader(markers), At(inside, carry), chunk).1;
    assert [] + out == out;
    CarryStays(markers, carry + chunk, inside);
  }

  lemma {:induction false} CarryStays(markers: Markers, data: seq<Byte>, inside: bool)
    requires markers.Valid() && markers.Escapes()
    ensures var s := Strip(markers, data, inside); IsCarry(markers, s.inside, s.carry)
    decreases |data|
  {
    var found := Find(data, markers.Next(inside), 0);
    if found.None? {
      HeldIsCarry(markers, data, inside);
    } else {
      AfterMarker(markers, data, inside, found.value);
      CarryStays(markers, Later(markers, data, inside, found.value), !inside);
    }
  }

  lemma {:induction false} AfterMarker(markers: Markers, data: seq<Byte>, inside: bool, found: nat)
    requires markers.Valid() && Find(data, markers.Next(inside), 0) == Some(found)
    ensures var now := Strip(markers, data, inside);
            var later := Strip(markers, Later(markers, data, inside, found), !inside);
            now.inside == later.inside && now.carry == later.carry
  {
  }

  lemma {:induction false} HeldIsCarry(markers: Markers, data: seq<Byte>, inside: bool)
    requires markers.Valid() && markers.Escapes() && Find(data, markers.Next(inside), 0).None?
    ensures var s := Strip(markers, data, inside); IsCarry(markers, s.inside, s.carry)
  {
    var pattern := markers.Next(inside);
    FindIsFirst(data, pattern, 0);
    SiftHoldsLongestPart(pattern, data);
    HeldIsBeginning(pattern, data, Sift(pattern, data).0, Sift(pattern, data).1);
  }

  // ---- cutting the stream ----

  /** Two calls, one on each half. */
  function StripTwice(markers: Markers, inside: bool, carry: seq<Byte>, a: seq<Byte>, b: seq<Byte>): Stripped
    requires markers.Valid()
  {
    var first := Strip(markers, carry + a, inside);
    var second := Strip(markers, first.carry + b, first.inside);
    second.(durable := first.durable + second.durable)
  }

  /** The cut falls after a frame has closed and before a line break that belongs to it. */
  predicate CutsBreaks(markers: Markers, inside: bool, carry: seq<Byte>, a: seq<Byte>, b: seq<Byte>)
    requires markers.Valid()
  {
    Run(Reader(markers), At(inside, carry), a).0.AfterFrame? && b != [] && IsBreak(b[0])
  }

  /**
   Cutting a chunk in two changes nothing that is kept or carried, exactly unless the cut falls between
   a closing marker and the line breaks after it.
   */
  lemma {:induction false} CutIsHarmless(markers: Markers, inside: bool, carry: seq<Byte>, a: seq<Byte>, b: seq<Byte>)
    requires markers.Valid() && markers.Escapes() && IsCarry(markers, inside, carry)
    ensures (StripTwice(markers, inside, carry, a, b) == Strip(markers, carry + (a + b), inside))
       <==> !CutsBreaks(markers, inside, carry, a, b)
    ensures CutsBreaks(markers, inside, carry, a, b) ==>
              |Strip(markers, carry + (a + b), inside).durable| < |StripTwice(markers, inside, carry, a, b).durable|
  {
    var read := Reader(markers);
    ChunkIsRun(markers, inside, carry, a);
    ChunkIsRun(markers, inside, carry, a + b);
    RunConcat(read, At(inside, carry), a, b);
    var (middle, out) := Run(read, At(inside, carry), a);
    var first := Strip(markers, carry + a, inside);
    ChunkIsRun(markers, first.inside, first.carry, b);
    var second := Strip(markers, first.carry + b, first.inside);
    assert StripTwice(markers, inside, carry, a, b) == Stripped(out + second.durable, second.inside, second.carry);
    if middle.AfterFrame? {
      BreaksSkippedOrKept(markers, b);
    }
  }

  /** After a frame its line breaks are skipped, outside one they are kept; nothing else tells the two apart. */
  lemma {:induction false} BreaksSkippedOrKept(markers: Markers, b: seq<Byte>)
    requires markers.Valid() && markers.Escapes()
    ensures var (after, skipped) := Run(Reader(markers), AfterFrame, b);
            var (outside, kept) := Run(Reader(markers), Outside([]), b);
            if b != [] && IsBreak(b[0]) then |skipped| < |kept| else skipped == kept && (b != [] ==> after == outside)
  {
    RunAfterFrame(markers, b);
    if b != [] && IsBreak(b[0]) {
      BreaksAreKeptOutside(markers, b);
    }
  }

  /** One call on each read of a stream. */
  function StripReads(markers: Markers, inside: bool, carry: seq<Byte>, chunks: seq<seq<Byte>>): Stripped
    requires markers.Valid()
    decreases |chunks|
  {
    if chunks == [] then Stripped([], inside, carry)
    else
      var first := Strip(markers, carry + chunks[0], inside);
      var later := StripReads(markers, first.inside, first.carry, chunks[1..]);
      later.(durable := first.durable + later.durable)
  }

  /** Some read ends between a closing marker and a line break that belongs to it. */
  predicate SomeReadCutsBreaks(markers: Markers, inside: bool, carry: seq<Byte>, chunks: seq<seq<Byte>>)
    requires markers.Valid()
    decreases |chunks|
  {
    chunks != [] &&
    (var first := Strip(markers, carry + chunks[0], inside);
     || CutsBreaks(markers, inside, carry, chunks[0], Joined(chunks[1..]))
     || SomeReadCutsBreaks(markers, first.inside, first.carry, chunks[1..]))
  }

  /** What is compared: a stream stripped read by read, and at once. */
  predicate SameAtOnce(markers: Markers, inside: bool, carry: seq<Byte>, chunks: seq<seq<Byte>>)
    requires markers.Valid()
  {
    StripReads(markers, inside, carry, chunks) == Strip(markers, carry + Joined(chunks), inside)
  }

  predicate MoreThanAtOnce(markers: Markers, inside: bool, carry: seq<Byte>, chunks: seq<seq<Byte>>)
    requires markers.Valid()
  {
    |Strip(markers, carry + Joined(chunks), inside).durable| < |StripReads(markers, inside, carry, chunks).durable|
  }

  /**
   However a stream is cut into reads, the same bytes are kept, and the same carried and remembered, as if
   it had come at once, if and only if no read ends between a closing marker and its line breaks; one that
   does keeps bytes too many.
   */
  lemma {:induction false} ReadsAreHarmless(markers: Markers, inside: bool, carry: seq<Byte>, chunks: seq<seq<Byte>>)
    requires markers.Valid() && markers.Escapes() && IsCarry(markers, inside, carry)
    ensures if SomeReadCutsBreaks(markers, inside, carry, chunks) then MoreThanAtOnce(markers, inside, carry, chunks)
            else SameAtOnce(markers, inside, carry, chunks)
    decreases |chunks|
  {
    if chunks == [] {
      assert carry + [] == carry;
      CarryStripsToItself(markers, inside, carry);
    } else {
      var rest := Joined(chunks[1..]);
      var first := Strip(markers, carry + chunks[0], inside);
      ChunkIsRun(markers, inside, carry, chunks[0]);
      CutIsHarmless(markers, inside, carry, chunks[0], rest);
      ReadsAreHarmless(markers, first.inside, first.carry, chunks[1..]);
    }
  }

  lemma {:induction false} CarryStripsToItself(markers: Markers, inside: bool, carry: seq<Byte>)
    requires markers.Valid() && markers.Escapes() && IsCarry(markers, inside, carry)
    ensures Strip(markers, carry, inside) == Stripped([], inside, carry)
  {
    StripIsRun(markers, carry, inside);
    CarryIsReplayed(markers, inside, carry);
  }

  lemma {:induction false} BreaksAreKeptOutside(markers: Markers, b: seq<Byte>)
    requires markers.Valid() && markers.Escapes()
    requires b != [] && IsBreak(b[0])
    ensures |Run(Reader(markers), Outside([]), SkipBreaks(b)).1| < |Run(Reader(markers), Outside([]), b).1|
    decreases |b|
  {
    assert [] + [b[0]] == [b[0]];
    assert ReadByte(markers, Outside([]), b[0]) == (Outside([]), [b[0]]);
    if b[1..] != [] && IsBreak(b[1]) {
      BreaksAreKeptOutside(markers, b[1..]);
    }
  }

  // ---- streams of whole frames ----

  /** Some text, then a frame and the line breaks that go with it. */
  datatype Segment = Segment(text: seq<Byte>, body: seq<Byte>, breaks: seq<Byte>)

  function Stream(start: seq<Byte>, end: seq<Byte>, segments: seq<Segment>, last: seq<Byte>): seq<Byte> {
    if segments == [] then last
    else segments[0].text + (start + (segments[0].body + (end + (segments[0].breaks
         + Stream(start, end, segments[1..], last)))))
  }

  function Texts(segments: seq<Segment>): seq<Byte> {
    if segments == [] then [] else segments[0].text + Texts(segments[1..])
  }

  /** The text holds no opening marker, a frame's body no closing one, and what follows a frame is no line break. */
  ghost predicate WellFormed(start: seq<Byte>, end: seq<Byte>, segments: seq<Segment>, last: seq<Byte>)
    decreases |segments|
  {
    if segments == [] then Absent(last, Literal(start))
    else
      && Absent(segments[0].text, Literal(start))
      && Absent(segments[0].body, Literal(end))
      && (forall b | b in segments[0].breaks :: IsBreak(b))
      && (var rest := Stream(start, end, segments[1..], last); rest != [] ==> !IsBreak(rest[0]))
      && WellFormed(start, end, segments[1..], last)
  }

  lemma {:induction false} FindPlanted(text: seq<Byte>, marker: seq<Byte>, rest: seq<Byte>)
    requires HeadOnly(Literal(marker)) && Absent(text, Literal(marker))
    ensures Find(text + (marker + rest), Literal(marker), 0) == Some(|text|)
    ensures (text + (marker + rest))[..|text|] == text && (text + (marker + rest))[|text| + |marker|..] == rest
  {
    var pattern, data := Literal(marker), text + (marker + rest);
    assert forall k :: |text| <= k < |text| + |marker| ==> data[k] == marker[k - |text|];
    MatchesEverywhere(data, pattern, |text|, |marker|);
    forall k | 0 <= k < |text| ensures !Occurs(data, pattern, k) {
      if k + |marker| <= |text| {
        OccursInPrefix(text, marker + rest, pattern, k);
        assert !Occurs(text, pattern, k);
      } else {
        MatchesEverywhere(data, pattern, k, |marker|);
        var middle := |text|;
        assert data[middle] == marker[0] && data[middle] in pattern[0] && data[middle] !in pattern[middle - k];
      }
    }
    assert Occurs(data, pattern, |text|);
    FindIsFirst(data, pattern, 0);
  }

  lemma {:induction false} BreaksAreSkipped(breaks: seq<Byte>, rest: seq<Byte>)
    requires forall b | b in breaks :: IsBreak(b)
    requires rest != [] ==> !IsBreak(rest[0])
    ensures SkipBreaks(breaks + rest) == rest
  {
    if breaks == [] {
      assert breaks + rest == rest;
    } else {
      assert breaks[0] in breaks;
      assert (breaks + rest)[1..] == breaks[1..] + rest;
      BreaksAreSkipped(breaks[1..], rest);
    }
  }

  /**
   The durable bytes of a stream of whole frames are exactly the bytes outside them, less the markers
   and the line breaks after each; only a marker that may have begun at the very end is still carried.
   */
  lemma {:induction false} FramesVanish(markers: Markers, start: seq<Byte>, end: seq<Byte>, segments: seq<Segment>,
                                        last: seq<Byte>)
    requires markers == Markers(Literal(start), Literal(end)) && markers.Valid() && markers.Escapes()
    requires WellFormed(start, end, segments, last)
    ensures var s := Strip(markers, Stream(start, end, segments, last), false);
            !s.inside && s.durable + s.carry == Texts(segments) + last
    decreases |segments|
  {
    if segments == [] {
      LastTextIsKept(markers, last);
    } else {
      var s := segments[0];
      var rest := Stream(start, end, segments[1..], last);
      FramesVanish(markers, start, end, segments[1..], last);
      SegmentInFront(markers, start, end, s, rest, Texts(segments[1..]), last);
    }
  }

  lemma {:induction false} SegmentInFront(markers: Markers, start: seq<Byte>, end: seq<Byte>, s: Segment, rest: seq<Byte>,
                                          texts: seq<Byte>, last: seq<Byte>)
    requires markers == Markers(Literal(start), Literal(end)) && markers.Valid() && markers.Escapes()
    requires Absent(s.text, Literal(start)) && Absent(s.body, Literal(end))
    requires (forall b | b in s.breaks :: IsBreak(b)) && (rest != [] ==> !IsBreak(rest[0]))
    requires var later := Strip(markers, rest, false); !later.inside && later.durable + later.carry == texts + last
    ensures var all := Strip(markers, s.text + (start + (s.body + (end + (s.breaks + rest)))), false);
            !all.inside && all.durable + all.carry == (s.text + texts) + last
  {
    OneSegment(markers, start, end, s, rest);
    var later := Strip(markers, rest, false);
    assert (s.text + later.durable) + later.carry == s.text + (later.durable + later.carry);
    assert s.text + (texts + last) == (s.text + texts) + last;
  }

  lemma {:induction false} OneSegment(markers: Markers, start: seq<Byte>, end: seq<Byte>, s: Segment, rest: seq<Byte>)
    requires markers == Markers(Literal(start), Literal(end)) && markers.Valid() && markers.Escapes()
    requires Absent(s.text, Literal(start)) && Absent(s.body, Literal(end))
    requires (forall b | b in s.breaks :: IsBreak(b)) && (rest != [] ==> !IsBreak(rest[0]))
    ensures var later := Strip(markers, rest, false);
            Strip(markers, s.text + (start + (s.body + (end + (s.breaks + rest)))), false)
              == Stripped(s.text + later.durable, later.inside, later.carry)
  {
    TextBeforeFrame(markers, start, s.text, s.body + (end + (s.breaks + rest)));
    FrameVanishes(markers, end, s.body, s.breaks, rest);
  }

  lemma {:induction false} FrameVanishes(markers: Markers, end: seq<Byte>, body: seq<Byte>, breaks: seq<Byte>, rest: seq<Byte>)
    requires markers.Valid() && markers.Escapes() && markers.end == Literal(end)
    requires Absent(body, markers.end)
    requires (forall b | b in breaks :: IsBreak(b)) && (rest != [] ==> !IsBreak(rest[0]))
    ensures Strip(markers, body + (end + (breaks + rest)), true) == Strip(markers, rest, false)
  {
    FindPlanted(body, end, breaks + rest);
    BreaksAreSkipped(breaks, rest);
  }

  lemma {:induction false} TextBeforeFrame(markers: Markers, start: seq<Byte>, text: seq<Byte>, rest: seq<Byte>)
    requires markers.Valid() && markers.Escapes() && markers.start == Literal(start)
    requires Absent(text, markers.start)
    ensures var later := Strip(markers, rest, true);
            Strip(markers, text + (start + rest), false) == Stripped(text + later.durable, later.inside, later.carry)
  {
    FindPlanted(text, start, rest);
    TextInFront(markers, text + (start + rest), text, rest);
  }

  lemma {:induction false} TextInFront(markers: Markers, data: seq<Byte>, text: seq<Byte>, rest: seq<Byte>)
    requires markers.Valid() && Find(data, markers.start, 0) == Some(|text|)
    requires data[..|text|] == text && data[|text| + |markers.start|..] == rest
    ensures var later := Strip(markers, rest, true);
            Strip(markers, data, false) == Stripped(text + later.durable, later.inside, later.carry)
  {
  }

  lemma {:induction false} LastTextIsKept(markers: Markers, last: seq<Byte>)
    requires markers.Valid() && markers.Escapes() && Absent(last, markers.start)
    ensures var s := Strip(markers, last, false); !s.inside && s.durable + s.carry == last
  {
    FindIsFirst(last, markers.start, 0);
    SiftHoldsLongestPart(markers.start, last);
  }

  /** For the synchronized-update markers themselves, from a filter just created. */
  lemma {:induction false} UpdateFramesVanish(segments: seq<Segment>, last: seq<Byte>)
    requires WellFormed(UPDATE_START, UPDATE_END, segments, last)
    ensures var s := Strip(SYNC_UPDATE, Stream(UPDATE_START, UPDATE_END, segments, last), false);
            !s.inside && s.durable + s.carry == Texts(segments) + last && IsCarry(SYNC_UPDATE, false, s.carry)
  {
    CarryStays(SYNC_UPDATE, Stream(UPDATE_START, UPDATE_END, segments, last), false);
    FramesVanish(SYNC_UPDATE, UPDATE_START, UPDATE_END, segments, last);
  }
}

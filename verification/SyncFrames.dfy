/**
 Durable scrollback keeps the bytes outside synchronized-update frames.  The stripping reads the
 stream in whatever pieces arrive, carrying an unfinished marker and the fact of being inside a frame.
 */
module SyncFrames {
  import opened Bytes
  import opened Wrappers
  import opened MarkerScan

  /** The marker that starts a frame and the one that ends it. */
  datatype Markers = Markers(start: Pattern, end: Pattern) {
    predicate Valid() {
      start != [] && end != []
    }

    /** ESC starts either marker and occurs nowhere else in it. */
    ghost predicate Escapes() {
      HeadOnly(start) && HeadOnly(end) && start[0] == {ESC}
    }

    /** What to look for next. */
    function Next(inside: bool): Pattern {
      if inside then end else start
    }
  }

  // ESC [ ? 2 0 2 6 h, and the same with l.
  const UPDATE_START: seq<Byte> := [ESC, 0x5b, 0x3f, 0x32, 0x30, 0x32, 0x36, 0x68]
  const UPDATE_END: seq<Byte> := [ESC, 0x5b, 0x3f, 0x32, 0x30, 0x32, 0x36, 0x6c]
  const SYNC_UPDATE := Markers(Literal(UPDATE_START), Literal(UPDATE_END))

  predicate IsBreak(b: Byte) {
    b == RETURN || b == NEWLINE
  }

  function SkipBreaks(data: seq<Byte>): (rest: seq<Byte>)
    ensures |rest| <= |data|
  {
    if data != [] && IsBreak(data[0]) then SkipBreaks(data[1..]) else data
  }

  datatype Stripped = Stripped(durable: seq<Byte>, inside: bool, carry: seq<Byte>)

  /** The whole of one call on the carried bytes and the new ones. */
  function Strip(markers: Markers, data: seq<Byte>, inside: bool): Stripped
    requires markers.Valid()
    decreases |data|
  {
    var pattern := markers.Next(inside);
    match Find(data, pattern, 0)
    case None =>
      var (out, held) := Sift(pattern, data);
      Stripped(if inside then [] else out, inside, held)
    case Some(found) =>
      var after := data[found + |pattern|..];
      var rest := Strip(markers, if inside then SkipBreaks(after) else after, !inside);
      if inside then rest else Stripped(data[..found] + rest.durable, rest.inside, rest.carry)
  }

  function StripOnto(markers: Markers, durable: seq<Byte>, data: seq<Byte>, inside: bool): Stripped
    requires markers.Valid()
  {
    var rest := Strip(markers, data, inside);
    Stripped(durable + rest.durable, rest.inside, rest.carry)
  }

  class ScrollbackFilter {
    var inside: bool
    var carry: seq<Byte>

    constructor ()
      ensures !inside && carry == []
    {
      inside, carry := false, [];
    }

    method DurableBytes(chunk: seq<Byte>) returns (durable: seq<Byte>)
      modifies this
      ensures Stripped(durable, inside, carry) == Strip(SYNC_UPDATE, old(carry) + chunk, old(inside))
    {
      durable, inside, carry := StripAll(SYNC_UPDATE, carry + chunk, inside);
    }
  }

  method StripAll(markers: Markers, data: seq<Byte>, startsInside: bool)
    returns (durable: seq<Byte>, inside: bool, carry: seq<Byte>)
    requires markers.Valid() && markers.Escapes()
    ensures Stripped(durable, inside, carry) == Strip(markers, data, startsInside)
  {
    durable, inside, carry := [], startsInside, [];
    var rest := data;
    assert [] + Strip(markers, data, startsInside).durable == Strip(markers, data, startsInside).durable;
    while rest != []
      invariant carry == []
      invariant StripOnto(markers, durable, rest, inside) == Strip(markers, data, startsInside)
      decreases |rest|
    {
      var pattern := markers.Next(inside);
      var found := Find(rest, pattern, 0);
      if found.None? {
        durable, carry := HoldBackPartial(markers, durable, rest, inside);
        return;
      }
      durable, rest := PassMarker(markers, durable, rest, inside, found.value);
      inside := !inside;
    }
  }

  /** A marker found: what comes before it is kept or dropped, and the line breaks after a frame dropped. */
  method PassMarker(markers: Markers, before: seq<Byte>, data: seq<Byte>, inside: bool, found: nat)
    returns (durable: seq<Byte>, rest: seq<Byte>)
    requires markers.Valid() && Find(data, markers.Next(inside), 0) == Some(found)
    ensures StripOnto(markers, durable, rest, !inside) == StripOnto(markers, before, data, inside)
    ensures |rest| < |data|
  {
    rest := data[found + |markers.Next(inside)|..];
    if !inside {
      durable := before + data[..found];
    } else {
      durable := before;
      rest := DropBreaks(rest);
    }
  }

  /** No further marker: what may be the beginning of one is carried, the rest of the tail kept. */
  method HoldBackPartial(markers: Markers, before: seq<Byte>, tail: seq<Byte>, inside: bool)
    returns (durable: seq<Byte>, carry: seq<Byte>)
    requires markers.Valid() && markers.Escapes()
    requires Find(tail, markers.Next(inside), 0).None?
    ensures Stripped(durable, inside, carry) == StripOnto(markers, before, tail, inside)
  {
    var partial := PartialLength(tail, markers.Next(inside));
    durable := before;
    if !inside {
      durable := durable + (if partial > 0 then tail[..|tail| - partial] else tail);
    }
    carry := if partial > 0 then tail[|tail| - partial..] else [];
    PartialIsHeld(tail, markers.Next(inside), partial);
  }

  method DropBreaks(data: seq<Byte>) returns (rest: seq<Byte>)
    ensures rest == SkipBreaks(data)
  {
    rest := data;
    while rest != [] && IsBreak(rest[0])
      invariant SkipBreaks(rest) == SkipBreaks(data)
    {
      rest := rest[1..];
    }
  }

  // ---- one turn of the loop ----

  lemma {:induction false} PartialIsHeld(tail: seq<Byte>, pattern: Pattern, partial: nat)
    requires HeadOnly(pattern) && Find(tail, pattern, 0).None? && EndsInPart(tail, pattern, partial)
    requires forall length :: 0 <= length < |pattern| && EndsInPart(tail, pattern, length) ==> length <= partial
    ensures Sift(pattern, tail) == if partial > 0 then (tail[..|tail| - partial], tail[|tail| - partial..]) else (tail, [])
  {
    FindIsFirst(tail, pattern, 0);
    SiftHoldsLongestPart(pattern, tail);
    var (out, held) := Sift(pattern, tail);
    assert |held| == partial && |out| == |tail| - partial && tail == out + held;
    if partial > 0 {
      assert tail[..|out|] == out && tail[|out|..] == held;
    } else {
      assert held == [] && out + [] == out;
    }
  }
}

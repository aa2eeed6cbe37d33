/**
 Title collapsing against a reference that reads one byte at a time and never shortens what it holds.
 However the stream is cut, the recorder outputs the same bytes, keeps the same title and knows the same
 about discarding; only what it carries of an over-long title may differ.
 */
module TitleReference {
  import opened Bytes
  import opened Wrappers
  import opened MarkerScan
  import opened TitleCollapse
  import opened Transducer

  /** Between titles, with the beginning of one perhaps held back; or inside one, with all of it so far. */
  datatype Place =
    | Between(held: seq<Byte>)
    | InTitle(title: seq<Byte>)

  datatype Reading = Reading(place: Place, lastTitle: seq<Byte>)

  predicate Finishes(title: seq<Byte>, b: Byte) {
    b == BEL || (b == BACKSLASH && EndsInEscape(title))
  }

  function ReadByte(r: Reading, b: Byte): (Reading, seq<Byte>) {
    match r.place
    case Between(held) =>
      var (out, now) := Absorb(TITLE, held, b);
      if |now| == 4 then (r.(place := InTitle(now)), []) else (r.(place := Between(now)), out)
    case InTitle(title) =>
      if Finishes(title, b) then
        (Reading(Between([]), if |title| + 1 <= MAX_TITLE_BYTES then title + [b] else r.lastTitle), [])
      else (r.(place := InTitle(title + [b])), [])
  }

  // ---- outside titles ----

  lemma {:induction false} Quiet(data: seq<Byte>, lastTitle: seq<Byte>)
    requires Absent(data, TITLE)
    ensures var (out, held) := Sift(TITLE, data);
            Run(ReadByte, Reading(Between([]), lastTitle), data) == (Reading(Between(held), lastTitle), out)
    decreases |data|
  {
    if data != [] {
      var init, last := data[..|data| - 1], data[|data| - 1];
      assert data == init + [last];
      AbsentInPrefix(init, [last], TITLE);
      Quiet(init, lastTitle);
      SiftHoldsLongestPart(TITLE, data);
      RunSnoc(ReadByte, Reading(Between([]), lastTitle), init, last);
    }
  }

  lemma {:induction false} RunToTitle(data: seq<Byte>, start: nat, lastTitle: seq<Byte>)
    requires Find(data, TITLE, 0) == Some(start)
    ensures Run(ReadByte, Reading(Between([]), lastTitle), data[..start + 4])
         == (Reading(InTitle(data[start..start + 4]), lastTitle), data[..start])
  {
    var end := start + 4;
    var before, marker, last := data[..start], data[start..end - 1], data[end - 1];
    assert data[..end] == before + marker + [last];
    assert data == before + marker + [last] + data[end..];
    FindIsFirst(data, TITLE, 0);
    forall k | 0 <= k <= start ensures Occurs(before + marker + [last], TITLE, k) <==> Occurs(data, TITLE, k) {
      OccursInPrefix(before + marker + [last], data[end..], TITLE, k);
    }
    HeldBeforeOccurrence(before, marker, last, TITLE);
    Quiet(before + marker, lastTitle);
    RunSnoc(ReadByte, Reading(Between([]), lastTitle), before + marker, last);
    assert before + [] == before && marker + [last] == data[start..end];
  }

  // ---- inside a title ----

  lemma {:induction false} EndsAtNextByte(title: seq<Byte>, b: Byte)
    requires |title| >= 4 && (EndsInEscape(title) ==> |title| > 4)
    ensures EndsAt(title + [b], |title| + 1) <==> Finishes(title, b)
    ensures forall e: nat :: e <= |title| ==> (EndsAt(title + [b], e) <==> EndsAt(title, e))
  {
  }

  /** A title so far: it starts with a prefix and nothing in it ends it. */
  ghost predicate IsOpenTitle(title: seq<Byte>) {
    && |title| >= 4 && Occurs(title, TITLE, 0)
    && forall e: nat :: !EndsAt(title, e)
  }

  lemma {:induction false} PrefixIsNoEscape(title: seq<Byte>)
    requires |title| >= 4 && Occurs(title, TITLE, 0)
    ensures title[3] == SEMICOLON
    ensures EndsInEscape(title) ==> |title| > 4
  {
    MatchesEverywhere(title, TITLE, 0, 4);
    assert title[3] in TITLE[3 - 0];
  }

  /** Without an end in sight the title just grows. */
  lemma {:induction false} RunInTitle(title: seq<Byte>, body: seq<Byte>, lastTitle: seq<Byte>)
    requires |title| >= 4 && Occurs(title, TITLE, 0)
    requires forall e: nat :: !EndsAt(title + body, e)
    ensures Run(ReadByte, Reading(InTitle(title), lastTitle), body) == (Reading(InTitle(title + body), lastTitle), [])
    decreases |body|
  {
    if body == [] {
      assert title + body == title;
    } else {
      var init, last := body[..|body| - 1], body[|body| - 1];
      var so := title + init;
      assert body == init + [last] && title + body == so + [last];
      OccursInPrefix(title, init, TITLE, 0);
      PrefixIsNoEscape(so);
      EndsAtNextByte(so, last);
      assert !EndsAt(so + [last], |so| + 1);
      RunInTitle(title, init, lastTitle);
      RunSnoc(ReadByte, Reading(InTitle(title), lastTitle), init, last);
      NothingTwice();
    }
  }

  /** The byte that ends it closes the title, which is kept unless it is too long. */
  lemma {:induction false} RunToEnd(title: seq<Byte>, body: seq<Byte>, lastTitle: seq<Byte>)
    requires |title| >= 4 && Occurs(title, TITLE, 0) && body != []
    requires EndsAt(title + body, |title| + |body|)
    requires forall e: nat :: e < |title| + |body| ==> !EndsAt(title + body, e)
    ensures Run(ReadByte, Reading(InTitle(title), lastTitle), body)
         == (Reading(Between([]), if |title + body| <= MAX_TITLE_BYTES then title + body else lastTitle), [])
  {
    var init, last := body[..|body| - 1], body[|body| - 1];
    var so := title + init;
    assert body == init + [last] && title + body == so + [last];
    OccursInPrefix(title, init, TITLE, 0);
    PrefixIsNoEscape(so);
    EndsAtNextByte(so, last);
    RunInTitle(title, init, lastTitle);
    RunSnoc(ReadByte, Reading(InTitle(title), lastTitle), init, last);
    NothingTwice();
  }

  lemma {:induction false} NothingTwice()
    ensures var nothing: seq<Byte> := []; nothing + nothing == nothing
  {
  }

  // ---- the recorder represents the reference ----

  /** The recorder's state between calls: what it carries, whether it discards, and the title it keeps. */
  datatype Recorder = Recorder(carry: seq<Byte>, discard: bool, lastTitle: seq<Byte>)

  function After(c: Collapsed): Recorder {
    Recorder(c.carry, c.discard, c.lastTitle)
  }

  /** A short stand-in for an over-long title: still open, and ending in ESC just when the title does. */
  ghost predicate StandsFor(carry: seq<Byte>, title: seq<Byte>) {
    IsOpenTitle(carry) && (EndsInEscape(carry) <==> EndsInEscape(title))
  }

  ghost predicate Represents(c: Recorder, r: Reading) {
    && c.lastTitle == r.lastTitle
    && |c.carry| <= MAX_TITLE_BYTES
    && match r.place
       case Between(held) => !c.discard && c.carry == held && EndsInPart(held, TITLE, |held|)
       case InTitle(title) =>
         && IsOpenTitle(title)
         && c.discard == (|title| > MAX_TITLE_BYTES)
         && (if c.discard then StandsFor(c.carry, title) else c.carry == title)
  }

  lemma {:induction false} DropIsPlain(data: seq<Byte>, start: nat)
    requires Find(data, TITLE, 0) == Some(start)
    ensures |data[start..]| >= 4 && Occurs(data[start..], TITLE, 0)
    ensures Occurs(data[start..start + 4], TITLE, 0)
    ensures data == data[..start + 4] + data[start + 4..]
    ensures data[start..] == data[start..start + 4] + data[start + 4..]
  {
    FindIsFirst(data, TITLE, 0);
    MatchesMoved(data, start, data[start..], 0, TITLE, 4);
    MatchesMoved(data, start, data[start..start + 4], 0, TITLE, 4);
    CutTwice(data, start, start + 4);
  }

  lemma {:induction false} CutTwice(data: seq<Byte>, start: nat, end: nat)
    requires start <= end <= |data|
    ensures data == data[..end] + data[end..]
    ensures data[start..] == data[start..end] + data[end..]
    ensures data[..end] == data[..start] + data[start..end]
  {
    var from := data[start..];
    assert from[..end - start] == data[start..end] && from[end - start..] == data[end..];
  }

  ghost predicate Agrees(c: Collapsed, run: (Reading, seq<Byte>)) {
    c.output == run.1 && Represents(After(c), run.0)
  }

  /** A call that starts between titles, with nothing held, does what the reference does. */
  lemma {:induction false} CollapseIsRun(data: seq<Byte>, lastTitle: seq<Byte>)
    ensures Agrees(Collapse(data, false, lastTitle), Run(ReadByte, Reading(Between([]), lastTitle), data))
    decreases |data|
  {
    var start := Find(data, TITLE, 0);
    if start.None? {
      QuietAgrees(data, lastTitle);
    } else if TitleEnd(data[start.value..]).None? {
      OpenAgrees(data, start.value, lastTitle);
    } else {
      var length := TitleEnd(data[start.value..]).value;
      TitleEndIsFirst(data[start.value..]);
      var title := data[start.value..][..length];
      CollapseIsRun(data[start.value..][length..], if length <= MAX_TITLE_BYTES then title else lastTitle);
      TitleAgrees(data, start.value, length, lastTitle);
    }
  }

  lemma {:induction false} QuietAgrees(data: seq<Byte>, lastTitle: seq<Byte>)
    requires Find(data, TITLE, 0).None?
    ensures Agrees(Collapse(data, false, lastTitle), Run(ReadByte, Reading(Between([]), lastTitle), data))
  {
    FindIsFirst(data, TITLE, 0);
    Quiet(data, lastTitle);
    SiftHoldsLongestPart(TITLE, data);
    HeldIsBeginning(TITLE, data, Sift(TITLE, data).0, Sift(TITLE, data).1);
  }

  lemma {:induction false} OpenAgrees(data: seq<Byte>, start: nat, lastTitle: seq<Byte>)
    requires Find(data, TITLE, 0) == Some(start) && TitleEnd(data[start..]).None?
    ensures Agrees(Collapse(data, false, lastTitle), Run(ReadByte, Reading(Between([]), lastTitle), data))
  {
    DropIsPlain(data, start);
    OpenTitleIsRead(data, start, lastTitle);
    OpenIsRepresented(data[start..], lastTitle);
  }

  lemma {:induction false} OpenIsRepresented(title: seq<Byte>, lastTitle: seq<Byte>)
    requires |title| >= 4 && Occurs(title, TITLE, 0) && TitleEnd(title).None?
    ensures Represents(Recorder(CarryOf(title), |title| > MAX_TITLE_BYTES, lastTitle), Reading(InTitle(title), lastTitle))
  {
    TitleEndIsFirst(title);
  }

  lemma {:induction false} OpenTitleIsRead(data: seq<Byte>, start: nat, lastTitle: seq<Byte>)
    requires Find(data, TITLE, 0) == Some(start) && TitleEnd(data[start..]).None?
    ensures Run(ReadByte, Reading(Between([]), lastTitle), data) == (Reading(InTitle(data[start..]), lastTitle), data[..start])
  {
    DropIsPlain(data, start);
    TitleEndIsFirst(data[start..]);
    var prefix, body := data[start..start + 4], data[start + 4..];
    RunToTitle(data, start, lastTitle);
    RunInTitle(prefix, body, lastTitle);
    RunConcat(ReadByte, Reading(Between([]), lastTitle), data[..start + 4], body);
    assert data[..start] + [] == data[..start];
  }

  /** A whole title, from its prefix to its end. */
  lemma {:induction false} RunTitle(data: seq<Byte>, start: nat, length: nat, lastTitle: seq<Byte>)
    requires Find(data, TITLE, 0) == Some(start) && TitleEnd(data[start..]) == Some(length)
    ensures 4 < length <= |data| - start
    ensures Run(ReadByte, Reading(Between([]), lastTitle), data[..start + length])
         == (Reading(Between([]), if length <= MAX_TITLE_BYTES then data[start..][..length] else lastTitle), data[..start])
  {
    var from := data[start..];
    TitleEndIsFirst(from);
    DropIsPlain(data, start);
    var title, before := from[..length], data[..start + 4];
    var prefix, body := data[start..start + 4], data[start + 4..start + length];
    TitleFromPrefix(data, start, length);
    EndsAlike(from, length);
    RunToTitle(data, start, lastTitle);
    RunToEnd(prefix, body, lastTitle);
    RunConcat(ReadByte, Reading(Between([]), lastTitle), before, body);
    assert data[..start] + [] == data[..start];
  }

  lemma {:induction false} TitleFromPrefix(data: seq<Byte>, start: nat, length: nat)
    requires 4 <= length <= |data| - start
    ensures data[start..][..length] == data[start..start + 4] + data[start + 4..start + length]
    ensures data[..start + length] == data[..start + 4] + data[start + 4..start + length]
  {
  }

  lemma {:induction false} EndsAlike(from: seq<Byte>, length: nat)
    requires length <= |from|
    ensures forall e: nat :: e <= length ==> (EndsAt(from[..length], e) <==> EndsAt(from, e))
  {
  }

  lemma {:induction false} TitleAgrees(data: seq<Byte>, start: nat, length: nat, lastTitle: seq<Byte>)
    requires Find(data, TITLE, 0) == Some(start) && TitleEnd(data[start..]) == Some(length)
    requires length <= |data| - start
    requires var rest := data[start..][length..];
             var kept := if length <= MAX_TITLE_BYTES then data[start..][..length] else lastTitle;
             Agrees(Collapse(rest, false, kept), Run(ReadByte, Reading(Between([]), kept), rest))
    ensures Agrees(Collapse(data, false, lastTitle), Run(ReadByte, Reading(Between([]), lastTitle), data))
  {
    RunTitle(data, start, length, lastTitle);
    CollapseTitle(data, start, length, false, lastTitle);
    ThenRun(data, start, length, lastTitle);
  }

  lemma {:induction false} ThenRun(data: seq<Byte>, start: nat, length: nat, lastTitle: seq<Byte>)
    requires start + length <= |data|
    ensures var (middle, first) := Run(ReadByte, Reading(Between([]), lastTitle), data[..start + length]);
            var (last, second) := Run(ReadByte, middle, data[start..][length..]);
            Run(ReadByte, Reading(Between([]), lastTitle), data) == (last, first + second)
  {
    var rest := data[start..][length..];
    assert data == data[..start + length] + rest;
    RunConcat(ReadByte, Reading(Between([]), lastTitle), data[..start + length], rest);
  }

  // ---- a call that starts with something carried ----

  /** The reference gets to a carried state by reading what is carried, letting nothing out. */
  lemma {:induction false} CarryIsReplayed(c: Recorder, r: Reading)
    requires Represents(c, r) && !c.discard
    ensures Run(ReadByte, Reading(Between([]), c.lastTitle), c.carry) == (r, [])
  {
    match r.place
    case Between(held) =>
      AbsentInPrefix(held, [], TITLE);
      SiftHoldsLongestPart(TITLE, held);
      Quiet(held, c.lastTitle);
      var (out, now) := Sift(TITLE, held);
      assert |now| == |held| && out == [] && out + now == now;
    case InTitle(title) =>
      OpenTitleIsFound(title, []);
      assert title + [] == title;
      var prefix, body := title[..4], title[4..];
      DropIsPlain(title, 0);
      assert title[0..] == title && title[0..4] == prefix && title == prefix + body;
      RunToTitle(title, 0, c.lastTitle);
      RunInTitle(prefix, body, c.lastTitle);
      RunConcat(ReadByte, Reading(Between([]), c.lastTitle), prefix, body);
      assert title[..0] == [];
      NothingTwice();
  }

  lemma {:induction false} OpenTitleIsFound(title: seq<Byte>, more: seq<Byte>)
    requires |title| >= 4 && Occurs(title, TITLE, 0)
    ensures Find(title + more, TITLE, 0) == Some(0)
  {
    OccursInPrefix(title, more, TITLE, 0);
  }

  /** What ends a title after more bytes does not depend on how much of it is still there. */
  lemma {:induction false} StandInEndsAlike(carry: seq<Byte>, title: seq<Byte>, data: seq<Byte>, k: nat)
    requires IsOpenTitle(title) && StandsFor(carry, title) && 0 < k <= |data|
    ensures EndsAt(carry + data, |carry| + k) <==> EndsAt(title + data, |title| + k)
  {
    PrefixIsNoEscape(carry);
    PrefixIsNoEscape(title);
    assert (carry + data)[|carry| + k - 1] == data[k - 1] == (title + data)[|title| + k - 1];
    if k == 1 {
      assert (carry + data)[|carry| - 1] == carry[|carry| - 1] && (title + data)[|title| - 1] == title[|title| - 1];
    } else {
      assert (carry + data)[|carry| + k - 2] == data[k - 2] == (title + data)[|title| + k - 2];
    }
  }

  lemma {:induction false} OpenStaysOpenInside(title: seq<Byte>, data: seq<Byte>)
    requires IsOpenTitle(title)
    ensures forall e: nat :: e <= |title| ==> !EndsAt(title + data, e)
  {
    forall e: nat | e <= |title| ensures !EndsAt(title + data, e) {
      assert !EndsAt(title, e);
    }
  }

  /** Still discarding after the call: the title goes on, and so does its stand-in. */
  lemma {:induction false} DiscardGoesOn(c: Recorder, r: Reading, data: seq<Byte>)
    requires Represents(c, r) && c.discard && TitleEnd(c.carry + data).None?
    ensures Agrees(Collapse(c.carry + data, true, c.lastTitle), Run(ReadByte, r, data))
  {
    var title, all, whole := r.place.title, c.carry + data, r.place.title + data;
    OpenTitleIsFound(c.carry, data);
    TitleEndIsFirst(all);
    assert all[0..] == all && all[..0] == [];
    OpenStaysOpenInside(title, data);
    forall e: nat ensures !EndsAt(whole, e) {
      if |title| < e <= |whole| {
        StandInEndsAlike(c.carry, title, data, e - |title|);
        assert !EndsAt(all, |c.carry| + (e - |title|));
      }
    }
    RunInTitle(title, data, c.lastTitle);
    OccursInPrefix(title, data, TITLE, 0);
    OccursInPrefix(c.carry, data, TITLE, 0);
    if data == [] {
      assert all == c.carry && whole == title;
    } else {
      assert EndsInEscape(all) <==> EndsInEscape(data);
      assert EndsInEscape(whole) <==> EndsInEscape(data);
    }
  }

  /** The over-long title ends in this call, and the rest is read with nothing held. */
  lemma {:induction false} DiscardEnds(c: Recorder, r: Reading, data: seq<Byte>)
    requires Represents(c, r) && c.discard && TitleEnd(c.carry + data).Some?
    ensures Agrees(Collapse(c.carry + data, true, c.lastTitle), Run(ReadByte, r, data))
  {
    var all := c.carry + data;
    var length := TitleEnd(all).value;
    TitleEndIsFirst(all);
    OpenStaysOpenInside(c.carry, data);
    var k := length - |c.carry|;
    assert 0 < k <= |data|;
    var body, rest := data[..k], data[k..];
    assert all[length..] == rest;
    EndOfWhole(c, r, data, k);
    RunToEnd(r.place.title, body, c.lastTitle);
    DiscardedThenRest(c, all, length, rest);
    CollapseIsRun(rest, c.lastTitle);
    RestIsRun(r, data, k, Collapse(rest, false, c.lastTitle), Reading(Between([]), c.lastTitle));
  }

  lemma {:induction false} DiscardedThenRest(c: Recorder, all: seq<Byte>, length: nat, rest: seq<Byte>)
    requires IsOpenTitle(c.carry) && c.carry <= all && TitleEnd(all) == Some(length)
    requires length <= |all| && rest == all[length..]
    ensures Collapse(all, true, c.lastTitle) == Collapse(rest, false, c.lastTitle)
  {
    assert all == c.carry + all[|c.carry|..];
    OpenTitleIsFound(c.carry, all[|c.carry|..]);
    TitleEndIsFirst(all);
    assert all[0..] == all && all[..0] == [];
    CollapseTitle(all, 0, length, true, c.lastTitle);
    var later := Collapse(rest, false, c.lastTitle);
    assert [] + later.output == later.output;
  }

  lemma {:induction false} RestIsRun(r: Reading, data: seq<Byte>, k: nat, c: Collapsed, middle: Reading)
    requires k <= |data| && Run(ReadByte, r, data[..k]) == (middle, [])
    requires Agrees(c, Run(ReadByte, middle, data[k..]))
    ensures Agrees(c, Run(ReadByte, r, data))
  {
    assert data == data[..k] + data[k..];
    RunConcat(ReadByte, r, data[..k], data[k..]);
    var out := Run(ReadByte, middle, data[k..]).1;
    assert [] + out == out;
  }

  lemma {:induction false} EndOfWhole(c: Recorder, r: Reading, data: seq<Byte>, k: nat)
    requires Represents(c, r) && c.discard && 0 < k <= |data|
    requires TitleEnd(c.carry + data) == Some(|c.carry| + k)
    ensures EndsAt(r.place.title + data[..k], |r.place.title| + k)
    ensures forall e: nat :: e < |r.place.title| + k ==> !EndsAt(r.place.title + data[..k], e)
  {
    var title, all, body := r.place.title, c.carry + data, data[..k];
    TitleEndIsFirst(all);
    OpenStaysOpenInside(title, body);
    forall e: nat | |title| < e <= |title| + k
      ensures EndsAt(title + body, e) <==> EndsAt(all, |c.carry| + (e - |title|))
    {
      StandInEndsAlike(c.carry, title, body, e - |title|);
      assert forall i :: 0 <= i < |c.carry| + k ==> (c.carry + body)[i] == all[i];
    }
  }

  /** Every call, whatever is carried into it, does what the reference does with the same bytes. */
  lemma {:induction false} CallIsRun(c: Recorder, r: Reading, data: seq<Byte>)
    requires Represents(c, r)
    ensures Agrees(Collapse(c.carry + data, c.discard, c.lastTitle), Run(ReadByte, r, data))
  {
    if c.discard {
      if TitleEnd(c.carry + data).None? {
        DiscardGoesOn(c, r, data);
      } else {
        DiscardEnds(c, r, data);
      }
    } else {
      CollapseIsRun(c.carry + data, c.lastTitle);
      CarryIsReplayed(c, r);
      RunConcat(ReadByte, Reading(Between([]), c.lastTitle), c.carry, data);
      var out := Run(ReadByte, r, data).1;
      assert [] + out == out;
    }
  }

  // ---- whole streams ----

  /** A recorder fed one read after another: its final state and all it has output. */
  function Record(c: Recorder, chunks: seq<seq<Byte>>): (Recorder, seq<Byte>)
    decreases |chunks|
  {
    if chunks == [] then (c, [])
    else
      var first := Collapse(c.carry + chunks[0], c.discard, c.lastTitle);
      var (last, more) := Record(After(first), chunks[1..]);
      (last, first.output + more)
  }

  lemma {:induction false} RecordIsRun(c: Recorder, r: Reading, chunks: seq<seq<Byte>>)
    requires Represents(c, r)
    ensures var (last, output) := Record(c, chunks);
            var (place, out) := Run(ReadByte, r, Joined(chunks));
            output == out && Represents(last, place)
    decreases |chunks|
  {
    if chunks != [] {
      CallIsRun(c, r, chunks[0]);
      var first := Collapse(c.carry + chunks[0], c.discard, c.lastTitle);
      RecordIsRun(After(first), Run(ReadByte, r, chunks[0]).0, chunks[1..]);
      RunConcat(ReadByte, r, chunks[0], Joined(chunks[1..]));
    }
  }

  const NEW_RECORDER := Recorder([], false, [])

  /**
   However a stream is cut into reads, a new recorder outputs the same bytes, ends up keeping the same
   title and discarding or not, and carries the same unless it is discarding.  It never carries more
   than a title may be long.
   */
  lemma {:induction false} CuttingChangesNothing(chunks: seq<seq<Byte>>, others: seq<seq<Byte>>)
    requires Joined(chunks) == Joined(others)
    ensures var (a, out) := Record(NEW_RECORDER, chunks);
            var (b, other) := Record(NEW_RECORDER, others);
            && out == other
            && a.lastTitle == b.lastTitle && a.discard == b.discard
            && (!a.discard ==> a.carry == b.carry)
            && |a.carry| <= MAX_TITLE_BYTES
  {
    var start := Reading(Between([]), []);
    assert Represents(NEW_RECORDER, start);
    RecordIsRun(NEW_RECORDER, start, chunks);
    RecordIsRun(NEW_RECORDER, start, others);
  }
}

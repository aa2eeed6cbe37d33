/**
 What title collapsing is for: of a stream of texts and whole titles exactly the texts are output, and the
 last title that is not too long is kept, however the stream is cut into reads.
 */
module TitleStreams {
  import opened Bytes
  import opened Wrappers
  import opened MarkerScan
  import opened TitleCollapse
  import opened Transducer
  import opened TitleReference

  /** Some text, then a whole title. */
  datatype Segment = Segment(text: seq<Byte>, title: seq<Byte>)

  /** ESC ] with 0, 1 or 2 and a semicolon stands here. */
  predicate StartsTitle(data: seq<Byte>, k: nat) {
    && k + 4 <= |data|
    && data[k] == 0x1b && data[k + 1] == 0x5d && 0x30 <= data[k + 2] <= 0x32 && data[k + 3] == 0x3b
  }

  /** BEL, or ESC backslash, ends here. */
  predicate EndsTitle(data: seq<Byte>, k: nat)
    requires k < |data|
  {
    data[k] == 0x07 || (k > 4 && data[k - 1] == 0x1b && data[k] == 0x5c)
  }

  predicate IsWholeTitle(title: seq<Byte>) {
    && StartsTitle(title, 0) && |title| > 4
    && EndsTitle(title, |title| - 1)
    && forall k :: 4 <= k < |title| - 1 ==> !EndsTitle(title, k)
  }

  predicate IsText(text: seq<Byte>) {
    forall k :: 0 <= k < |text| ==> !StartsTitle(text, k)
  }

  ghost predicate WellFormed(segments: seq<Segment>, last: seq<Byte>) {
    IsText(last) && forall s | s in segments :: IsText(s.text) && IsWholeTitle(s.title)
  }

  function Stream(segments: seq<Segment>, last: seq<Byte>): seq<Byte> {
    if segments == [] then last else segments[0].text + (segments[0].title + Stream(segments[1..], last))
  }

  function Texts(segments: seq<Segment>): seq<Byte> {
    if segments == [] then [] else segments[0].text + Texts(segments[1..])
  }

  /** The last title that is at most MAX_TITLE_BYTES long, if there is one. */
  function LastTitle(segments: seq<Segment>, before: seq<Byte>): seq<Byte> {
    if segments == [] then before
    else LastTitle(segments[1..], if |segments[0].title| <= MAX_TITLE_BYTES then segments[0].title else before)
  }

  lemma {:induction false} StartsWhereItOccurs(data: seq<Byte>, k: nat)
    ensures Occurs(data, TITLE, k) <==> StartsTitle(data, k)
  {
    MatchesEverywhere(data, TITLE, k, 4);
    if k + 4 <= |data| {
      assert data[k + 2] in TITLE[2] <==> 0x30 <= data[k + 2] <= 0x32;
      assert data[k] in TITLE[0] <==> data[k] == 0x1b;
      assert data[k + 1] in TITLE[1] <==> data[k + 1] == 0x5d;
      assert data[k + 3] in TITLE[3] <==> data[k + 3] == 0x3b;
    }
  }

  lemma {:induction false} NoTitleInText(text: seq<Byte>)
    requires IsText(text)
    ensures Absent(text, TITLE)
  {
    forall k | 0 <= k <= |text| ensures !Occurs(text, TITLE, k) {
      StartsWhereItOccurs(text, k);
    }
  }

  /** The title after a text is the first there is: its ESC is nowhere else in a title's beginning. */
  lemma {:induction false} NoneBefore(text: seq<Byte>, more: seq<Byte>, k: nat)
    requires IsText(text) && more != [] && more[0] == 0x1b && k < |text|
    ensures !StartsTitle(text + more, k)
  {
    if k + 4 <= |text| {
      assert !StartsTitle(text, k);
    } else {
      assert (text + more)[|text|] == 0x1b;
    }
  }

  lemma {:induction false} TitleIsFound(text: seq<Byte>, title: seq<Byte>, rest: seq<Byte>)
    requires IsText(text) && IsWholeTitle(title)
    ensures var data := text + (title + rest);
            && Find(data, TITLE, 0) == Some(|text|)
            && data[..|text|] == text && data[|text|..] == title + rest
  {
    var data := text + (title + rest);
    forall k | 0 <= k < |text| ensures !Occurs(data, TITLE, k) {
      NoneBefore(text, title + rest, k);
      StartsWhereItOccurs(data, k);
    }
    assert StartsTitle(data, |text|);
    StartsWhereItOccurs(data, |text|);
    FindIsFirst(data, TITLE, 0);
  }

  lemma {:induction false} EndIsFound(title: seq<Byte>, rest: seq<Byte>)
    requires IsWholeTitle(title)
    ensures TitleEnd(title + rest) == Some(|title|)
  {
    var data := title + rest;
    TitleEndIsFirst(data);
    EndsInTitle(title, rest, |title|);
    forall e | 0 <= e < |title| ensures !EndsAt(data, e) {
      EndsInTitle(title, rest, e);
    }
  }

  lemma {:induction false} EndsInTitle(title: seq<Byte>, rest: seq<Byte>, e: nat)
    requires e <= |title|
    ensures EndsAt(title + rest, e) <==> e > 4 && EndsTitle(title, e - 1)
  {
  }

  /** One text and one title at the start of the data. */
  lemma {:induction false} SegmentIsCollapsed(s: Segment, rest: seq<Byte>, lastTitle: seq<Byte>)
    requires IsText(s.text) && IsWholeTitle(s.title)
    ensures var later := Collapse(rest, false, if |s.title| <= MAX_TITLE_BYTES then s.title else lastTitle);
            Collapse(s.text + (s.title + rest), false, lastTitle) == later.(output := s.text + later.output)
  {
    var data := s.text + (s.title + rest);
    TitleIsFound(s.text, s.title, rest);
    EndIsFound(s.title, rest);
    CollapseTitle(data, |s.text|, |s.title|, false, lastTitle);
    assert (s.title + rest)[..|s.title|] == s.title && (s.title + rest)[|s.title|..] == rest;
  }

  lemma {:induction false} TextIsCollapsed(text: seq<Byte>, lastTitle: seq<Byte>)
    requires IsText(text)
    ensures var c := Collapse(text, false, lastTitle);
            c.output + c.carry == text && !c.discard && c.lastTitle == lastTitle
  {
    NoTitleInText(text);
    FindIsFirst(text, TITLE, 0);
    SiftHoldsLongestPart(TITLE, text);
  }

  /** Read at once, the titles are gone, the texts are left, and the last title is kept. */
  lemma {:induction false} TitlesVanish(segments: seq<Segment>, last: seq<Byte>, lastTitle: seq<Byte>)
    requires WellFormed(segments, last)
    ensures var c := Collapse(Stream(segments, last), false, lastTitle);
            c.output + c.carry == Texts(segments) + last && !c.discard && c.lastTitle == LastTitle(segments, lastTitle)
    decreases |segments|
  {
    if segments == [] {
      TextIsCollapsed(last, lastTitle);
      assert [] + last == last;
    } else {
      var s, rest := segments[0], Stream(segments[1..], last);
      var kept := if |s.title| <= MAX_TITLE_BYTES then s.title else lastTitle;
      assert s in segments;
      SegmentIsCollapsed(s, rest, lastTitle);
      TitlesVanish(segments[1..], last, kept);
      var later := Collapse(rest, false, kept);
      JoinFour(s.text, later.output, later.carry, Texts(segments[1..]), last);
    }
  }

  lemma {:induction false} JoinFour(text: seq<Byte>, output: seq<Byte>, carry: seq<Byte>, texts: seq<Byte>, last: seq<Byte>)
    requires output + carry == texts + last
    ensures (text + output) + carry == (text + texts) + last
  {
    assert (text + output) + carry == text + (output + carry);
    assert (text + texts) + last == text + (texts + last);
  }

  /**
   However such a stream is cut into reads, a new recorder outputs exactly its texts, but for the beginning of
   a title that may have come last and is carried, and keeps the last title that is not too long.
   */
  lemma {:induction false} TitlesVanishHoweverCut(segments: seq<Segment>, last: seq<Byte>, chunks: seq<seq<Byte>>)
    requires WellFormed(segments, last) && Joined(chunks) == Stream(segments, last)
    ensures var (c, output) := Record(NEW_RECORDER, chunks);
            output + c.carry == Texts(segments) + last && !c.discard && c.lastTitle == LastTitle(segments, [])
  {
    var stream := Stream(segments, last);
    TitlesVanish(segments, last, []);
    AtOnce(stream);
    CuttingChangesNothing(chunks, [stream]);
  }

  lemma {:induction false} AtOnce(stream: seq<Byte>)
    ensures Joined([stream]) == stream
    ensures var c := Collapse(stream, false, []); Record(NEW_RECORDER, [stream]) == (After(c), c.output)
  {
    var nothing: seq<seq<Byte>> := [];
    assert [stream][1..] == nothing && stream + [] == stream && [] + stream == stream;
    var c := Collapse(stream, false, []);
    assert Record(After(c), nothing) == (After(c), []);
    assert c.output + [] == c.output;
  }
}

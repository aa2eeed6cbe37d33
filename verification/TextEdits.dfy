/**
 Applying a language server's edits to a file (section "TextEdit[]" of LSP 3.17): sorted, checked for
 overlap between neighbours only, and spliced in from the back.
 */
module TextEdits {
  import opened Wrappers
  import opened TextPositions

  /** An edit as the server sends it, and the same with offsets into the text. */
  datatype TextEdit = TextEdit(start: Position, end: Position, newText: string)

  datatype Replacement = Replacement(start: nat, end: nat, newText: string)

  datatype EditError = BadPosition(error: PositionError) | EndsBeforeStart | Overlapping

  predicate NotAfter(a: Replacement, b: Replacement) {
    a.start < b.start || (a.start == b.start && a.end <= b.end)
  }

  function Insert(r: Replacement, sorted: seq<Replacement>): seq<Replacement> {
    if sorted == [] || NotAfter(r, sorted[0]) then [r] + sorted else [sorted[0]] + Insert(r, sorted[1..])
  }

  /** list.sort by (start, end): stable. */
  function Sort(edits: seq<Replacement>): seq<Replacement> {
    if edits == [] then [] else Insert(edits[0], Sort(edits[1..]))
  }

  predicate NeighboursApart(sorted: seq<Replacement>) {
    |sorted| < 2 || (sorted[0].end <= sorted[1].start && NeighboursApart(sorted[1..]))
  }

  predicate InText(r: Replacement, length: nat) {
    r.start <= r.end <= length
  }

  predicate AllInText(edits: seq<Replacement>, length: nat) {
    edits == [] || (InText(edits[0], length) && AllInText(edits[1..], length))
  }

  // ---- what applying edits means ----

  /** The edits of exactly this range, in list order. */
  function At(edits: seq<Replacement>, start: nat, end: nat): seq<Replacement> {
    if edits == [] then []
    else (if edits[0].start == start && edits[0].end == end then [edits[0]] else []) + At(edits[1..], start, end)
  }

  function Texts(edits: seq<Replacement>): string {
    if edits == [] then "" else edits[0].newText + Texts(edits[1..])
  }

  /** What stands where the ranges starting at `start` and ending from `end` on were. */
  function Put(edits: seq<Replacement>, start: nat, end: nat, length: nat): string
    decreases length + 1 - end
  {
    if end > length then "" else Texts(At(edits, start, end)) + Put(edits, start, end + 1, length)
  }

  predicate Covered(edits: seq<Replacement>, offset: nat) {
    edits != [] && ((edits[0].start <= offset < edits[0].end) || Covered(edits[1..], offset))
  }

  /** A text read offset by offset: what is put there, then the character itself unless it is covered. */
  function Compose(content: string, put: nat -> string, covered: nat -> bool, offset: nat): string
    decreases |content| + 1 - offset
  {
    if offset > |content| then ""
    else
      put(offset)
      + (if offset < |content| && !covered(offset) then [content[offset]] else "")
      + Compose(content, put, covered, offset + 1)
  }

  function PutAt(edits: seq<Replacement>, length: nat): nat -> string {
    (offset: nat) => Put(edits, offset, offset, length)
  }

  function CoveredAt(edits: seq<Replacement>): nat -> bool {
    (offset: nat) => Covered(edits, offset)
  }

  /**
   Simultaneous replacement on the original text, without sorting anything: at each offset what is
   inserted there in list order, then what replaces a range starting there, and the character itself
   unless some range covers it.
   */
  function Simultaneous(content: string, edits: seq<Replacement>, offset: nat): string {
    Compose(content, PutAt(edits, |content|), CoveredAt(edits), offset)
  }

  predicate Overlap(a: Replacement, b: Replacement) {
    a.start < b.end && b.start < a.end
  }

  predicate ClearOf(r: Replacement, edits: seq<Replacement>) {
    edits == [] || (!Overlap(r, edits[0]) && ClearOf(r, edits[1..]))
  }

  /** No two edits of the list overlap, whichever way round they stand. */
  predicate NoneOverlap(edits: seq<Replacement>) {
    edits == [] || (ClearOf(edits[0], edits[1..]) && NoneOverlap(edits[1..]))
  }

  // ---- the ranges an edit names ----

  /** The edit's two positions stand at these offsets, the start not after the end. */
  predicate Resolves(content: string, edit: TextEdit, r: Replacement) {
    && PositionOffset(content, edit.start) == Ok(r.start)
    && PositionOffset(content, edit.end) == Ok(r.end)
    && r.start <= r.end
    && r.newText == edit.newText
  }

  predicate ResolvesAll(content: string, edits: seq<TextEdit>, replacements: seq<Replacement>) {
    && |replacements| == |edits|
    && forall i :: 0 <= i < |edits| ==> Resolves(content, edits[i], replacements[i])
  }

  /** What is wrong with one edit by itself: a position that is none, the first of the two, or their order. */
  predicate IsFault(content: string, edit: TextEdit, error: EditError) {
    var start, end := PositionOffset(content, edit.start), PositionOffset(content, edit.end);
    match error
    case BadPosition(e) => start == Err(e) || (start.Ok? && end == Err(e))
    case EndsBeforeStart => start.Ok? && end.Ok? && end.value < start.value
    case Overlapping => false
  }

  /** The error is what is wrong with the first edit that cannot be resolved. */
  ghost predicate IsFirstFault(content: string, edits: seq<TextEdit>, error: EditError) {
    exists i :: 0 <= i < |edits| && IsFault(content, edits[i], error) && CanResolve(content, edits[..i])
  }

  ghost predicate CanResolve(content: string, edits: seq<TextEdit>) {
    exists replacements :: ResolvesAll(content, edits, replacements)
  }

  // ---- the code ----

  /** A slice bound past the end of the text means its end. */
  function Clip(bound: nat, text: string): (clipped: nat)
    ensures clipped <= |text|
  {
    if bound <= |text| then bound else |text|
  }

  function SpliceIn(text: string, r: Replacement): string {
    text[..Clip(r.start, text)] + r.newText + text[Clip(r.end, text)..]
  }

  function Splice(content: string, sorted: seq<Replacement>): string {
    if sorted == [] then content else SpliceIn(Splice(content, sorted[1..]), sorted[0])
  }

  function Offsets(content: string, edits: seq<TextEdit>): Result<seq<Replacement>, EditError> {
    if edits == [] then Ok([])
    else
      match PositionOffset(content, edits[0].start)
      case Err(e) => Err(BadPosition(e))
      case Ok(start) =>
        match PositionOffset(content, edits[0].end)
        case Err(e) => Err(BadPosition(e))
        case Ok(end) =>
          if end < start then Err(EndsBeforeStart)
          else
            match Offsets(content, edits[1..])
            case Err(e) => Err(e)
            case Ok(more) => Ok([Replacement(start, end, edits[0].newText)] + more)
  }

  /**
   The plan for one file: the text with every named range replaced at once, refused when two of them
   overlap, or what is wrong with the first edit that names none.
   */
  method PlanFileEdit(content: string, edits: seq<TextEdit>) returns (updated: Result<string, EditError>)
    ensures forall replacements | ResolvesAll(content, edits, replacements) ::
              updated == if NoneOverlap(replacements) then Ok(Simultaneous(content, replacements, 0)) else Err(Overlapping)
    ensures !CanResolve(content, edits) ==> updated.Err? && IsFirstFault(content, edits, updated.error)
    ensures match Offsets(content, edits)
            case Err(e) => updated == Err(e)
            case Ok(replacements) =>
              updated == if NoneOverlap(replacements) then Ok(Simultaneous(content, replacements, 0)) else Err(Overlapping)
  {
    var resolved := ResolveOffsets(content, edits);
    OffsetsAreTheRanges(content, edits);
    if resolved.Err? {
      return Err(resolved.error);
    }
    OffsetsAreInText(content, edits);
    var sorted := Sort(resolved.value);
    SortKeepsRanges(resolved.value, |content|);
    SortedApartIffNoneOverlap(resolved.value, |content|);
    var k := 1;
    while k < |sorted|
      invariant 1 <= k && (k <= |sorted| || sorted == [])
      invariant sorted != [] ==> NeighboursApart(sorted) == NeighboursApart(sorted[k - 1..])
    {
      if sorted[k].start < sorted[k - 1].end {
        return Err(Overlapping);
      }
      assert sorted[k - 1..][1..] == sorted[k..];
      k := k + 1;
    }
    var text := SpliceBackToFront(content, sorted);
    SplicingIsSimultaneous(content, resolved.value);
    return Ok(text);
  }

  method ResolveOffsets(content: string, edits: seq<TextEdit>) returns (r: Result<seq<Replacement>, EditError>)
    ensures r == Offsets(content, edits)
  {
    var replacements: seq<Replacement> := [];
    ghost var whole := Offsets(content, edits);
    assert edits[0..] == edits && (whole.Ok? ==> [] + whole.value == whole.value);
    for k := 0 to |edits|
      invariant Offsets(content, edits) ==
                match Offsets(content, edits[k..])
                case Ok(more) => Ok(replacements + more)
                case Err(e) => Err(e)
    {
      assert edits[k..][1..] == edits[k + 1..];
      var start := PositionOffset(content, edits[k].start);
      if start.Err? {
        return Err(BadPosition(start.error));
      }
      var end := PositionOffset(content, edits[k].end);
      if end.Err? {
        return Err(BadPosition(end.error));
      }
      if end.value < start.value {
        return Err(EndsBeforeStart);
      }
      var one := Replacement(start.value, end.value, edits[k].newText);
      ghost var rest := Offsets(content, edits[k + 1..]);
      assert rest.Ok? ==> replacements + ([one] + rest.value) == (replacements + [one]) + rest.value;
      replacements := replacements + [one];
    }
    assert edits[|edits|..] == [] && replacements + [] == replacements;
    return Ok(replacements);
  }

  method SpliceBackToFront(content: string, sorted: seq<Replacement>) returns (text: string)
    ensures text == Splice(content, sorted)
  {
    text := content;
    var k := |sorted|;
    while k > 0
      invariant 0 <= k <= |sorted|
      invariant text == Splice(content, sorted[k..])
    {
      k := k - 1;
      assert sorted[k..][1..] == sorted[k + 1..];
      text := SpliceIn(text, sorted[k]);
    }
    assert sorted[0..] == sorted;
  }

  // ---- splicing from the back is reading from the front ----

  /** Gaps and new texts from the front, starting at an offset before every range. */
  function Interleave(content: string, sorted: seq<Replacement>, offset: nat): string
    requires AllInText(sorted, |content|) && offset <= |content|
  {
    if sorted == [] then content[offset..]
    else if sorted[0].start < offset then ""
    else content[offset..sorted[0].start] + sorted[0].newText + Interleave(content, sorted[1..], sorted[0].end)
  }

  lemma {:induction false} SpliceIsInterleave(content: string, sorted: seq<Replacement>, offset: nat)
    requires AllInText(sorted, |content|) && NeighboursApart(sorted)
    requires offset <= |content| && (sorted != [] ==> offset <= sorted[0].start)
    ensures Splice(content, sorted) == content[..offset] + Interleave(content, sorted, offset)
    decreases |sorted|
  {
    if sorted == [] {
      assert content == content[..offset] + content[offset..];
    } else {
      var r := sorted[0];
      SpliceIsInterleave(content, sorted[1..], r.end);
      var later := Interleave(content, sorted[1..], r.end);
      SpliceOne(content, r, offset, later);
    }
  }

  lemma {:induction false} SpliceOne(content: string, r: Replacement, offset: nat, later: string)
    requires offset <= r.start <= r.end <= |content|
    ensures SpliceIn(content[..r.end] + later, r) == content[..offset] + (content[offset..r.start] + r.newText + later)
  {
    var text := content[..r.end] + later;
    assert text[..r.start] == content[..r.start] == content[..offset] + content[offset..r.start];
    assert text[r.end..] == later;
  }

  // ---- reading from the front is simultaneous replacement ----

  predicate StartFrom(edits: seq<Replacement>, offset: nat) {
    edits == [] || (offset <= edits[0].start && StartFrom(edits[1..], offset))
  }

  lemma {:induction false} StartFromEarlier(edits: seq<Replacement>, offset: nat, earlier: nat)
    requires StartFrom(edits, offset) && earlier <= offset
    ensures StartFrom(edits, earlier)
  {
    if edits != [] {
      StartFromEarlier(edits[1..], offset, earlier);
    }
  }

  lemma {:induction false} ApartStartFrom(sorted: seq<Replacement>, length: nat)
    requires sorted != [] && AllInText(sorted, length) && NeighboursApart(sorted)
    ensures StartFrom(sorted[1..], sorted[0].end)
  {
    if |sorted| > 1 {
      ApartStartFrom(sorted[1..], length);
      StartFromEarlier(sorted[1..][1..], sorted[1].end, sorted[0].end);
    }
  }

  lemma {:induction false} NoneAtBefore(edits: seq<Replacement>, offset: nat, start: nat, end: nat)
    requires StartFrom(edits, offset) && start < offset
    ensures At(edits, start, end) == []
    ensures !Covered(edits, start)
  {
    if edits != [] {
      NoneAtBefore(edits[1..], offset, start, end);
    }
  }

  lemma {:induction false} PutNothing(edits: seq<Replacement>, start: nat, end: nat, length: nat)
    requires forall e: nat :: end <= e ==> At(edits, start, e) == []
    ensures Put(edits, start, end, length) == ""
    decreases length + 1 - end
  {
    if end <= length {
      PutNothing(edits, start, end + 1, length);
    }
  }

  /** The first edit matters only where it is. */
  lemma {:induction false} PutIgnoresFirst(edits: seq<Replacement>, start: nat, end: nat, length: nat)
    requires edits != [] && (edits[0].start != start || edits[0].end < end)
    ensures Put(edits, start, end, length) == Put(edits[1..], start, end, length)
    decreases length + 1 - end
  {
    if end <= length {
      AtIgnoresFirst(edits, start, end);
      PutIgnoresFirst(edits, start, end + 1, length);
    }
  }

  lemma {:induction false} AtIgnoresFirst(edits: seq<Replacement>, start: nat, end: nat)
    requires edits != [] && (edits[0].start != start || edits[0].end != end)
    ensures At(edits, start, end) == At(edits[1..], start, end)
  {
    var rest := At(edits[1..], start, end);
    assert [] + rest == rest;
  }

  lemma {:induction false} ComposeSame(content: string, put: nat -> string, covered: nat -> bool,
                                       otherPut: nat -> string, otherCovered: nat -> bool, offset: nat)
    requires forall p: nat :: offset <= p ==> put(p) == otherPut(p)
    requires forall p: nat :: offset <= p ==> covered(p) == otherCovered(p)
    ensures Compose(content, put, covered, offset) == Compose(content, otherPut, otherCovered, offset)
    decreases |content| + 1 - offset
  {
    if offset <= |content| {
      ComposeSame(content, put, covered, otherPut, otherCovered, offset + 1);
    }
  }

  lemma {:induction false} ComposeReplaced(content: string, put: nat -> string, covered: nat -> bool, offset: nat, text: string)
    requires offset <= |content| && put(offset) == text && covered(offset)
    ensures Compose(content, put, covered, offset) == text + Compose(content, put, covered, offset + 1)
  {
    assert text + "" == text;
  }

  lemma {:induction false} ComposeCovered(content: string, put: nat -> string, covered: nat -> bool, offset: nat, end: nat)
    requires offset <= end <= |content|
    requires forall p: nat :: offset <= p < end ==> put(p) == "" && covered(p)
    ensures Compose(content, put, covered, offset) == Compose(content, put, covered, end)
    decreases end - offset
  {
    if offset < end {
      ComposeCovered(content, put, covered, offset + 1, end);
      ComposeReplaced(content, put, covered, offset, "");
    }
  }

  lemma {:induction false} ComposeRest(content: string, put: nat -> string, covered: nat -> bool, offset: nat)
    requires offset <= |content|
    requires forall p: nat :: offset <= p ==> put(p) == "" && !covered(p)
    ensures Compose(content, put, covered, offset) == content[offset..]
    decreases |content| - offset
  {
    if offset < |content| {
      ComposeRest(content, put, covered, offset + 1);
      assert content[offset..] == "" + [content[offset]] + content[offset + 1..];
    }
  }

  lemma {:induction false} PastFirst(content: string, edits: seq<Replacement>, offset: nat)
    requires edits != [] && edits[0].start < offset && edits[0].end <= offset
    ensures Simultaneous(content, edits, offset) == Simultaneous(content, edits[1..], offset)
  {
    var length := |content|;
    forall p: nat | offset <= p
      ensures PutAt(edits, length)(p) == PutAt(edits[1..], length)(p) && CoveredAt(edits)(p) == CoveredAt(edits[1..])(p)
    {
      PutIgnoresFirst(edits, p, p, length);
    }
    ComposeSame(content, PutAt(edits, length), CoveredAt(edits), PutAt(edits[1..], length), CoveredAt(edits[1..]), offset);
  }

  lemma {:induction false} NothingLeft(content: string, offset: nat)
    requires offset <= |content|
    ensures Simultaneous(content, [], offset) == content[offset..]
  {
    forall p: nat ensures PutAt([], |content|)(p) == "" && !CoveredAt([])(p) {
      PutNothing([], p, p, |content|);
    }
    ComposeRest(content, PutAt([], |content|), CoveredAt([]), offset);
  }

  lemma {:induction false} GapIsKept(content: string, edits: seq<Replacement>, offset: nat)
    requires offset < |content| && StartFrom(edits, offset + 1)
    ensures Simultaneous(content, edits, offset) == [content[offset]] + Simultaneous(content, edits, offset + 1)
  {
    forall e: nat ensures At(edits, offset, e) == [] && !Covered(edits, offset) {
      NoneAtBefore(edits, offset + 1, offset, e);
    }
    PutNothing(edits, offset, offset, |content|);
    assert PutAt(edits, |content|)(offset) == "" && !CoveredAt(edits)(offset);
    var later := Simultaneous(content, edits, offset + 1);
    assert "" + [content[offset]] + later == [content[offset]] + later;
  }

  lemma {:induction false} PutFirst(edits: seq<Replacement>, offset: nat, length: nat)
    requires edits != [] && edits[0].start == edits[0].end == offset <= length
    ensures Put(edits, offset, offset, length) == edits[0].newText + Put(edits[1..], offset, offset, length)
  {
    TextsAtFirst(edits, offset);
    PutIgnoresFirst(edits, offset, offset + 1, length);
    JoinThree(edits[0].newText, Texts(At(edits[1..], offset, offset)), Put(edits[1..], offset, offset + 1, length));
  }

  lemma {:induction false} JoinThree(first: string, second: string, third: string)
    ensures (first + second) + third == first + (second + third)
  {
  }

  lemma {:induction false} TextsAtFirst(edits: seq<Replacement>, offset: nat)
    requires edits != [] && edits[0].start == edits[0].end == offset
    ensures Texts(At(edits, offset, offset)) == edits[0].newText + Texts(At(edits[1..], offset, offset))
  {
    var here := At(edits[1..], offset, offset);
    assert At(edits, offset, offset) == [edits[0]] + here && ([edits[0]] + here)[1..] == here;
  }

  lemma {:induction false} FirstIsPut(edits: seq<Replacement>, offset: nat, length: nat)
    requires edits != [] && edits[0].start == edits[0].end == offset <= length
    ensures PutAt(edits, length)(offset) == edits[0].newText + PutAt(edits[1..], length)(offset)
    ensures CoveredAt(edits)(offset) == CoveredAt(edits[1..])(offset)
  {
    PutFirst(edits, offset, length);
  }

  lemma {:induction false} FirstInserts(content: string, edits: seq<Replacement>, offset: nat)
    requires edits != [] && edits[0].start == edits[0].end == offset <= |content|
    ensures Simultaneous(content, edits, offset) == edits[0].newText + Simultaneous(content, edits[1..], offset)
  {
    assert Simultaneous(content, edits, offset + 1) == Simultaneous(content, edits[1..], offset + 1) by {
      PastFirst(content, edits, offset + 1);
    }
    FirstIsPut(edits, offset, |content|);
    ComposePrefixed(content, edits[0].newText, PutAt(edits, |content|), CoveredAt(edits),
                    PutAt(edits[1..], |content|), CoveredAt(edits[1..]), offset);
  }

  lemma {:induction false} ComposePrefixed(content: string, prefix: string, put: nat -> string, covered: nat -> bool,
                                           otherPut: nat -> string, otherCovered: nat -> bool, offset: nat)
    requires offset <= |content|
    requires put(offset) == prefix + otherPut(offset) && covered(offset) == otherCovered(offset)
    requires Compose(content, put, covered, offset + 1) == Compose(content, otherPut, otherCovered, offset + 1)
    ensures Compose(content, put, covered, offset) == prefix + Compose(content, otherPut, otherCovered, offset)
  {
    var kept := if offset < |content| && !covered(offset) then [content[offset]] else "";
    var later := Compose(content, put, covered, offset + 1);
    assert (prefix + otherPut(offset)) + kept + later == prefix + (otherPut(offset) + kept + later);
  }

  /** Inside the first range nothing starts and nothing is kept. */
  lemma {:induction false} InsideFirst(content: string, edits: seq<Replacement>, offset: nat)
    requires edits != [] && edits[0].start < offset <= edits[0].end <= |content| && StartFrom(edits[1..], edits[0].end)
    ensures Simultaneous(content, edits, offset) == Simultaneous(content, edits[1..], edits[0].end)
  {
    var r, length := edits[0], |content|;
    forall p: nat | offset <= p < r.end ensures PutAt(edits, length)(p) == "" && CoveredAt(edits)(p) {
      NothingStartsInside(edits, p, length);
    }
    ComposeCovered(content, PutAt(edits, length), CoveredAt(edits), offset, r.end);
    PastFirst(content, edits, r.end);
  }

  lemma {:induction false} NothingStartsInside(edits: seq<Replacement>, offset: nat, length: nat)
    requires edits != [] && edits[0].start < offset < edits[0].end && StartFrom(edits[1..], edits[0].end)
    ensures Put(edits, offset, offset, length) == "" && Covered(edits, offset)
  {
    forall e: nat ensures At(edits, offset, e) == [] {
      NoneAtBefore(edits[1..], edits[0].end, offset, e);
    }
    PutNothing(edits, offset, offset, length);
  }

  lemma {:induction false} PutRange(edits: seq<Replacement>, end: nat, length: nat)
    requires edits != [] && edits[0].start <= end <= edits[0].end <= length && edits[0].start < edits[0].end
    requires StartFrom(edits[1..], edits[0].end)
    ensures Put(edits, edits[0].start, end, length) == edits[0].newText
    decreases edits[0].end - end
  {
    var r := edits[0];
    forall e: nat ensures At(edits, r.start, e) == if e == r.end then [r] else [] {
      NoneAtBefore(edits[1..], r.end, r.start, e);
    }
    if end < r.end {
      PutRange(edits, end + 1, length);
    } else {
      assert [r][1..] == [] && Texts([r]) == r.newText + Texts([]);
      PutNothing(edits, r.start, end + 1, length);
    }
  }

  lemma {:induction false} FirstReplaces(content: string, edits: seq<Replacement>)
    requires edits != [] && edits[0].start < edits[0].end <= |content| && StartFrom(edits[1..], edits[0].end)
    ensures Simultaneous(content, edits, edits[0].start)
         == edits[0].newText + Simultaneous(content, edits[1..], edits[0].end)
  {
    var start, text := edits[0].start, edits[0].newText;
    var later := Simultaneous(content, edits[1..], edits[0].end);
    FirstIsReplaced(edits, |content|);
    assert Simultaneous(content, edits, start + 1) == later by {
      InsideFirst(content, edits, start + 1);
    }
    assert Simultaneous(content, edits, start) == text + Simultaneous(content, edits, start + 1) by {
      ComposeReplaced(content, PutAt(edits, |content|), CoveredAt(edits), start, text);
    }
  }

  lemma {:induction false} FirstIsReplaced(edits: seq<Replacement>, length: nat)
    requires edits != [] && edits[0].start < edits[0].end <= length && StartFrom(edits[1..], edits[0].end)
    ensures PutAt(edits, length)(edits[0].start) == edits[0].newText && CoveredAt(edits)(edits[0].start)
  {
    PutRange(edits, edits[0].start, length);
  }

  lemma {:induction false} InterleaveIsSimultaneous(content: string, sorted: seq<Replacement>, offset: nat)
    requires AllInText(sorted, |content|) && NeighboursApart(sorted) && StartFrom(sorted, offset) && offset <= |content|
    ensures Interleave(content, sorted, offset) == Simultaneous(content, sorted, offset)
    decreases |sorted|, |content| - offset
  {
    if sorted == [] {
      NothingLeft(content, offset);
    } else {
      ApartStartFrom(sorted, |content|);
      if offset < sorted[0].start {
        StartFromEarlier(sorted[1..], sorted[0].end, offset + 1);
        InterleaveIsSimultaneous(content, sorted, offset + 1);
        InterleaveGap(content, sorted, offset);
        GapIsKept(content, sorted, offset);
      } else {
        InterleaveIsSimultaneous(content, sorted[1..], sorted[0].end);
        InterleaveFirst(content, sorted);
        FirstIsApplied(content, sorted);
      }
    }
  }

  lemma {:induction false} FirstIsApplied(content: string, edits: seq<Replacement>)
    requires edits != [] && InText(edits[0], |content|) && StartFrom(edits[1..], edits[0].end)
    ensures Simultaneous(content, edits, edits[0].start)
         == edits[0].newText + Simultaneous(content, edits[1..], edits[0].end)
  {
    if edits[0].start == edits[0].end {
      FirstInserts(content, edits, edits[0].start);
    } else {
      FirstReplaces(content, edits);
    }
  }

  lemma {:induction false} InterleaveGap(content: string, sorted: seq<Replacement>, offset: nat)
    requires sorted != [] && AllInText(sorted, |content|) && offset < sorted[0].start
    ensures Interleave(content, sorted, offset) == [content[offset]] + Interleave(content, sorted, offset + 1)
  {
    var r := sorted[0];
    var gap := content[offset + 1..r.start];
    assert content[offset..r.start] == [content[offset]] + gap;
    AppendThree([content[offset]], gap, r.newText, Interleave(content, sorted[1..], r.end));
  }

  lemma {:induction false} AppendThree(a: string, b: string, c: string, d: string)
    ensures (a + b) + c + d == a + (b + c + d)
  {
  }

  lemma {:induction false} InterleaveFirst(content: string, sorted: seq<Replacement>)
    requires sorted != [] && AllInText(sorted, |content|)
    ensures Interleave(content, sorted, sorted[0].start)
         == sorted[0].newText + Interleave(content, sorted[1..], sorted[0].end)
  {
    assert content[sorted[0].start..sorted[0].start] == "";
  }

  // ---- sorting ----

  /** The two lists hold the same edits for every range, in the same order. */
  ghost predicate SameAt(a: seq<Replacement>, b: seq<Replacement>) {
    forall start: nat, end: nat :: At(a, start, end) == At(b, start, end)
  }

  lemma {:induction false} InsertIsStable(r: Replacement, sorted: seq<Replacement>, start: nat, end: nat)
    ensures At(Insert(r, sorted), start, end) == At([r] + sorted, start, end)
  {
    assert ([r] + sorted)[1..] == sorted;
    if sorted != [] && !NotAfter(r, sorted[0]) {
      InsertIsStable(r, sorted[1..], start, end);
      assert ([r] + sorted[1..])[1..] == sorted[1..];
    }
  }

  lemma {:induction false} SortIsStable(edits: seq<Replacement>, start: nat, end: nat)
    ensures At(Sort(edits), start, end) == At(edits, start, end)
  {
    if edits != [] {
      SortIsStable(edits[1..], start, end);
      InsertIsStable(edits[0], Sort(edits[1..]), start, end);
      assert ([edits[0]] + Sort(edits[1..]))[1..] == Sort(edits[1..]);
    }
  }

  lemma {:induction false} PutSame(a: seq<Replacement>, b: seq<Replacement>, start: nat, end: nat, length: nat)
    requires SameAt(a, b)
    ensures Put(a, start, end, length) == Put(b, start, end, length)
    decreases length + 1 - end
  {
    if end <= length {
      PutSame(a, b, start, end + 1, length);
    }
  }

  lemma {:induction false} CoveredBySomeRange(edits: seq<Replacement>, offset: nat) returns (start: nat, end: nat)
    requires Covered(edits, offset)
    ensures start <= offset < end && At(edits, start, end) != []
  {
    if edits[0].start <= offset < edits[0].end {
      start, end := edits[0].start, edits[0].end;
    } else {
      start, end := CoveredBySomeRange(edits[1..], offset);
    }
  }

  lemma {:induction false} RangeCovers(edits: seq<Replacement>, offset: nat, start: nat, end: nat)
    requires start <= offset < end && At(edits, start, end) != []
    ensures Covered(edits, offset)
  {
    if !(edits[0].start == start && edits[0].end == end) {
      RangeCovers(edits[1..], offset, start, end);
    }
  }

  lemma {:induction false} CoveredSame(a: seq<Replacement>, b: seq<Replacement>, offset: nat)
    requires SameAt(a, b) && Covered(a, offset)
    ensures Covered(b, offset)
  {
    var start, end := CoveredBySomeRange(a, offset);
    assert At(a, start, end) == At(b, start, end);
    RangeCovers(b, offset, start, end);
  }

  lemma {:induction false} SameAtSameResult(content: string, a: seq<Replacement>, b: seq<Replacement>, offset: nat)
    requires SameAt(a, b)
    ensures Simultaneous(content, a, offset) == Simultaneous(content, b, offset)
  {
    var length := |content|;
    forall p: nat ensures PutAt(a, length)(p) == PutAt(b, length)(p) && CoveredAt(a)(p) == CoveredAt(b)(p) {
      PutSame(a, b, p, p, length);
      if Covered(a, p) {
        CoveredSame(a, b, p);
      }
      if Covered(b, p) {
        CoveredSame(b, a, p);
      }
    }
    ComposeSame(content, PutAt(a, length), CoveredAt(a), PutAt(b, length), CoveredAt(b), offset);
  }

  lemma {:induction false} InsertKeepsRanges(r: Replacement, sorted: seq<Replacement>, length: nat)
    requires InText(r, length) && AllInText(sorted, length)
    ensures AllInText(Insert(r, sorted), length)
  {
    assert ([r] + sorted)[1..] == sorted;
    if sorted != [] && !NotAfter(r, sorted[0]) {
      InsertKeepsRanges(r, sorted[1..], length);
    }
  }

  lemma {:induction false} SortKeepsRanges(edits: seq<Replacement>, length: nat)
    requires AllInText(edits, length)
    ensures AllInText(Sort(edits), length)
  {
    if edits != [] {
      SortKeepsRanges(edits[1..], length);
      InsertKeepsRanges(edits[0], Sort(edits[1..]), length);
    }
  }

  /**
   Sorting, comparing neighbours and splicing from the back is simultaneous replacement on the original
   text: the gaps kept, each range replaced once, texts inserted at one point in list order.
   */
  lemma {:induction false} SplicingIsSimultaneous(content: string, edits: seq<Replacement>)
    requires AllInText(edits, |content|) && NeighboursApart(Sort(edits))
    ensures Splice(content, Sort(edits)) == Simultaneous(content, edits, 0)
  {
    var sorted := Sort(edits);
    SortKeepsRanges(edits, |content|);
    SpliceIsInterleave(content, sorted, 0);
    assert content[..0] == "";
    AllStartFromZero(sorted);
    InterleaveIsSimultaneous(content, sorted, 0);
    forall start: nat, end: nat ensures At(sorted, start, end) == At(edits, start, end) {
      SortIsStable(edits, start, end);
    }
    SameAtSameResult(content, sorted, edits, 0);
  }

  lemma {:induction false} AllStartFromZero(edits: seq<Replacement>)
    ensures StartFrom(edits, 0)
  {
    if edits != [] {
      AllStartFromZero(edits[1..]);
    }
  }

  // ---- checking neighbours is checking all pairs ----

  predicate Sorted(edits: seq<Replacement>) {
    |edits| < 2 || (NotAfter(edits[0], edits[1]) && Sorted(edits[1..]))
  }

  lemma {:induction false} InsertKeepsOrder(r: Replacement, sorted: seq<Replacement>)
    requires Sorted(sorted)
    ensures Sorted(Insert(r, sorted))
  {
    assert ([r] + sorted)[1..] == sorted;
    if sorted != [] && !NotAfter(r, sorted[0]) {
      InsertKeepsOrder(r, sorted[1..]);
      var more := Insert(r, sorted[1..]);
      assert ([sorted[0]] + more)[1..] == more;
    }
  }

  lemma {:induction false} SortSorts(edits: seq<Replacement>)
    ensures Sorted(Sort(edits))
  {
    if edits != [] {
      SortSorts(edits[1..]);
      InsertKeepsOrder(edits[0], Sort(edits[1..]));
    }
  }

  lemma {:induction false} InsertKeepsOverlaps(r: Replacement, sorted: seq<Replacement>, other: Replacement)
    ensures ClearOf(other, Insert(r, sorted)) <==> !Overlap(other, r) && ClearOf(other, sorted)
    ensures NoneOverlap(Insert(r, sorted)) <==> ClearOf(r, sorted) && NoneOverlap(sorted)
  {
    assert ([r] + sorted)[1..] == sorted;
    if sorted != [] && !NotAfter(r, sorted[0]) {
      InsertKeepsOverlaps(r, sorted[1..], other);
      InsertKeepsOverlaps(r, sorted[1..], sorted[0]);
      var more := Insert(r, sorted[1..]);
      assert ([sorted[0]] + more)[1..] == more;
    }
  }

  lemma {:induction false} SortKeepsOverlaps(edits: seq<Replacement>, other: Replacement)
    ensures ClearOf(other, Sort(edits)) <==> ClearOf(other, edits)
    ensures NoneOverlap(Sort(edits)) <==> NoneOverlap(edits)
  {
    if edits != [] {
      SortKeepsOverlaps(edits[1..], other);
      SortKeepsOverlaps(edits[1..], edits[0]);
      InsertKeepsOverlaps(edits[0], Sort(edits[1..]), other);
    }
  }

  lemma {:induction false} ClearFromLater(r: Replacement, later: seq<Replacement>)
    requires StartFrom(later, r.end)
    ensures ClearOf(r, later)
  {
    if later != [] {
      ClearFromLater(r, later[1..]);
    }
  }

  lemma {:induction false} ApartIffNoneOverlap(sorted: seq<Replacement>, length: nat)
    requires Sorted(sorted) && AllInText(sorted, length)
    ensures NeighboursApart(sorted) <==> NoneOverlap(sorted)
  {
    if |sorted| > 1 {
      ApartIffNoneOverlap(sorted[1..], length);
      if NeighboursApart(sorted) {
        ApartStartFrom(sorted, length);
        ClearFromLater(sorted[0], sorted[1..]);
      }
    } else if |sorted| == 1 {
      assert sorted[1..] == [];
    }
  }

  /** Comparing neighbours of the sorted list refuses exactly the lists in which some two edits overlap. */
  lemma {:induction false} SortedApartIffNoneOverlap(edits: seq<Replacement>, length: nat)
    requires AllInText(edits, length)
    ensures NeighboursApart(Sort(edits)) <==> NoneOverlap(edits)
  {
    SortSorts(edits);
    SortKeepsRanges(edits, length);
    ApartIffNoneOverlap(Sort(edits), length);
    SortKeepsOverlaps(edits, Replacement(0, 0, ""));
  }

  lemma {:induction false} OffsetsAreInText(content: string, edits: seq<TextEdit>)
    ensures Offsets(content, edits).Ok? ==> AllInText(Offsets(content, edits).value, |content|)
  {
    if edits != [] {
      var start, end := PositionOffset(content, edits[0].start), PositionOffset(content, edits[0].end);
      if start.Ok? && end.Ok? {
        PositionsInvert(content, edits[0].start, start.value);
        PositionsInvert(content, edits[0].end, end.value);
        OffsetsAreInText(content, edits[1..]);
        var more := Offsets(content, edits[1..]);
        if more.Ok? {
          var one := Replacement(start.value, end.value, edits[0].newText);
          assert ([one] + more.value)[1..] == more.value;
        }
      }
    }
  }

  /** Resolving finds the ranges the edits name, which are the only ones, or what is wrong with the first that names none. */
  lemma {:induction false} OffsetsAreTheRanges(content: string, edits: seq<TextEdit>)
    ensures match Offsets(content, edits)
            case Ok(found) =>
              ResolvesAll(content, edits, found)
              && forall replacements | ResolvesAll(content, edits, replacements) :: replacements == found
            case Err(e) => !CanResolve(content, edits) && IsFirstFault(content, edits, e)
  {
    if Offsets(content, edits).Ok? {
      RangesAreFound(content, edits);
    } else {
      var i, before := FaultIsFound(content, edits);
      assert ResolvesAll(content, edits[..i], before);
      forall replacements ensures !ResolvesAll(content, edits, replacements) {
        if |replacements| == |edits| {
          FaultNamesNoRange(content, edits[i], Offsets(content, edits).error, replacements[i]);
        }
      }
    }
  }

  lemma {:induction false} FaultNamesNoRange(content: string, edit: TextEdit, error: EditError, r: Replacement)
    requires IsFault(content, edit, error)
    ensures !Resolves(content, edit, r)
  {
  }

  lemma {:induction false} RangesAreFound(content: string, edits: seq<TextEdit>)
    requires Offsets(content, edits).Ok?
    ensures ResolvesAll(content, edits, Offsets(content, edits).value)
  {
    if edits != [] {
      var found := Offsets(content, edits).value;
      RangesAreFound(content, edits[1..]);
      assert found[1..] == Offsets(content, edits[1..]).value && Resolves(content, edits[0], found[0]);
      assert forall i :: 0 < i < |edits| ==> edits[i] == edits[1..][i - 1] && found[i] == found[1..][i - 1];
    }
  }

  lemma {:induction false} FaultIsFound(content: string, edits: seq<TextEdit>) returns (i: nat, before: seq<Replacement>)
    requires Offsets(content, edits).Err?
    ensures i < |edits| && IsFault(content, edits[i], Offsets(content, edits).error)
    ensures ResolvesAll(content, edits[..i], before)
  {
    var start, end := PositionOffset(content, edits[0].start), PositionOffset(content, edits[0].end);
    if start.Ok? && end.Ok? && start.value <= end.value {
      var k, later := FaultIsFound(content, edits[1..]);
      i, before := k + 1, [Replacement(start.value, end.value, edits[0].newText)] + later;
      forall j | 0 <= j < i ensures Resolves(content, edits[..i][j], before[j]) {
        assert j > 0 ==> edits[..i][j] == edits[1..][..k][j - 1] && before[j] == later[j - 1];
      }
    } else {
      i, before := 0, [];
    }
  }

  // ---- what follows about the result ----

  function Removed(edits: seq<Replacement>): int {
    if edits == [] then 0 else edits[0].end - edits[0].start + Removed(edits[1..])
  }

  function Added(edits: seq<Replacement>): nat {
    if edits == [] then 0 else |edits[0].newText| + Added(edits[1..])
  }

  lemma {:induction false} InterleaveLength(content: string, sorted: seq<Replacement>, offset: nat)
    requires AllInText(sorted, |content|) && NeighboursApart(sorted) && StartFrom(sorted, offset) && offset <= |content|
    ensures |Interleave(content, sorted, offset)| == |content| - offset - Removed(sorted) + Added(sorted)
    decreases |sorted|
  {
    if sorted != [] {
      ApartStartFrom(sorted, |content|);
      InterleaveLength(content, sorted[1..], sorted[0].end);
    }
  }

  lemma {:induction false} InsertKeepsSums(r: Replacement, sorted: seq<Replacement>)
    ensures Removed(Insert(r, sorted)) == r.end - r.start + Removed(sorted)
    ensures Added(Insert(r, sorted)) == |r.newText| + Added(sorted)
  {
    assert ([r] + sorted)[1..] == sorted;
    if sorted != [] && !NotAfter(r, sorted[0]) {
      InsertKeepsSums(r, sorted[1..]);
    }
  }

  lemma {:induction false} SortKeepsSums(edits: seq<Replacement>)
    ensures Removed(Sort(edits)) == Removed(edits) && Added(Sort(edits)) == Added(edits)
  {
    if edits != [] {
      SortKeepsSums(edits[1..]);
      InsertKeepsSums(edits[0], Sort(edits[1..]));
    }
  }

  /** The result is as long as the text less what is removed plus what is put in. */
  lemma {:induction false} ResultLength(content: string, edits: seq<Replacement>)
    requires AllInText(edits, |content|) && NoneOverlap(edits)
    ensures |Simultaneous(content, edits, 0)| == |content| - Removed(edits) + Added(edits)
  {
    var sorted := Sort(edits);
    SortedApartIffNoneOverlap(edits, |content|);
    SortKeepsRanges(edits, |content|);
    AllStartFromZero(sorted);
    SplicingIsSimultaneous(content, edits);
    SpliceIsInterleave(content, sorted, 0);
    InterleaveLength(content, sorted, 0);
    SortKeepsSums(edits);
  }

  predicate SameRange(a: Replacement, b: Replacement) {
    a.start == b.start && a.end == b.end
  }

  lemma {:induction false} AtCounts(edits: seq<Replacement>, start: nat, end: nat, r: Replacement)
    ensures multiset(At(edits, start, end))[r]
         == if r.start == start && r.end == end then multiset(edits)[r] else 0
  {
    if edits != [] {
      AtCounts(edits[1..], start, end, r);
      assert edits == [edits[0]] + edits[1..];
    }
  }

  lemma {:induction false} AtMostOneAt(edits: seq<Replacement>, start: nat, end: nat)
    requires forall i, j :: 0 <= i < j < |edits| ==> !SameRange(edits[i], edits[j])
    ensures |At(edits, start, end)| <= 1
    ensures At(edits, start, end) != [] ==> exists i :: 0 <= i < |edits| && edits[i].start == start && edits[i].end == end
  {
    if edits != [] {
      var rest := edits[1..];
      AtMostOneAt(rest, start, end);
      if At(rest, start, end) != [] {
        var i :| 0 <= i < |rest| && rest[i].start == start && rest[i].end == end;
        assert edits[i + 1] == rest[i];
        assert !SameRange(edits[0], edits[i + 1]);
      }
    }
  }

  lemma {:induction false} OneAtEither(a: seq<Replacement>, b: seq<Replacement>)
    requires |a| <= 1 && multiset(a) == multiset(b)
    ensures a == b
  {
    assert |a| == |multiset(a)| && |b| == |multiset(b)|;
    if a != [] {
      assert a == [a[0]] && b == [b[0]];
      assert b[0] in multiset(a);
    }
  }

  /** When no two ranges are the same, the order of the list does not matter. */
  lemma {:induction false} OrderDoesNotMatter(content: string, edits: seq<Replacement>, reordered: seq<Replacement>)
    requires multiset(edits) == multiset(reordered)
    requires forall i, j :: 0 <= i < j < |edits| ==> !SameRange(edits[i], edits[j])
    ensures Simultaneous(content, edits, 0) == Simultaneous(content, reordered, 0)
  {
    forall start: nat, end: nat ensures At(edits, start, end) == At(reordered, start, end) {
      AtMostOneAt(edits, start, end);
      forall r ensures multiset(At(edits, start, end))[r] == multiset(At(reordered, start, end))[r] {
        AtCounts(edits, start, end, r);
        AtCounts(reordered, start, end, r);
      }
      OneAtEither(At(edits, start, end), At(reordered, start, end));
    }
    SameAtSameResult(content, edits, reordered, 0);
  }
}

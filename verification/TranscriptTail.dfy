/**
 Re-indexing a transcript that was appended to: keep every document but the last, and chunk again from
 where the last one starts.  When that equals chunking the whole file, and exactly when it does not.
 */
module TranscriptTail {
  import opened Bytes
  import opened Wrappers
  import opened TranscriptChunks

  /** The row with the greatest line number, which is where the rescan starts. */
  method FindTail(documents: seq<Document>) returns (tail: Document)
    requires documents != []
    ensures tail in documents
    ensures forall d | d in documents :: d.lineNo <= tail.lineNo
  {
    tail := documents[0];
    for k := 1 to |documents|
      invariant tail in documents[..k]
      invariant forall d | d in documents[..k] :: d.lineNo <= tail.lineNo
    {
      if tail.lineNo < documents[k].lineNo {
        tail := documents[k];
      }
    }
    assert documents[..|documents|] == documents;
  }

  /** The rows a rescan from the given line leaves in place. */
  function Before(documents: seq<Document>, lineNo: nat): seq<Document> {
    if documents == [] then []
    else (if documents[0].lineNo < lineNo then [documents[0]] else []) + Before(documents[1..], lineNo)
  }

  /** Rows after the rescan of a transcript whose last document starts at the given place. */
  function Resumed(extract: Extract, kept: seq<Document>, content: seq<Byte>, tail: Document): seq<Document>
    requires tail.byteStart <= |content|
  {
    kept + Chunks(extract, content, tail.byteStart, tail.lineNo)
  }

  // ---- documents are in line order ----

  ghost predicate Ordered(documents: seq<Document>) {
    forall i, j :: 0 <= i < j < |documents| ==> documents[i].lineNo < documents[j].lineNo
  }

  ghost predicate AllBelow(documents: seq<Document>, number: nat) {
    forall d | d in documents :: d.lineNo < number
  }

  lemma {:induction false} ChunksAreOrdered(extract: Extract, content: seq<Byte>, position: nat, number: nat, scan: Scan)
    requires position <= |content|
    requires Ordered(scan.Closed()) && AllBelow(scan.Closed(), number)
    ensures Ordered(ReadAll(extract, content, position, number, scan).Closed())
    decreases |content| - position
  {
    if position < |content| {
      var end := LineEnd(content, position);
      var payload := extract(content[position..end]);
      StepKeepsOrder(scan, number, position, end, payload);
      ChunksAreOrdered(extract, content, end, number + 1, scan.Step(number, position, end, payload));
    }
  }

  lemma {:induction false} StepKeepsOrder(scan: Scan, number: nat, start: nat, end: nat, payload: Option<Payload>)
    requires Ordered(scan.Closed()) && AllBelow(scan.Closed(), number)
    ensures var closed := scan.Step(number, start, end, payload).Closed();
            Ordered(closed) && AllBelow(closed, number + 1)
  {
    var closed := scan.Step(number, start, end, payload).Closed();
    if payload.Some? {
      var last := closed[|closed| - 1];
      if scan.chunk == [] || scan.scope != payload.value.scope {
        assert closed == scan.Closed() + [last];
        NextInOrder(scan.Closed(), last, number);
      } else {
        assert closed == scan.documents + [last];
        assert scan.Closed()[|scan.documents|].lineNo == last.lineNo;
        SameLineInOrder(scan.documents, scan.ChunkDocument(), last, number);
      }
    }
  }

  lemma {:induction false} NextInOrder(documents: seq<Document>, last: Document, number: nat)
    requires Ordered(documents) && AllBelow(documents, number) && last.lineNo == number
    ensures Ordered(documents + [last]) && AllBelow(documents + [last], number + 1)
  {
    forall i | 0 <= i < |documents| ensures documents[i].lineNo < number {
      assert documents[i] in documents;
    }
  }

  lemma {:induction false} SameLineInOrder(documents: seq<Document>, former: Document, last: Document, number: nat)
    requires Ordered(documents + [former]) && AllBelow(documents + [former], number) && last.lineNo == former.lineNo
    ensures Ordered(documents + [last]) && AllBelow(documents + [last], number + 1)
  {
    assert former in documents + [former];
    forall i | 0 <= i < |documents| ensures documents[i].lineNo < former.lineNo {
      assert (documents + [former])[i] == documents[i] && (documents + [former])[|documents|] == former;
    }
    forall i, j | 0 <= i < j < |documents| ensures documents[i].lineNo < documents[j].lineNo {
      assert (documents + [former])[i] == documents[i] && (documents + [former])[j] == documents[j];
    }
  }

  ghost predicate NoneBelow(documents: seq<Document>, number: nat) {
    forall d | d in documents :: number <= d.lineNo
  }

  /** A scan started at a line finds no document before it. */
  lemma {:induction false} ChunksStartThere(extract: Extract, content: seq<Byte>, position: nat, number: nat, scan: Scan,
                                            first: nat)
    requires position <= |content| && first <= number && NoneBelow(scan.Closed(), first)
    ensures NoneBelow(ReadAll(extract, content, position, number, scan).Closed(), first)
    decreases |content| - position
  {
    if position < |content| {
      var end := LineEnd(content, position);
      var payload := extract(content[position..end]);
      StepStartsThere(scan, number, position, end, payload, first);
      ChunksStartThere(extract, content, end, number + 1, scan.Step(number, position, end, payload), first);
    }
  }

  lemma {:induction false} StepStartsThere(scan: Scan, number: nat, start: nat, end: nat, payload: Option<Payload>, first: nat)
    requires first <= number && NoneBelow(scan.Closed(), first)
    ensures NoneBelow(scan.Step(number, start, end, payload).Closed(), first)
  {
    var closed := scan.Step(number, start, end, payload).Closed();
    if payload.Some? {
      var last := closed[|closed| - 1];
      if scan.chunk == [] || scan.scope != payload.value.scope {
        assert closed == scan.Closed() + [last];
      } else {
        assert closed == scan.documents + [last];
        assert scan.Closed()[|scan.documents|].lineNo == last.lineNo;
        assert scan.Closed()[|scan.documents|] in scan.Closed();
        assert forall d | d in scan.documents :: d in scan.Closed();
      }
    }
  }

  lemma {:induction false} BeforeKeepsOrder(documents: seq<Document>, lineNo: nat)
    requires Ordered(documents)
    ensures var before := Before(documents, lineNo);
            && Ordered(before) && AllBelow(before, lineNo) && forall d | d in before :: d in documents
    decreases |documents|
  {
    if documents != [] {
      var rest := Before(documents[1..], lineNo);
      BeforeKeepsOrder(documents[1..], lineNo);
      FirstInOrder(documents, rest);
      assert Before(documents, lineNo) == (if documents[0].lineNo < lineNo then [documents[0]] + rest else rest) by {
        assert [] + rest == rest;
      }
    }
  }

  lemma {:induction false} FirstInOrder(documents: seq<Document>, rest: seq<Document>)
    requires documents != [] && Ordered(documents) && Ordered(rest) && forall d | d in rest :: d in documents[1..]
    ensures Ordered([documents[0]] + rest)
    ensures forall d | d in [documents[0]] + rest :: d in documents
  {
    var all := [documents[0]] + rest;
    forall i, j | 0 <= i < j < |all| ensures all[i].lineNo < all[j].lineNo {
      assert all[j] == rest[j - 1] && rest[j - 1] in documents[1..];
    }
  }

  lemma {:induction false} BeforeIsPrefix(documents: seq<Document>, k: nat)
    requires Ordered(documents) && k < |documents|
    ensures Before(documents, documents[k].lineNo) == documents[..k]
    decreases |documents|
  {
    var d := documents[k];
    if k == 0 {
      NoneBefore(documents, d.lineNo);
    } else {
      BeforeIsPrefix(documents[1..], k - 1);
      assert documents[..k] == [documents[0]] + documents[1..][..k - 1];
    }
  }

  lemma {:induction false} NoneBefore(documents: seq<Document>, lineNo: nat)
    requires forall d | d in documents :: lineNo <= d.lineNo
    ensures Before(documents, lineNo) == []
  {
    if documents != [] {
      assert documents[0] in documents;
      NoneBefore(documents[1..], lineNo);
    }
  }

  // ---- where a document starts ----

  /** The scan of the whole file, stopped where the k-th document starts. */
  lemma {:induction false} ScanAtDocument(extract: Extract, content: seq<Byte>, position: nat, number: nat, scan: Scan, k: nat)
    requires position <= |content|
    requires |scan.Closed()| <= k < |ReadAll(extract, content, position, number, scan).Closed()|
    ensures var closed := ReadAll(extract, content, position, number, scan).Closed();
            var start := closed[k].byteStart;
            position <= start < |content| &&
            var (n, s) := ReadTo(extract, content, position, number, scan, start);
            && n == closed[k].lineNo
            && s.Closed() == closed[..k]
            && IsLineStart(content, position, start)
            && var line := extract(content[start..LineEnd(content, start)]);
               line.Some? && (s.chunk == [] || s.scope != line.value.scope)
    decreases |content| - position
  {
    assert position < |content|;
    var end := LineEnd(content, position);
    var payload := extract(content[position..end]);
    var next := scan.Step(number, position, end, payload);
    var closed := ReadAll(extract, content, position, number, scan).Closed();
    assert closed == ReadAll(extract, content, end, number + 1, next).Closed();
    if |next.Closed()| <= k {
      ScanAtDocument(extract, content, end, number + 1, next, k);
    } else {
      OneLineStartsTheDocument(scan, number, position, end, payload);
      SettledStays(extract, content, end, number + 1, next);
      assert next.documents == closed[..k];
    }
  }

  lemma {:induction false} OneLineStartsTheDocument(scan: Scan, number: nat, start: nat, end: nat, payload: Option<Payload>)
    requires |scan.Closed()| < |scan.Step(number, start, end, payload).Closed()|
    ensures payload.Some? && (scan.chunk == [] || scan.scope != payload.value.scope)
    ensures var next := scan.Step(number, start, end, payload);
            && next.documents == scan.Closed() && next.scope == payload.value.scope
            && next.startByte == start
            && |next.chunk| == 1 && next.chunk[0].number == number
  {
  }

  /** Reading line by line from one line start reaches the other. */
  ghost predicate IsLineStart(content: seq<Byte>, position: nat, start: nat)
    requires position <= |content|
    decreases |content| - position
  {
    position == start || (position < |content| && position < start && IsLineStart(content, LineEnd(content, position), start))
  }

  /** A scan may be stopped at a line start and picked up again. */
  lemma {:induction false} StopAndGoOn(extract: Extract, content: seq<Byte>, position: nat, number: nat, scan: Scan, start: nat)
    requires position <= |content| && start <= |content| && IsLineStart(content, position, start)
    ensures var (n, s) := ReadTo(extract, content, position, number, scan, start);
            ReadAll(extract, content, position, number, scan) == ReadAll(extract, content, start, n, s)
    decreases |content| - position
  {
    if position < start {
      var end := LineEnd(content, position);
      StopAndGoOn(extract, content, end, number + 1,
                  scan.Step(number, position, end, extract(content[position..end])), start);
    }
  }

  // ---- an append ----

  /** Appending leaves a line alone unless it was the unfinished last one. */
  lemma {:induction false} LineEndAfterAppend(content: seq<Byte>, grown: seq<Byte>, position: nat)
    requires content <= grown && position < |content|
    requires LineEnd(content, position) < |content| || content[|content| - 1] == NEWLINE
    ensures LineEnd(grown, position) == LineEnd(content, position)
    ensures content[position..LineEnd(content, position)] == grown[position..LineEnd(content, position)]
    decreases |content| - position
  {
    if content[position] != NEWLINE {
      assert position + 1 < |content|;
      LineEndAfterAppend(content, grown, position + 1);
    }
  }

  lemma {:induction false} ScanSurvivesAppend(extract: Extract, content: seq<Byte>, grown: seq<Byte>, position: nat,
                                              number: nat, scan: Scan, start: nat)
    requires content <= grown && position <= start < |content| && IsLineStart(content, position, start)
    ensures IsLineStart(grown, position, start)
    ensures ReadTo(extract, grown, position, number, scan, start) == ReadTo(extract, content, position, number, scan, start)
    decreases |content| - position
  {
    if position < start {
      LineEndAfterAppend(content, grown, position);
      var end := LineEnd(content, position);
      ScanSurvivesAppend(extract, content, grown, end, number + 1,
                         scan.Step(number, position, end, extract(content[position..end])), start);
    }
  }

  // ---- the seam ----

  /** The scope of the first line from here on that indexes to anything. */
  function FirstScope(extract: Extract, content: seq<Byte>, position: nat): Option<string>
    requires position <= |content|
    decreases |content| - position
  {
    if position == |content| then None
    else
      var end := LineEnd(content, position);
      var payload := extract(content[position..end]);
      if payload.Some? then Some(payload.value.scope) else FirstScope(extract, content, end)
  }

  /** The scope of the chunk still being filled where a whole-file scan reaches this line. */
  function OpenScope(extract: Extract, content: seq<Byte>, position: nat): Option<string>
    requires position <= |content|
  {
    var scan := ReadTo(extract, content, 0, 1, Fresh(0), position).1;
    if scan.chunk == [] then None else Some(scan.scope)
  }

  /** A whole-file scan would go on filling the chunk that is open here. */
  predicate ChunkRunsOn(extract: Extract, content: seq<Byte>, position: nat)
    requires position <= |content|
  {
    OpenScope(extract, content, position).Some? &&
    FirstScope(extract, content, position) == OpenScope(extract, content, position)
  }

  /** A document for the chunk that is open ends no earlier than the lines the chunk already has. */
  ghost predicate ClosesOpenChunk(documents: seq<Document>, scan: Scan)
    requires scan.chunk != []
  {
    && |scan.documents| < |documents|
    && documents[|scan.documents|].lineEnd >= scan.chunk[|scan.chunk| - 1].number
  }

  /** An open chunk's document only ever ends later. */
  lemma {:induction false} OpenChunkGrows(extract: Extract, content: seq<Byte>, position: nat, number: nat, scan: Scan)
    requires position <= |content| && scan.chunk != []
    requires forall line | line in scan.chunk :: line.number < number
    ensures ClosesOpenChunk(ReadAll(extract, content, position, number, scan).Closed(), scan)
    decreases |content| - position
  {
    if position < |content| {
      var end := LineEnd(content, position);
      var payload := extract(content[position..end]);
      var next := scan.Step(number, position, end, payload);
      var closed := ReadAll(extract, content, end, number + 1, next).Closed();
      StepGrowsOpenChunk(scan, number, position, end, payload);
      if |scan.documents| < |next.documents| {
        SettledStays(extract, content, end, number + 1, next);
        SettledCloses(scan, next, closed);
      } else {
        OpenChunkGrows(extract, content, end, number + 1, next);
        assert ClosesOpenChunk(closed, scan);
      }
      ReadOneLine(extract, content, position, number, scan);
    }
  }

  lemma {:induction false} SettledCloses(scan: Scan, next: Scan, closed: seq<Document>)
    requires scan.chunk != [] && next.documents <= closed
    requires ClosesOpenChunk(next.documents, scan)
    ensures ClosesOpenChunk(closed, scan)
  {
  }

  lemma {:induction false} ReadOneLine(extract: Extract, content: seq<Byte>, position: nat, number: nat, scan: Scan)
    requires position < |content|
    ensures var end := LineEnd(content, position);
            var next := scan.Step(number, position, end, extract(content[position..end]));
            ReadAll(extract, content, position, number, scan) == ReadAll(extract, content, end, number + 1, next)
  {
  }

  lemma {:induction false} StepGrowsOpenChunk(scan: Scan, number: nat, start: nat, end: nat, payload: Option<Payload>)
    requires scan.chunk != []
    requires forall line | line in scan.chunk :: line.number < number
    ensures var next := scan.Step(number, start, end, payload);
            && (forall line | line in next.chunk :: line.number < number + 1)
            && if |scan.documents| < |next.documents| then ClosesOpenChunk(next.documents, scan)
               else next.documents == scan.documents && next.chunk != []
                    && scan.chunk[|scan.chunk| - 1].number <= next.chunk[|next.chunk| - 1].number
  {
    assert scan.chunk[|scan.chunk| - 1] in scan.chunk;
  }

  /** Closing the open chunk at a line and starting afresh is the same as going on, unless the chunk runs on. */
  lemma {:induction false} Seam(extract: Extract, content: seq<Byte>, position: nat, number: nat, scan: Scan)
    requires position <= |content|
    requires forall line | line in scan.chunk :: line.number < number
    ensures ReadAll(extract, content, position, number, scan).Closed()
         == scan.Closed() + Chunks(extract, content, position, number)
       <==> scan.chunk == [] || FirstScope(extract, content, position) != Some(scan.scope)
    decreases |content| - position
  {
    if scan.chunk == [] {
      NothingOpenIsFresh(extract, content, position, number, scan);
    } else if position < |content| {
      var end := LineEnd(content, position);
      var payload := extract(content[position..end]);
      var next := scan.Step(number, position, end, payload);
      if payload.None? {
        Seam(extract, content, end, number + 1, scan);
        NothingOpenForgets(extract, content, end, number + 1, Fresh(position), Fresh(end));
      } else if payload.value.scope != scan.scope {
        NothingOpenIsFresh(extract, content, position, number, scan.Flushed());
        assert scan.Flushed().Step(number, position, end, payload) == next;
      } else {
        RunningOnShows(extract, content, position, number, scan);
      }
    }
  }

  lemma {:induction false} RunningOnShows(extract: Extract, content: seq<Byte>, position: nat, number: nat, scan: Scan)
    requires position < |content| && scan.chunk != []
    requires forall line | line in scan.chunk :: line.number < number
    requires var payload := extract(content[position..LineEnd(content, position)]);
             payload.Some? && payload.value.scope == scan.scope
    ensures ReadAll(extract, content, position, number, scan).Closed()
         != scan.Closed() + Chunks(extract, content, position, number)
  {
    var end := LineEnd(content, position);
    var payload := extract(content[position..end]);
    var next := scan.Step(number, position, end, payload);
    var closed := ReadAll(extract, content, end, number + 1, next).Closed();
    JoiningEndsHere(scan, number, position, end, payload);
    if next.chunk != [] {
      OpenChunkGrows(extract, content, end, number + 1, next);
    } else {
      SettledStays(extract, content, end, number + 1, next);
    }
    assert |scan.documents| < |closed| && closed[|scan.documents|].lineEnd >= number;
    ReadOneLine(extract, content, position, number, scan);
  }

  /** A line of the open chunk's scope joins that chunk, which without it ends earlier. */
  lemma {:induction false} JoiningEndsHere(scan: Scan, number: nat, start: nat, end: nat, payload: Option<Payload>)
    requires scan.chunk != [] && payload.Some? && payload.value.scope == scan.scope
    requires forall line | line in scan.chunk :: line.number < number
    ensures |scan.documents| < |scan.Closed()| && scan.Closed()[|scan.documents|].lineEnd < number
    ensures var k, next := |scan.documents|, scan.Step(number, start, end, payload);
            if next.chunk == [] then k < |next.documents| && next.documents[k].lineEnd == number
            else next.documents == scan.documents && next.chunk[|next.chunk| - 1].number == number
                 && forall line | line in next.chunk :: line.number < number + 1
  {
    assert scan.chunk[|scan.chunk| - 1] in scan.chunk;
  }

  lemma {:induction false} ChunkLinesAreEarlier(extract: Extract, content: seq<Byte>, position: nat, number: nat,
                                                scan: Scan, stop: nat)
    requires position <= |content| && stop <= |content|
    requires forall line | line in scan.chunk :: line.number < number
    ensures var (n, s) := ReadTo(extract, content, position, number, scan, stop);
            forall line | line in s.chunk :: line.number < n
    decreases |content| - position
  {
    if position < stop {
      var end := LineEnd(content, position);
      ChunkLinesAreEarlier(extract, content, end, number + 1,
                           scan.Step(number, position, end, extract(content[position..end])), stop);
    }
  }

  /**
   The rescan of an appended transcript.  The rows hold the first k documents of the file as it was
   last read, and the file has only grown since.  Rescanning from the start of the last of them gives
   the chunking of the whole file if and only if no chunk that was open there runs on.
   */
  lemma {:induction false} ResumeEqualsRechunking(extract: Extract, content: seq<Byte>, grown: seq<Byte>, k: nat)
    requires content <= grown && k < |Chunks(extract, content, 0, 1)|
    ensures var documents := Chunks(extract, content, 0, 1);
            var tail := documents[k];
            && tail.byteStart < |content|
            && ((Resumed(extract, documents[..k], grown, tail) == Chunks(extract, grown, 0, 1))
                <==> !ChunkRunsOn(extract, grown, tail.byteStart))
  {
    var documents := Chunks(extract, content, 0, 1);
    var tail := documents[k];
    ScanAtDocument(extract, content, 0, 1, Fresh(0), k);
    ScanSurvivesAppend(extract, content, grown, 0, 1, Fresh(0), tail.byteStart);
    StopAndGoOn(extract, grown, 0, 1, Fresh(0), tail.byteStart);
    ChunkLinesAreEarlier(extract, grown, 0, 1, Fresh(0), tail.byteStart);
    var (n, s) := ReadTo(extract, grown, 0, 1, Fresh(0), tail.byteStart);
    Seam(extract, grown, tail.byteStart, n, s);
  }

  /** The line a document starts on was finished when the file was read, or indexes to the same scope still. */
  predicate FirstLineHolds(extract: Extract, content: seq<Byte>, grown: seq<Byte>, tail: Document)
    requires tail.byteStart < |content| && content <= grown
  {
    var line := extract(grown[tail.byteStart..LineEnd(grown, tail.byteStart)]);
    || LineEnd(content, tail.byteStart) < |content|
    || content[|content| - 1] == NEWLINE
    || (line.Some? && line.value.scope == tail.scope)
  }

  /** A document keeps the scope of the line it starts on. */
  lemma {:induction false} ScopeOfFirstLine(extract: Extract, content: seq<Byte>, position: nat, number: nat, scan: Scan, k: nat)
    requires position <= |content|
    requires |scan.Closed()| <= k < |ReadAll(extract, content, position, number, scan).Closed()|
    ensures var d := ReadAll(extract, content, position, number, scan).Closed()[k];
            position <= d.byteStart < |content| &&
            var line := extract(content[d.byteStart..LineEnd(content, d.byteStart)]);
            line.Some? && line.value.scope == d.scope
    decreases |content| - position
  {
    assert position < |content|;
    var end := LineEnd(content, position);
    var payload := extract(content[position..end]);
    var next := scan.Step(number, position, end, payload);
    ReadOneLine(extract, content, position, number, scan);
    if |next.Closed()| <= k {
      ScopeOfFirstLine(extract, content, end, number + 1, next, k);
    } else {
      OneLineStartsTheDocument(scan, number, position, end, payload);
      ScopeOfStartedDocument(extract, content, end, number + 1, next);
    }
  }

  /** The document of the open chunk starts where the chunk does and keeps its scope. */
  lemma {:induction false} ScopeOfStartedDocument(extract: Extract, content: seq<Byte>, position: nat, number: nat, scan: Scan)
    requires position <= |content| && scan.chunk != []
    ensures var closed := ReadAll(extract, content, position, number, scan).Closed();
            |scan.documents| < |closed| && closed[|scan.documents|].byteStart == scan.startByte
            && closed[|scan.documents|].scope == scan.scope
  {
    SettledStays(extract, content, position, number, scan);
    ScopeSettles(extract, content, position, number, scan);
  }

  lemma {:induction false} ScopeSettles(extract: Extract, content: seq<Byte>, position: nat, number: nat, scan: Scan)
    requires position <= |content| && scan.chunk != []
    ensures var closed := ReadAll(extract, content, position, number, scan).Closed();
            |scan.documents| < |closed| && closed[|scan.documents|].scope == scan.scope
    decreases |content| - position
  {
    if position < |content| {
      var end := LineEnd(content, position);
      var next := scan.Step(number, position, end, extract(content[position..end]));
      SettledStays(extract, content, end, number + 1, next);
      if next.chunk != [] && next.documents == scan.documents {
        ScopeSettles(extract, content, end, number + 1, next);
      }
    }
  }

  /** An append that only finishes or follows the last line never lets a chunk run on. */
  lemma {:induction false} FinishedLineStopsChunk(extract: Extract, content: seq<Byte>, grown: seq<Byte>, k: nat)
    requires content <= grown && k < |Chunks(extract, content, 0, 1)|
    requires Chunks(extract, content, 0, 1)[k].byteStart < |content|
    requires FirstLineHolds(extract, content, grown, Chunks(extract, content, 0, 1)[k])
    ensures !ChunkRunsOn(extract, grown, Chunks(extract, content, 0, 1)[k].byteStart)
  {
    var tail := Chunks(extract, content, 0, 1)[k];
    ScanAtDocument(extract, content, 0, 1, Fresh(0), k);
    ScopeOfFirstLine(extract, content, 0, 1, Fresh(0), k);
    ScanSurvivesAppend(extract, content, grown, 0, 1, Fresh(0), tail.byteStart);
    if LineEnd(content, tail.byteStart) < |content| || content[|content| - 1] == NEWLINE {
      LineEndAfterAppend(content, grown, tail.byteStart);
    }
  }

  /** A transcript whose unfinished last line reads as one thing when indexed and as nothing once finished. */
  function SampleExtract(line: seq<Byte>): Option<Payload> {
    if line == [1, NEWLINE] then Some(Payload("conversation", "one"))
    else if line == [2] then Some(Payload("all", "two"))
    else None
  }

  lemma {:induction false} UnfinishedLineCanSplitChunk()
    ensures var content, grown := [1, NEWLINE, 2], [1, NEWLINE, 2, 3, NEWLINE, 1, NEWLINE];
            var documents := Chunks(SampleExtract, content, 0, 1);
            && content <= grown && |documents| == 2 && documents[1].byteStart == 2
            && Resumed(SampleExtract, documents[..1], grown, documents[1]) != Chunks(SampleExtract, grown, 0, 1)
  {
    var content, grown := [1, NEWLINE, 2], [1, NEWLINE, 2, 3, NEWLINE, 1, NEWLINE];
    assert content[0..2] == [1, NEWLINE] && content[2..3] == [2];
    assert LineEnd(content, 0) == 2 && LineEnd(content, 2) == 3;
    var first := Fresh(0).Step(1, 0, 2, SampleExtract(content[0..2]));
    var second := first.Step(2, 2, 3, SampleExtract(content[2..3]));
    assert ReadTo(SampleExtract, content, 2, 2, first, 3) == ReadTo(SampleExtract, content, 3, 3, second, 3) == (3, second);
    assert Chunks(SampleExtract, content, 0, 1) == second.Closed();
    assert grown[0..2] == [1, NEWLINE] && grown[2..5] == [2, 3, NEWLINE] && grown[5..7] == [1, NEWLINE];
    assert LineEnd(grown, 0) == 2 && LineEnd(grown, 4) == 5 && LineEnd(grown, 2) == 5 && LineEnd(grown, 5) == 7;
    assert ReadTo(SampleExtract, grown, 2, 2, first, 2) == (2, first);
    assert OpenScope(SampleExtract, grown, 2) == Some("conversation");
    assert FirstScope(SampleExtract, grown, 5) == Some("conversation");
    assert ChunkRunsOn(SampleExtract, grown, 2);
    ResumeEqualsRechunking(SampleExtract, content, grown, 1);
  }
}

/**
 Chunking a JSONL transcript into search documents, and re-chunking only its tail after an append.
 */
module TranscriptChunks {
  import opened Bytes
  import opened Wrappers

  const CHUNK_LINES: nat := 32

  /** What indexing takes from one line: its scope and its text, or nothing. */
  datatype Payload = Payload(scope: string, text: string)

  type Extract = seq<Byte> -> Option<Payload>

  datatype Line = Line(number: nat, text: string)

  datatype Document = Document(lineNo: nat, lineEnd: nat, byteStart: nat, byteEnd: nat, scope: string, text: string)

  function Join(lines: seq<Line>): string {
    if lines == [] then ""
    else if |lines| == 1 then lines[0].text
    else lines[0].text + "\n" + Join(lines[1..])
  }

  /** The loop's locals: the documents finished so far and the chunk being filled. */
  datatype Scan = Scan(documents: seq<Document>, chunk: seq<Line>, scope: string, startByte: nat, endByte: nat) {

    function ChunkDocument(): Document
      requires chunk != []
    {
      Document(chunk[0].number, chunk[|chunk| - 1].number, startByte, endByte, scope, Join(chunk))
    }

    /** The documents if the file ended here. */
    function Closed(): seq<Document> {
      if chunk == [] then documents else documents + [ChunkDocument()]
    }

    function Flushed(): Scan {
      this.(documents := Closed(), chunk := [])
    }

    function Step(number: nat, lineStart: nat, lineEnd: nat, payload: Option<Payload>): Scan {
      match payload
      case None => this
      case Some(Payload(lineScope, text)) =>
        var ready := if chunk == [] || scope != lineScope then Flushed().(scope := lineScope) else this;
        var begun := if ready.chunk == [] then ready.(startByte := lineStart) else ready;
        var grown := begun.(endByte := lineEnd, chunk := begun.chunk + [Line(number, text)]);
        if |grown.chunk| >= CHUNK_LINES then grown.Flushed() else grown
    }
  }

  function Fresh(startByte: nat): Scan {
    Scan([], [], "", startByte, 0)
  }

  /** Where the line starting at `position` ends: after its newline, or with the file. */
  function LineEnd(content: seq<Byte>, position: nat): (end: nat)
    requires position < |content|
    ensures position < end <= |content|
    ensures forall k :: position <= k < end - 1 ==> content[k] != NEWLINE
    ensures end < |content| ==> content[end - 1] == NEWLINE
    decreases |content| - position
  {
    if content[position] == NEWLINE || position + 1 == |content| then position + 1
    else LineEnd(content, position + 1)
  }

  /** Reads whole lines while they start before `stop`; gives the next line's number and the scan. */
  function ReadTo(extract: Extract, content: seq<Byte>, position: nat, number: nat, scan: Scan, stop: nat): (nat, Scan)
    requires position <= |content| && stop <= |content|
    decreases |content| - position
  {
    if position >= stop then (number, scan)
    else
      var end := LineEnd(content, position);
      ReadTo(extract, content, end, number + 1,
             scan.Step(number, position, end, extract(content[position..end])), stop)
  }

  function ReadAll(extract: Extract, content: seq<Byte>, position: nat, number: nat, scan: Scan): Scan
    requires position <= |content|
  {
    ReadTo(extract, content, position, number, scan, |content|).1
  }

  /** The documents of the part of the file from a line's start on. */
  function Chunks(extract: Extract, content: seq<Byte>, position: nat, number: nat): seq<Document>
    requires position <= |content|
  {
    ReadAll(extract, content, position, number, Fresh(position)).Closed()
  }

  // ---- what a chunking is ----

  /** A line that indexes to something: where it stands, and what it indexes to. */
  datatype Found = Found(number: nat, start: nat, end: nat, payload: Payload)

  /** Those lines of the file from a line's start on. */
  function PayloadLines(extract: Extract, content: seq<Byte>, position: nat, number: nat): seq<Found>
    requires position <= |content|
    decreases |content| - position
  {
    if position == |content| then []
    else
      var end := LineEnd(content, position);
      var payload := extract(content[position..end]);
      (if payload.Some? then [Found(number, position, end, payload.value)] else [])
      + PayloadLines(extract, content, end, number + 1)
  }

  /** Their texts, with a newline between any two. */
  function TextOf(lines: seq<Found>): string
    requires lines != []
  {
    var last := lines[|lines| - 1].payload.text;
    if |lines| == 1 then last else TextOf(lines[..|lines| - 1]) + "\n" + last
  }

  /** The document for these lines, which share its scope. */
  ghost predicate Describes(d: Document, lines: seq<Found>) {
    && 0 < |lines| <= CHUNK_LINES
    && d.lineNo == lines[0].number && d.byteStart == lines[0].start
    && d.lineEnd == lines[|lines| - 1].number && d.byteEnd == lines[|lines| - 1].end
    && d.text == TextOf(lines)
    && forall line | line in lines :: line.payload.scope == d.scope
  }

  /** Lines that end a document before this one: there are enough of them, or its scope is another. */
  predicate EndsBefore(lines: seq<Found>, next: Found) {
    |lines| == CHUNK_LINES || (lines != [] && lines[|lines| - 1].payload.scope != next.payload.scope)
  }

  /** The documents take the lines in turn, none left out, and end only where they have to. */
  ghost predicate IsChunking(documents: seq<Document>, lines: seq<Found>)
    decreases |documents|
  {
    if documents == [] then lines == []
    else
      exists n :: 0 < n <= |lines| && StartsChunking(documents[0], lines, n) && IsChunking(documents[1..], lines[n..])
  }

  ghost predicate StartsChunking(first: Document, lines: seq<Found>, n: nat)
    requires n <= |lines|
  {
    Describes(first, lines[..n]) && (n < |lines| ==> EndsBefore(lines[..n], lines[n]))
  }

  method ReadSource(extract: Extract, content: seq<Byte>, startByte: nat, startLine: nat)
    returns (documents: seq<Document>)
    requires startByte <= |content|
    ensures documents == Chunks(extract, content, startByte, startLine)
    ensures IsChunking(documents, PayloadLines(extract, content, startByte, startLine))
  {
    ChunksAreAChunking(extract, content, startByte, startLine);
    documents := [];
    var chunk: seq<Line>, chunkScope: string, chunkStart: nat, chunkEnd: nat := [], "", startByte, 0;
    var position, number := startByte, startLine;
    while position < |content|
      invariant position <= |content|
      invariant ReadAll(extract, content, position, number, Scan(documents, chunk, chunkScope, chunkStart, chunkEnd))
             == ReadAll(extract, content, startByte, startLine, Fresh(startByte))
      decreases |content| - position
    {
      var end := LineEnd(content, position);
      var payload := extract(content[position..end]);
      if payload.Some? {
        var scope, text := payload.value.scope, payload.value.text;
        if chunk == [] || chunkScope != scope {
          if chunk != [] {
            documents := documents + [Scan(documents, chunk, chunkScope, chunkStart, chunkEnd).ChunkDocument()];
          }
          chunk := [];
          chunkScope := scope;
        }
        if chunk == [] {
          chunkStart := position;
        }
        chunkEnd := end;
        chunk := chunk + [Line(number, text)];
        if |chunk| >= CHUNK_LINES {
          documents := documents + [Scan(documents, chunk, chunkScope, chunkStart, chunkEnd).ChunkDocument()];
          chunk := [];
        }
      }
      position, number := end, number + 1;
    }
    if chunk != [] {
      documents := documents + [Scan(documents, chunk, chunkScope, chunkStart, chunkEnd).ChunkDocument()];
    }
  }

  // ---- how a scan depends on where it starts ----

  function Prefixed(before: seq<Document>, scan: Scan): Scan {
    scan.(documents := before + scan.documents)
  }

  /** Documents already finished are carried along untouched. */
  lemma {:induction false} FinishedDocumentsAreCarried(extract: Extract, content: seq<Byte>, position: nat, number: nat,
                                                       before: seq<Document>, scan: Scan)
    requires position <= |content|
    ensures ReadAll(extract, content, position, number, Prefixed(before, scan))
         == Prefixed(before, ReadAll(extract, content, position, number, scan))
    decreases |content| - position
  {
    if position < |content| {
      var end := LineEnd(content, position);
      var payload := extract(content[position..end]);
      StepCarries(before, scan, number, position, end, payload);
      FinishedDocumentsAreCarried(extract, content, end, number + 1, before, scan.Step(number, position, end, payload));
    }
  }

  lemma {:induction false} ClosingCarries(before: seq<Document>, scan: Scan)
    ensures Prefixed(before, scan).Closed() == before + scan.Closed()
    ensures Prefixed(before, scan).Flushed() == Prefixed(before, scan.Flushed())
  {
    assert scan.chunk != [] ==>
      (before + scan.documents) + [scan.ChunkDocument()] == before + (scan.documents + [scan.ChunkDocument()]);
  }

  lemma {:induction false} StepCarries(before: seq<Document>, scan: Scan, number: nat, start: nat, end: nat, payload: Option<Payload>)
    ensures Prefixed(before, scan).Step(number, start, end, payload)
         == Prefixed(before, scan.Step(number, start, end, payload))
  {
    if payload.Some? {
      var Payload(lineScope, text) := payload.value;
      var ready := if scan.chunk == [] || scan.scope != lineScope then scan.Flushed().(scope := lineScope) else scan;
      var begun := if ready.chunk == [] then ready.(startByte := start) else ready;
      ClosingCarries(before, scan);
      ClosingCarries(before, begun.(endByte := end, chunk := begun.chunk + [Line(number, text)]));
    }
  }

  /** With no chunk open, the scan goes on as one started here would. */
  lemma {:induction false} NothingOpenIsFresh(extract: Extract, content: seq<Byte>, position: nat, number: nat, scan: Scan)
    requires position <= |content| && scan.chunk == []
    ensures ReadAll(extract, content, position, number, scan).Closed()
         == scan.documents + Chunks(extract, content, position, number)
  {
    NothingOpenForgets(extract, content, position, number, scan, Prefixed(scan.documents, Fresh(position)));
    FinishedDocumentsAreCarried(extract, content, position, number, scan.documents, Fresh(position));
    ClosingCarries(scan.documents, ReadAll(extract, content, position, number, Fresh(position)));
  }

  lemma {:induction false} NothingOpenForgets(extract: Extract, content: seq<Byte>, position: nat, number: nat,
                                              a: Scan, b: Scan)
    requires position <= |content| && a.chunk == b.chunk == [] && a.documents == b.documents
    ensures ReadAll(extract, content, position, number, a).Closed()
         == ReadAll(extract, content, position, number, b).Closed()
    decreases |content| - position
  {
    if position < |content| {
      var end := LineEnd(content, position);
      if extract(content[position..end]).None? {
        NothingOpenForgets(extract, content, end, number + 1, a, b);
      }
    }
  }

  /** What a scan has settled: its finished documents, and where its open chunk starts. */
  lemma {:induction false} SettledStays(extract: Extract, content: seq<Byte>, position: nat, number: nat, scan: Scan)
    requires position <= |content|
    ensures var closed := ReadAll(extract, content, position, number, scan).Closed();
            && scan.documents <= closed
            && (scan.chunk != [] ==>
                  && |scan.documents| < |closed|
                  && closed[|scan.documents|].byteStart == scan.startByte
                  && closed[|scan.documents|].lineNo == scan.chunk[0].number)
    decreases |content| - position
  {
    if position < |content| {
      var end := LineEnd(content, position);
      SettledStays(extract, content, end, number + 1, scan.Step(number, position, end, extract(content[position..end])));
    }
  }

  // ---- the documents are a chunking, and the only one ----

  lemma {:induction false} JoinOneMore(lines: seq<Line>, last: Line)
    requires lines != []
    ensures Join(lines + [last]) == Join(lines) + "\n" + last.text
  {
    var all := lines + [last];
    if |lines| > 1 {
      assert all[1..] == lines[1..] + [last];
      JoinOneMore(lines[1..], last);
      assert lines[0].text + "\n" + (Join(lines[1..]) + "\n" + last.text) == Join(lines) + "\n" + last.text;
    } else {
      assert all[1..] == [last];
    }
  }

  function LinesOf(lines: seq<Found>): seq<Line> {
    seq(|lines|, i requires 0 <= i < |lines| => Line(lines[i].number, lines[i].payload.text))
  }

  lemma {:induction false} JoinIsText(lines: seq<Found>)
    requires lines != []
    ensures Join(LinesOf(lines)) == TextOf(lines)
  {
    var init, last := lines[..|lines| - 1], lines[|lines| - 1];
    if init == [] {
      assert LinesOf(lines) == [Line(last.number, last.payload.text)];
    } else {
      assert LinesOf(lines) == LinesOf(init) + [Line(last.number, last.payload.text)];
      JoinIsText(init);
      JoinOneMore(LinesOf(init), Line(last.number, last.payload.text));
    }
  }

  /** Nothing is finished, and these lines are in the open chunk. */
  ghost predicate Fills(scan: Scan, lines: seq<Found>) {
    && scan.documents == [] && 0 < |lines| <= CHUNK_LINES
    && scan.chunk == LinesOf(lines)
    && scan.startByte == lines[0].start && scan.endByte == lines[|lines| - 1].end
    && forall line | line in lines :: line.payload.scope == scan.scope
  }

  lemma {:induction false} FilledIsDescribed(scan: Scan, lines: seq<Found>)
    requires Fills(scan, lines)
    ensures scan.Closed() == [scan.ChunkDocument()] && Describes(scan.ChunkDocument(), lines)
  {
    JoinIsText(lines);
  }

  lemma {:induction false} StartsAndGoesOn(documents: seq<Document>, lines: seq<Found>, n: nat)
    requires documents != [] && 0 < n <= |lines|
    requires StartsChunking(documents[0], lines, n) && IsChunking(documents[1..], lines[n..])
    ensures IsChunking(documents, lines)
  {
  }

  /** One line joins the open chunk; the chunk may be full then. */
  lemma {:induction false} LineJoins(scan: Scan, lines: seq<Found>, line: Found)
    requires Fills(scan, lines) && |lines| < CHUNK_LINES && line.payload.scope == scan.scope
    ensures var next := scan.Step(line.number, line.start, line.end, Some(line.payload));
            if |lines| + 1 < CHUNK_LINES then Fills(next, lines + [line])
            else next.chunk == [] && |next.documents| == 1 && Describes(next.documents[0], lines + [line])
  {
    var grown := scan.(endByte := line.end, chunk := scan.chunk + [Line(line.number, line.payload.text)]);
    assert grown.chunk == LinesOf(lines + [line]);
    FilledIsDescribed(grown, lines + [line]);
  }

  /** A line with nothing open starts a chunk. */
  lemma {:induction false} LineStarts(position: nat, line: Found)
    ensures Fills(Fresh(position).Step(line.number, line.start, line.end, Some(line.payload)), [line])
  {
    assert LinesOf([line]) == [Line(line.number, line.payload.text)];
  }

  /** The documents of a file from a line's start on are a chunking of its lines. */
  lemma {:induction false} ChunksAreAChunking(extract: Extract, content: seq<Byte>, position: nat, number: nat)
    requires position <= |content|
    ensures IsChunking(Chunks(extract, content, position, number), PayloadLines(extract, content, position, number))
    decreases |content| - position, 0
  {
    if position < |content| {
      var end := LineEnd(content, position);
      var payload := extract(content[position..end]);
      if payload.None? {
        NothingOpenForgets(extract, content, end, number + 1, Fresh(position), Fresh(end));
        ChunksAreAChunking(extract, content, end, number + 1);
        var more := PayloadLines(extract, content, end, number + 1);
        assert [] + more == more;
      } else {
        var line := Found(number, position, end, payload.value);
        LineStarts(position, line);
        OpenChunkIsChunked(extract, content, end, number + 1, Fresh(position).Step(number, position, end, payload), [line]);
      }
    }
  }

  /** So they are with some lines in the open chunk already. */
  lemma {:induction false} OpenChunkIsChunked(extract: Extract, content: seq<Byte>, position: nat, number: nat,
                                              scan: Scan, open: seq<Found>)
    requires position <= |content| && Fills(scan, open) && |open| < CHUNK_LINES
    ensures IsChunking(ReadAll(extract, content, position, number, scan).Closed(),
                       open + PayloadLines(extract, content, position, number))
    decreases |content| - position, 2
  {
    if position == |content| {
      FilledIsDescribed(scan, open);
      WholeChunk(scan.Closed(), open);
    } else {
      var end := LineEnd(content, position);
      var payload := extract(content[position..end]);
      var next := scan.Step(number, position, end, payload);
      var later := PayloadLines(extract, content, end, number + 1);
      if payload.None? {
        OpenChunkIsChunked(extract, content, end, number + 1, scan, open);
        assert [] + later == later;
      } else {
        var line := Found(number, position, end, payload.value);
        if payload.value.scope == scan.scope {
          LineJoins(scan, open, line);
          assert open + ([line] + later) == (open + [line]) + later;
          if |open| + 1 < CHUNK_LINES {
            OpenChunkIsChunked(extract, content, end, number + 1, next, open + [line]);
          } else {
            FullChunkIsChunked(extract, content, end, number + 1, next, open + [line]);
          }
        } else {
          ScopeChangeIsChunked(extract, content, position, number, scan, open);
        }
      }
    }
  }

  lemma {:induction false} WholeChunk(documents: seq<Document>, lines: seq<Found>)
    requires |documents| == 1 && Describes(documents[0], lines)
    ensures IsChunking(documents, lines + [])
  {
    var all := lines + [];
    assert all == lines && all[..|lines|] == lines && all[|lines|..] == [];
    assert IsChunking(documents[1..], []);
    StartsAndGoesOn(documents, all, |lines|);
  }

  lemma {:induction false} FullChunkIsChunked(extract: Extract, content: seq<Byte>, position: nat, number: nat,
                                              scan: Scan, full: seq<Found>)
    requires position <= |content| && scan.chunk == [] && |full| == CHUNK_LINES
    requires |scan.documents| == 1 && Describes(scan.documents[0], full)
    ensures IsChunking(ReadAll(extract, content, position, number, scan).Closed(),
                       full + PayloadLines(extract, content, position, number))
    decreases |content| - position, 1
  {
    var later := PayloadLines(extract, content, position, number);
    NothingOpenIsFresh(extract, content, position, number, scan);
    ChunksAreAChunking(extract, content, position, number);
    ChunkThenRest(scan.documents[0], Chunks(extract, content, position, number), full, later);
    assert scan.documents == [scan.documents[0]];
  }

  lemma {:induction false} FlushedForScope(scan: Scan, number: nat, start: nat, end: nat, payload: Option<Payload>)
    requires payload.Some? && payload.value.scope != scan.scope
    ensures scan.Flushed().Step(number, start, end, payload) == scan.Step(number, start, end, payload)
  {
  }

  lemma {:induction false} ScopeChangeIsChunked(extract: Extract, content: seq<Byte>, position: nat, number: nat,
                                                scan: Scan, open: seq<Found>)
    requires position < |content| && Fills(scan, open)
    requires var payload := extract(content[position..LineEnd(content, position)]);
             payload.Some? && payload.value.scope != scan.scope
    ensures IsChunking(ReadAll(extract, content, position, number, scan).Closed(),
                       open + PayloadLines(extract, content, position, number))
    decreases |content| - position, 1
  {
    var end := LineEnd(content, position);
    var payload := extract(content[position..end]);
    var closed := scan.Flushed();
    FilledIsDescribed(scan, open);
    FlushedForScope(scan, number, position, end, payload);
    assert ReadAll(extract, content, position, number, closed) == ReadAll(extract, content, position, number, scan);
    NothingOpenIsFresh(extract, content, position, number, closed);
    ChunksAreAChunking(extract, content, position, number);
    ChunkThenRest(scan.ChunkDocument(), Chunks(extract, content, position, number), open,
                  PayloadLines(extract, content, position, number));
  }

  lemma {:induction false} ChunkThenRest(first: Document, rest: seq<Document>, lines: seq<Found>, more: seq<Found>)
    requires Describes(first, lines) && IsChunking(rest, more)
    requires more != [] ==> EndsBefore(lines, more[0])
    ensures IsChunking([first] + rest, lines + more)
  {
    var documents, all := [first] + rest, lines + more;
    assert documents[1..] == rest && all[..|lines|] == lines && all[|lines|..] == more;
    StartsAndGoesOn(documents, all, |lines|);
  }

  /** What is found in a file determines its chunking. */
  lemma {:induction false} ChunkingIsDetermined(a: seq<Document>, b: seq<Document>, lines: seq<Found>)
    requires IsChunking(a, lines) && IsChunking(b, lines)
    ensures a == b
    decreases |a|
  {
    if a != [] && b != [] {
      var n := FirstChunk(a, lines);
      var m := FirstChunk(b, lines);
      FirstChunkIsDetermined(a[0], b[0], lines, n, m);
      ChunkingIsDetermined(a[1..], b[1..], lines[n..]);
      SameHeadAndTail(a, b);
    }
  }

  lemma {:induction false} SameHeadAndTail(a: seq<Document>, b: seq<Document>)
    requires a != [] && b != [] && a[0] == b[0] && a[1..] == b[1..]
    ensures a == b
  {
    assert a == [a[0]] + a[1..] && b == [b[0]] + b[1..];
  }

  lemma {:induction false} FirstChunk(documents: seq<Document>, lines: seq<Found>) returns (n: nat)
    requires documents != [] && IsChunking(documents, lines)
    ensures 0 < n <= |lines| && StartsChunking(documents[0], lines, n) && IsChunking(documents[1..], lines[n..])
  {
    n :| 0 < n <= |lines| && StartsChunking(documents[0], lines, n) && IsChunking(documents[1..], lines[n..]);
  }

  lemma {:induction false} FirstChunkIsDetermined(a: Document, b: Document, lines: seq<Found>, n: nat, m: nat)
    requires 0 < n <= |lines| && 0 < m <= |lines|
    requires StartsChunking(a, lines, n) && StartsChunking(b, lines, m)
    ensures n == m && a == b
  {
    NoLongerChunk(a, b, lines, n, m);
    NoLongerChunk(b, a, lines, m, n);
    assert lines[..n][0] in lines[..n];
  }

  lemma {:induction false} NoLongerChunk(a: Document, b: Document, lines: seq<Found>, n: nat, m: nat)
    requires 0 < n <= |lines| && 0 < m <= |lines|
    requires StartsChunking(a, lines, n) && StartsChunking(b, lines, m)
    ensures m <= n
  {
    if n < m {
      NotEndedInside(b, lines, n, m);
    }
  }

  lemma {:induction false} NotEndedInside(d: Document, lines: seq<Found>, n: nat, m: nat)
    requires 0 < n < m <= |lines| && Describes(d, lines[..m])
    ensures !EndsBefore(lines[..n], lines[n])
  {
    assert lines[..m][n - 1] in lines[..m] && lines[..m][n] in lines[..m];
    assert lines[..n][n - 1] == lines[n - 1];
  }
}

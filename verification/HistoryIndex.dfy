/**
 The transcript index: one row and its documents per transcript, synced from files that only grow, and
 cut back to a size by giving up the oldest transcripts behind a watermark.
 */
module HistoryIndex {
  import opened Bytes
  import opened Wrappers
  import opened TranscriptChunks
  import opened TranscriptTail

  type Path = string

  const EVICTION_BATCH: nat := 25

  /** A transcript's row in the sources table, with its documents. */
  datatype Entry = Entry(size: nat, mtime: int, documents: seq<Document>)

  datatype Stat = Stat(size: nat, mtime: int)

  // ---- syncing one transcript ----

  predicate Unchanged(known: Option<Entry>, stat: Stat) {
    known.Some? && known.value.size == stat.size && known.value.mtime == stat.mtime
  }

  predicate PassedOver(known: Option<Entry>, stat: Stat, watermark: int) {
    known.None? && watermark != 0 && stat.mtime <= watermark
  }

  /** Whether the sync goes on to open the file. */
  predicate Reads(known: Option<Entry>, stat: Stat, watermark: int) {
    !Unchanged(known, stat) && !PassedOver(known, stat, watermark)
  }

  predicate Resumes(known: Option<Entry>, stat: Stat) {
    known.Some? && stat.size > known.value.size && known.value.documents != []
  }

  /** The documents read from a line on; nothing when the file could not be read. */
  function DocumentsFrom(extract: Extract, read: Option<seq<Byte>>, position: nat, number: nat): seq<Document> {
    if read.None? || position > |read.value| then [] else Chunks(extract, read.value, position, number)
  }

  function SyncedDocuments(extract: Extract, known: Option<Entry>, stat: Stat, read: Option<seq<Byte>>): seq<Document> {
    if Resumes(known, stat) then
      var rows := known.value.documents;
      var tail := rows[|rows| - 1];
      Before(rows, tail.lineNo) + DocumentsFrom(extract, read, tail.byteStart, tail.lineNo)
    else DocumentsFrom(extract, read, 0, 1)
  }

  function SyncEntry(extract: Extract, known: Option<Entry>, stat: Stat, read: Option<seq<Byte>>, watermark: int)
    : Option<Entry>
  {
    if !Reads(known, stat, watermark) then known
    else Some(Entry(stat.size, stat.mtime, SyncedDocuments(extract, known, stat, read)))
  }

  // ---- one transcript over a whole run ----

  /** What happens to one transcript: it is synced, or its rows are dropped by retention or pruning. */
  datatype Happening =
    | Synced(stat: Stat, read: Option<seq<Byte>>, watermark: int)
    | Dropped

  /** The rows, the file as last read, and whether the last attempt to read it succeeded. */
  datatype Tracked = Tracked(entry: Option<Entry>, lastRead: seq<Byte>, whole: bool)

  function Follow(extract: Extract, t: Tracked, h: Happening): Tracked {
    match h
    case Dropped => Tracked(None, t.lastRead, true)
    case Synced(stat, read, watermark) =>
      if !Reads(t.entry, stat, watermark) then t
      else Tracked(SyncEntry(extract, t.entry, stat, read, watermark),
                   if read.Some? then read.value else t.lastRead, read.Some?)
  }

  function FollowAll(extract: Extract, t: Tracked, happenings: seq<Happening>): Tracked
    decreases |happenings|
  {
    if happenings == [] then t
    else FollowAll(extract, Follow(extract, t, happenings[0]), happenings[1..])
  }

  /** The file read is the file as last read, appended to; only a sync that resumes depends on it. */
  predicate Grows(t: Tracked, h: Happening) {
    h.Synced? && h.read.Some? && t.entry.Some? && t.entry.value.documents != [] && h.stat.size > t.entry.value.size ==>
      t.lastRead <= h.read.value
  }

  /** No chunk that is open where the sync resumes runs on past it. */
  predicate ResumesCleanly(extract: Extract, t: Tracked, h: Happening) {
    h.Synced? && h.read.Some? && t.entry.Some? && t.entry.value.documents != [] && h.stat.size > t.entry.value.size ==>
      var rows := t.entry.value.documents;
      var start := rows[|rows| - 1].byteStart;
      start <= |h.read.value| && !ChunkRunsOn(extract, h.read.value, start)
  }

  /** The rows hold the first documents of the file as last read; all of them if that read succeeded. */
  ghost predicate RowsFollow(extract: Extract, t: Tracked) {
    t.entry.Some? ==>
      var rows, documents := t.entry.value.documents, Chunks(extract, t.lastRead, 0, 1);
      rows <= documents && (t.whole ==> rows == documents)
  }

  predicate AllGrow(extract: Extract, t: Tracked, happenings: seq<Happening>)
    decreases |happenings|
  {
    happenings == [] ||
    (Grows(t, happenings[0]) && AllGrow(extract, Follow(extract, t, happenings[0]), happenings[1..]))
  }

  predicate AllResumeCleanly(extract: Extract, t: Tracked, happenings: seq<Happening>)
    decreases |happenings|
  {
    happenings == [] ||
    (ResumesCleanly(extract, t, happenings[0])
     && AllResumeCleanly(extract, Follow(extract, t, happenings[0]), happenings[1..]))
  }

  /** The file is not the one last synced, and not one given up behind the watermark. */
  predicate IsNews(t: Tracked, h: Happening) {
    h.Synced? &&
    if t.entry.Some? then h.stat.size != t.entry.value.size || h.stat.mtime != t.entry.value.mtime
    else h.watermark == 0 || h.stat.mtime > h.watermark
  }

  /**
   A sync that finds news takes note of the file, and its rows are the chunking of what it reads of it; all
   rows but the last are left when a file that has grown cannot be read, and none when another one cannot.
   */
  predicate TakesNotice(extract: Extract, t: Tracked, h: Happening) {
    var after := Follow(extract, t, h);
    IsNews(t, h) ==>
      && after.entry.Some? && after.entry.value.size == h.stat.size && after.entry.value.mtime == h.stat.mtime
      && match h.read
         case Some(content) =>
           after.lastRead == content && after.entry.value.documents == Chunks(extract, content, 0, 1)
         case None =>
           after.lastRead == t.lastRead && after.entry.value.documents == RowsLeft(t.entry, h.stat)
  }

  function RowsLeft(known: Option<Entry>, stat: Stat): seq<Document> {
    if known.None? || known.value.documents == [] || stat.size <= known.value.size then []
    else known.value.documents[..|known.value.documents| - 1]
  }

  predicate AlwaysTakesNotice(extract: Extract, t: Tracked, happenings: seq<Happening>)
    decreases |happenings|
  {
    happenings == [] ||
    (TakesNotice(extract, t, happenings[0])
     && AlwaysTakesNotice(extract, Follow(extract, t, happenings[0]), happenings[1..]))
  }

  /** The rows follow the file after every step of the run. */
  ghost predicate AlwaysFollow(extract: Extract, t: Tracked, happenings: seq<Happening>)
    decreases |happenings|
  {
    && RowsFollow(extract, t)
    && (happenings != [] ==> AlwaysFollow(extract, Follow(extract, t, happenings[0]), happenings[1..]))
  }

  /** A resuming sync rewrites the rows to the chunking of the whole file exactly when it resumes cleanly. */
  lemma {:induction false} ResumedRowsFollow(extract: Extract, t: Tracked, stat: Stat, read: seq<Byte>)
    requires RowsFollow(extract, t) && Resumes(t.entry, stat) && t.lastRead <= read
    ensures var rows := t.entry.value.documents;
            var start := rows[|rows| - 1].byteStart;
            && start <= |read|
            && ((SyncedDocuments(extract, t.entry, stat, Some(read)) == Chunks(extract, read, 0, 1)) <==>
                  !ChunkRunsOn(extract, read, start))
  {
    var documents := Chunks(extract, t.lastRead, 0, 1);
    var rows := t.entry.value.documents;
    var k := |rows| - 1;
    KeptRows(extract, t.lastRead, rows);
    assert rows[k] == documents[k];
    ResumeEqualsRechunking(extract, t.lastRead, read, k);
  }

  lemma {:induction false} KeptRows(extract: Extract, content: seq<Byte>, rows: seq<Document>)
    requires rows != [] && rows <= Chunks(extract, content, 0, 1)
    ensures var k := |rows| - 1;
            Before(rows, rows[k].lineNo) == rows[..k] == Chunks(extract, content, 0, 1)[..k]
  {
    ChunksAreOrdered(extract, content, 0, 1, Fresh(0));
    BeforeIsPrefix(rows, |rows| - 1);
  }

  /** Resuming on a file that cannot be read leaves the rows before the last. */
  lemma {:induction false} UnreadRowsAreLeft(extract: Extract, t: Tracked, stat: Stat)
    requires RowsFollow(extract, t) && Resumes(t.entry, stat)
    ensures var left := RowsLeft(t.entry, stat);
            SyncedDocuments(extract, t.entry, stat, None) == left && left <= Chunks(extract, t.lastRead, 0, 1)
  {
    var rows := t.entry.value.documents;
    KeptRows(extract, t.lastRead, rows);
    assert rows[..|rows| - 1] + [] == rows[..|rows| - 1];
  }

  lemma {:induction false} StepFollows(extract: Extract, t: Tracked, h: Happening)
    requires RowsFollow(extract, t) && Grows(t, h)
    ensures RowsFollow(extract, Follow(extract, t, h)) <==> ResumesCleanly(extract, t, h)
    ensures TakesNotice(extract, t, h) <==> ResumesCleanly(extract, t, h)
    ensures !IsNews(t, h) && h.Synced? ==> Follow(extract, t, h) == t
  {
    if h.Synced? && Reads(t.entry, h.stat, h.watermark) && Resumes(t.entry, h.stat) {
      if h.read.Some? {
        ResumedRowsFollow(extract, t, h.stat, h.read.value);
      } else {
        UnreadRowsAreLeft(extract, t, h.stat);
      }
    }
  }

  /**
   Over every run of appends, syncs, failed reads and drops: the rows of a transcript always are the
   chunking of the whole file as it was last read, or the beginning of it after a failed read, if and only
   if every sync that resumes does so cleanly.  Then, and only then, every sync that finds the file changed
   leaves the chunking of what it has just read of it.
   */
  lemma {:induction false} RowsFollowTheFile(extract: Extract, t: Tracked, happenings: seq<Happening>)
    requires RowsFollow(extract, t) && AllGrow(extract, t, happenings)
    ensures AlwaysFollow(extract, t, happenings) <==> AllResumeCleanly(extract, t, happenings)
    ensures AlwaysTakesNotice(extract, t, happenings) <==> AllResumeCleanly(extract, t, happenings)
    decreases |happenings|
  {
    if happenings != [] {
      StepFollows(extract, t, happenings[0]);
      if ResumesCleanly(extract, t, happenings[0]) {
        RowsFollowTheFile(extract, Follow(extract, t, happenings[0]), happenings[1..]);
      }
    }
  }

  /** If the unfinished last line already indexed to something, finishing it leaves its scope alone. */
  ghost predicate CleanAppend(extract: Extract, content: seq<Byte>, grown: seq<Byte>) {
    content <= grown &&
    forall start :: 0 <= start < |content| && IsLineStart(content, 0, start) && LineEnd(content, start) == |content|
                    && extract(content[start..]).Some? ==>
      content[|content| - 1] == NEWLINE ||
      var line := extract(grown[start..LineEnd(grown, start)]);
      line.Some? && line.value.scope == extract(content[start..]).value.scope
  }

  /** An append that leaves the unfinished last line's scope alone is always resumed cleanly. */
  lemma {:induction false} CleanAppendResumesCleanly(extract: Extract, t: Tracked, h: Happening)
    requires RowsFollow(extract, t)
    requires h.Synced? && h.read.Some? ==> CleanAppend(extract, t.lastRead, h.read.value)
    ensures ResumesCleanly(extract, t, h)
  {
    if h.Synced? && h.read.Some? && t.entry.Some? && t.entry.value.documents != [] && h.stat.size > t.entry.value.size {
      var rows, documents := t.entry.value.documents, Chunks(extract, t.lastRead, 0, 1);
      var k := |rows| - 1;
      assert rows[k] == documents[k];
      TailLineHolds(extract, t.lastRead, h.read.value, k);
      FinishedLineStopsChunk(extract, t.lastRead, h.read.value, k);
    }
  }

  lemma {:induction false} TailLineHolds(extract: Extract, content: seq<Byte>, grown: seq<Byte>, k: nat)
    requires CleanAppend(extract, content, grown) && k < |Chunks(extract, content, 0, 1)|
    ensures Chunks(extract, content, 0, 1)[k].byteStart < |content|
    ensures FirstLineHolds(extract, content, grown, Chunks(extract, content, 0, 1)[k])
  {
    var start := Chunks(extract, content, 0, 1)[k].byteStart;
    ScanAtDocument(extract, content, 0, 1, Fresh(0), k);
    ScopeOfFirstLine(extract, content, 0, 1, Fresh(0), k);
    if LineEnd(content, start) == |content| {
      assert content[start..|content|] == content[start..];
    }
  }

  // ---- rows stay in line order ----

  /** Whatever is read, syncing leaves the rows of a transcript in line order. */
  lemma {:induction false} SyncKeepsOrder(extract: Extract, known: Option<Entry>, stat: Stat, read: Option<seq<Byte>>)
    requires known.Some? ==> Ordered(known.value.documents)
    ensures Ordered(SyncedDocuments(extract, known, stat, read))
  {
    if Resumes(known, stat) {
      var rows := known.value.documents;
      var tail := rows[|rows| - 1];
      var kept, found := Before(rows, tail.lineNo), DocumentsFrom(extract, read, tail.byteStart, tail.lineNo);
      BeforeKeepsOrder(rows, tail.lineNo);
      DocumentsAreOrdered(extract, read, tail.byteStart, tail.lineNo);
      OrderedInTwo(kept, found, tail.lineNo);
    } else {
      DocumentsAreOrdered(extract, read, 0, 1);
    }
  }

  lemma {:induction false} DocumentsAreOrdered(extract: Extract, read: Option<seq<Byte>>, position: nat, number: nat)
    ensures var found := DocumentsFrom(extract, read, position, number);
            Ordered(found) && NoneBelow(found, number)
  {
    if read.Some? && position <= |read.value| {
      ChunksAreOrdered(extract, read.value, position, number, Fresh(position));
      ChunksStartThere(extract, read.value, position, number, Fresh(position), number);
    }
  }

  lemma {:induction false} OrderedInTwo(a: seq<Document>, b: seq<Document>, number: nat)
    requires Ordered(a) && AllBelow(a, number) && Ordered(b) && NoneBelow(b, number)
    ensures Ordered(a + b)
  {
    forall i, j | 0 <= i < j < |a + b| ensures (a + b)[i].lineNo < (a + b)[j].lineNo {
      assert i < |a| ==> a[i] in a;
      assert j >= |a| ==> b[j - |a|] in b;
    }
  }

  // ---- retention ----

  const DEFAULT_LIMIT: int := 3_000_000_000
  const KEEP_MARGIN: int := 500_000_000

  function Max(a: int, b: int): int {
    if a >= b then a else b
  }

  /** The cap and the level an eviction run stops at; (0, 0) turns retention off. */
  function SizeLimits(configuredMegabytes: int): (limits: (int, int))
    ensures limits == (0, 0) || limits.0 / 2 <= limits.1 < limits.0
    ensures limits == (0, 0) <==> configuredMegabytes < 0
    ensures configuredMegabytes >= 0 ==>
              limits.0 == (if configuredMegabytes == 0 then 3_000_000_000 else configuredMegabytes * 1_000_000)
    ensures limits.0 >= 1_000_000_000 ==> limits.1 == limits.0 - 500_000_000
    ensures limits.0 < 1_000_000_000 ==> limits.1 == limits.0 / 2
  {
    var limit := if configuredMegabytes != 0 then configuredMegabytes * 1_000_000 else DEFAULT_LIMIT;
    if limit <= 0 then (0, 0) else (limit, Max(limit - KEEP_MARGIN, limit / 2))
  }

  /** The listing holds every indexed transcript once, oldest first. */
  ghost predicate OldestFirst(listing: seq<Path>, entries: map<Path, Entry>) {
    && (forall p :: p in listing <==> p in entries)
    && (forall i, j :: 0 <= i < j < |listing| ==> listing[i] != listing[j])
    && (forall i, j :: 0 <= i < j < |listing| ==> entries[listing[i]].mtime <= entries[listing[j]].mtime)
  }

  function Without(entries: map<Path, Entry>, gone: seq<Path>): map<Path, Entry> {
    map p | p in entries && p !in gone :: entries[p]
  }

  function Newest(entries: map<Path, Entry>, gone: seq<Path>): int
    requires forall p | p in gone :: p in entries
  {
    if gone == [] then 0 else Max(entries[gone[0]].mtime, Newest(entries, gone[1..]))
  }

  lemma {:induction false} NewestOfTwo(entries: map<Path, Entry>, a: seq<Path>, b: seq<Path>)
    requires forall p | p in a + b :: p in entries
    ensures (forall p | p in a :: p in entries) && (forall p | p in b :: p in entries)
    ensures Newest(entries, a + b) == Max(Newest(entries, a), Newest(entries, b))
    ensures 0 <= Newest(entries, a)
  {
    assert forall p | p in a :: p in a + b;
    assert forall p | p in b :: p in a + b;
    if a == [] {
      assert a + b == b;
      NewestNotNegative(entries, b);
    } else {
      assert (a + b)[1..] == a[1..] + b;
      NewestOfTwo(entries, a[1..], b);
    }
  }

  lemma {:induction false} NewestNotNegative(entries: map<Path, Entry>, gone: seq<Path>)
    requires forall p | p in gone :: p in entries
    ensures 0 <= Newest(entries, gone)
    ensures forall p | p in gone :: entries[p].mtime <= Newest(entries, gone)
    ensures Newest(entries, gone) == 0 || exists p | p in gone :: entries[p].mtime == Newest(entries, gone)
  {
    if gone != [] {
      NewestNotNegative(entries, gone[1..]);
      assert gone[0] in gone;
    }
  }

  /** The oldest transcripts are given up. */
  ghost predicate GivesUp(before: map<Path, Entry>, after: map<Path, Entry>, gone: seq<Path>) {
    && (forall p | p in gone :: p in before)
    && after == Without(before, gone)
    && (forall p, q | p in gone && q in after :: before[p].mtime <= after[q].mtime)
  }

  /** The oldest transcripts are given up, and the watermark set where the cut was made. */
  ghost predicate Evicts(before: map<Path, Entry>, after: map<Path, Entry>, watermark: int, gone: seq<Path>) {
    gone != [] && GivesUp(before, after, gone) && watermark == Newest(before, gone)
  }

  class Index {
    var entries: map<Path, Entry>
    var watermark: int

    /** Every transcript's rows are in line order. */
    ghost predicate Valid()
      reads this
    {
      forall p | p in entries :: Ordered(entries[p].documents)
    }

    constructor ()
      ensures Valid() && entries == map[] && watermark == 0
    {
      entries, watermark := map[], 0;
    }

    function Known(path: Path): Option<Entry>
      reads this
    {
      if path in entries then Some(entries[path]) else None
    }

    /** `stat` is None for a path that is gone or not a transcript; `read` is None when opening it fails. */
    method SyncPath(extract: Extract, path: Path, stat: Option<Stat>, read: Option<seq<Byte>>)
      requires Valid()
      modifies this`entries
      ensures Valid()
      ensures stat.None? ==> entries == old(entries)
      ensures stat.Some? ==> Known(path) == SyncEntry(extract, old(Known(path)), stat.value, read, watermark)
      ensures stat.Some? && path in old(entries) ==>
                && path in entries && entries[path].size == stat.value.size && entries[path].mtime == stat.value.mtime
                && (stat.value == Stat(old(entries)[path].size, old(entries)[path].mtime) ==>
                      entries[path] == old(entries)[path])
      ensures stat.Some? && path !in old(entries) ==>
                (path in entries <==> watermark == 0 || stat.value.mtime > watermark)
      ensures forall p | p != path :: Known(p) == old(Known(p))
    {
      if stat.None? {
        return;
      }
      var known := Known(path);
      if known.Some? && known.value.size == stat.value.size && known.value.mtime == stat.value.mtime {
        return;
      }
      if known.None? && watermark != 0 && stat.value.mtime <= watermark {
        return;
      }
      var documents := RebuildDocuments(extract, known, stat.value, read);
      SyncKeepsOrder(extract, known, stat.value, read);
      entries := entries[path := Entry(stat.value.size, stat.value.mtime, documents)];
    }

    /** The rows kept before the last document, and those read from where it starts; all of them otherwise. */
    static method RebuildDocuments(extract: Extract, known: Option<Entry>, stat: Stat, read: Option<seq<Byte>>)
      returns (documents: seq<Document>)
      requires known.Some? ==> Ordered(known.value.documents)
      ensures documents == SyncedDocuments(extract, known, stat, read)
    {
      var kept: seq<Document>, startByte: nat, startLine: nat := [], 0, 1;
      if known.Some? && stat.size > known.value.size && known.value.documents != [] {
        var rows := known.value.documents;
        var tail := FindTail(rows);
        LastRowIsTail(rows, tail);
        startByte, startLine := tail.byteStart, tail.lineNo;
        kept := Before(rows, startLine);
      }
      var found: seq<Document> := [];
      if read.Some? && startByte <= |read.value| {
        found := ReadSource(extract, read.value, startByte, startLine);
      }
      NothingInFront(found);
      documents := kept + found;
    }

    /** The transcripts no longer on disk lose their rows. */
    method PruneVanished(onDisk: set<Path>)
      requires Valid()
      modifies this`entries
      ensures Valid()
      ensures entries == map p | p in old(entries) && p in onDisk :: old(entries)[p]
    {
      entries := map p | p in entries && p in onDisk :: entries[p];
    }

    /** What `ORDER BY mtime_ns` lists; ties come in any order. */
    method ListOldestFirst() returns (listing: seq<Path>)
      ensures OldestFirst(listing, entries)
    {
      listing := [];
      var rest := entries.Keys;
      while rest != {}
        invariant rest <= entries.Keys
        invariant forall p :: p in listing <==> p in entries && p !in rest
        invariant forall i, j :: 0 <= i < j < |listing| ==> listing[i] != listing[j]
        invariant forall i, j :: 0 <= i < j < |listing| ==> entries[listing[i]].mtime <= entries[listing[j]].mtime
        invariant forall p, q | p in listing && q in rest :: entries[p].mtime <= entries[q].mtime
      {
        OldestExists(entries, rest);
        var p :| p in rest && forall q | q in rest :: entries[p].mtime <= entries[q].mtime;
        listing, rest := listing + [p], rest - {p};
      }
    }

    /**
     Evicts in batches until the index is back under the keep level.  `measure` is what the database
     reports as pages in use, `stopping` whether the thread was asked to stop after so many batches, and
     `failing` whether the database raises then: the batches before are committed, the watermark is not.
     */
    method EnforceSizeLimit(limits: (int, int), measure: map<Path, Entry> -> int, stopping: nat -> bool,
                            failing: nat -> bool)
      returns (gone: seq<Path>, raised: bool)
      requires Valid()
      modifies this
      ensures Valid() && GivesUp(old(entries), entries, gone)
      ensures raised ==> watermark == old(watermark)
      ensures raised ==> exists n: nat :: failing(n)
      ensures !raised ==> (limits.0 <= 0 || measure(old(entries)) <= limits.0 || old(entries) == map[] <==> gone == [])
      ensures gone == [] ==> watermark == old(watermark)
      ensures !raised && gone != [] ==> Evicts(old(entries), entries, watermark, gone)
      ensures !raised && gone != [] && (forall n: nat :: !stopping(n)) ==> measure(entries) <= limits.1 || entries == map[]
      ensures EachBatchWasNeeded(measure, stopping, limits.1, old(entries), gone)
    {
      gone, raised := [], false;
      if limits.0 <= 0 || measure(entries) <= limits.0 {
        NothingGivenUp(entries);
        return;
      }
      var candidates := ListOldestFirst();
      ghost var all := entries;
      var cut := 0;
      var batches: nat := 0;
      var done := false;
      while !done && |gone| < |candidates|
        invariant |gone| <= |candidates| && gone == candidates[..|gone|]
        invariant entries == Without(all, gone)
        invariant cut == Newest(all, gone)
        invariant gone == [] ==> !done
        invariant done ==> measure(entries) <= limits.1 || stopping(batches)
        invariant |gone| == batches * EVICTION_BATCH || |gone| == |candidates| < batches * EVICTION_BATCH
        invariant batches > 0 && !done ==> measure(entries) > limits.1 && !stopping(batches)
        invariant EachBatchWasNeeded(measure, stopping, limits.1, all, gone)
        invariant watermark == old(watermark)
        decreases |candidates| - |gone|, !done
      {
        if failing(batches) {
          CutIsEviction(candidates, all, |gone|);
          return gone, true;
        }
        var batchEnd := if |gone| + EVICTION_BATCH <= |candidates| then |gone| + EVICTION_BATCH else |candidates|;
        var window := candidates[|gone|..batchEnd];
        BatchIsNext(candidates, all, |gone|, batchEnd);
        var newest := NewestOf(window);
        cut := Max(cut, newest);
        OneBatchMore(measure, stopping, limits.1, all, gone, window, batches);
        entries := Without(entries, window);
        gone := gone + window;
        batches := batches + 1;
        done := measure(entries) <= limits.1 || stopping(batches);
      }
      CutIsEviction(candidates, all, |gone|);
      if gone != [] {
        if failing(batches) {
          return gone, true;
        }
        watermark := cut;
      }
    }

    /** The greatest mtime in a window of rows still in the table, and 0 if all are older than that. */
    method NewestOf(window: seq<Path>) returns (newest: int)
      requires forall p | p in window :: p in entries
      ensures newest == Newest(entries, window)
    {
      newest := 0;
      assert window[..0] == [];
      for k := 0 to |window|
        invariant forall p | p in window[..k] :: p in entries
        invariant newest == Newest(entries, window[..k])
      {
        assert window[..k + 1] == window[..k] + [window[k]];
        NewestOfTwo(entries, window[..k], [window[k]]);
        newest := Max(newest, entries[window[k]].mtime);
      }
      assert window[..|window|] == window;
    }
  }

  /** After every batch but the last the index was still over the keep level, and nobody had asked to stop. */
  ghost predicate EachBatchWasNeeded(measure: map<Path, Entry> -> int, stopping: nat -> bool, keep: int,
                                     all: map<Path, Entry>, gone: seq<Path>)
  {
    forall b: nat | 0 < b * EVICTION_BATCH < |gone| ::
      measure(Without(all, gone[..b * EVICTION_BATCH])) > keep && !stopping(b)
  }

  lemma {:induction false} OneBatchMore(measure: map<Path, Entry> -> int, stopping: nat -> bool, keep: int,
                                        all: map<Path, Entry>, gone: seq<Path>, window: seq<Path>, batches: nat)
    requires |gone| == batches * EVICTION_BATCH && |window| <= EVICTION_BATCH
    requires EachBatchWasNeeded(measure, stopping, keep, all, gone)
    requires batches > 0 ==> measure(Without(all, gone)) > keep && !stopping(batches)
    ensures EachBatchWasNeeded(measure, stopping, keep, all, gone + window)
  {
    forall b: nat | 0 < b * EVICTION_BATCH < |gone + window|
      ensures measure(Without(all, (gone + window)[..b * EVICTION_BATCH])) > keep && !stopping(b)
    {
      assert b <= batches;
      assert (gone + window)[..b * EVICTION_BATCH] == gone[..b * EVICTION_BATCH];
      assert b == batches ==> gone[..b * EVICTION_BATCH] == gone;
    }
  }

  lemma {:induction false} BatchIsNext(listing: seq<Path>, all: map<Path, Entry>, n: nat, end: nat)
    requires OldestFirst(listing, all) && n <= end <= |listing|
    ensures forall p | p in listing[..end] :: p in all
    ensures forall p | p in listing[n..end] :: p in Without(all, listing[..n]) && all[p] == Without(all, listing[..n])[p]
    ensures Newest(Without(all, listing[..n]), listing[n..end]) == Newest(all, listing[n..end])
    ensures Newest(all, listing[..n] + listing[n..end]) == Max(Newest(all, listing[..n]), Newest(all, listing[n..end]))
    ensures listing[..n] + listing[n..end] == listing[..end]
    ensures Without(Without(all, listing[..n]), listing[n..end]) == Without(all, listing[..n] + listing[n..end])
  {
    assert listing[..n] + listing[n..end] == listing[..end];
    forall p | p in listing[n..end] ensures p in Without(all, listing[..n]) {
      var k :| n <= k < end && listing[k] == p;
    }
    NewestOfTwo(all, listing[..n], listing[n..end]);
    NewestReadsOnlyTheGone(all, Without(all, listing[..n]), listing[n..end]);
    WithoutInTwo(all, listing[..n], listing[n..end]);
  }

  lemma {:induction false} WithoutInTwo(all: map<Path, Entry>, a: seq<Path>, b: seq<Path>)
    ensures Without(Without(all, a), b) == Without(all, a + b)
  {
  }

  lemma {:induction false} NewestReadsOnlyTheGone(a: map<Path, Entry>, b: map<Path, Entry>, gone: seq<Path>)
    requires forall p | p in gone :: p in a && p in b && a[p] == b[p]
    ensures Newest(a, gone) == Newest(b, gone)
  {
    if gone != [] {
      NewestReadsOnlyTheGone(a, b, gone[1..]);
    }
  }

  /** Giving up the first n of the listing is an eviction, of everything if that is the whole listing. */
  lemma {:induction false} CutIsEviction(listing: seq<Path>, all: map<Path, Entry>, n: nat)
    requires OldestFirst(listing, all) && n <= |listing|
    ensures forall p | p in listing[..n] :: p in all
    ensures GivesUp(all, Without(all, listing[..n]), listing[..n])
    ensures 0 < n ==> Evicts(all, Without(all, listing[..n]), Newest(all, listing[..n]), listing[..n])
    ensures n == 0 ==> Without(all, listing[..n]) == all
    ensures n == |listing| ==> Without(all, listing[..n]) == map[]
    ensures listing == [] <==> all == map[]
  {
    if listing != [] {
      assert listing[0] in all;
    }
    if all != map[] {
      var p :| p in all;
      assert p in listing;
    }
    assert n == |listing| ==> listing[..n] == listing;
    assert n == 0 ==> listing[..n] == [];
    assert forall k :: 0 <= k < n ==> listing[..n][k] == listing[k];
    forall p, q | p in listing[..n] && q in Without(all, listing[..n]) ensures all[p].mtime <= all[q].mtime {
      var i :| 0 <= i < n && listing[i] == p;
      var j :| 0 <= j < |listing| && listing[j] == q;
    }
  }

  lemma {:induction false} NothingGivenUp(all: map<Path, Entry>)
    ensures GivesUp(all, all, [])
  {
    assert Without(all, []) == all;
  }

  lemma {:induction false} NothingInFront(found: seq<Document>)
    ensures [] + found == found
  {
  }

  lemma {:induction false} LastRowIsTail(rows: seq<Document>, tail: Document)
    requires rows != [] && Ordered(rows) && tail in rows && forall d | d in rows :: d.lineNo <= tail.lineNo
    ensures tail == rows[|rows| - 1]
  {
    assert rows[|rows| - 1] in rows;
  }

  lemma {:induction false} OldestExists(entries: map<Path, Entry>, rest: set<Path>)
    requires rest != {} && rest <= entries.Keys
    ensures exists p :: p in rest && forall q | q in rest :: entries[p].mtime <= entries[q].mtime
  {
    var x :| x in rest;
    if rest != {x} {
      OldestExists(entries, rest - {x});
      var p :| p in rest - {x} && forall q | q in rest - {x} :: entries[p].mtime <= entries[q].mtime;
      var oldest := if entries[x].mtime <= entries[p].mtime then x else p;
      assert oldest in rest && forall q | q in rest :: entries[oldest].mtime <= entries[q].mtime;
    }
  }
}

/**
 Versions of files' texts: written seconds apart and carrying on from each other they fold into one, and
 each file keeps its newest versions while each root keeps its newest bytes.  The table is its rows in
 the order of their ids; equal hashes stand for equal texts.
 */
module FileHistory {
  import opened Wrappers

  const MAX_BYTES_PER_ROOT: nat := 512 * 1024 * 1024
  const MAX_VERSIONS_PER_FILE: nat := 100
  const COALESCE_SECONDS: real := 10.0

  datatype File = File(root: string, path: string)

  datatype Source = Manual | External | Opened | Refused | Other(name: string)

  datatype Version = Version(id: nat, file: File, content: string, source: Source, capturedAt: real)

  /** The rows, and the id the next insert gets: ids are never used twice. */
  datatype Table = Table(rows: seq<Version>, nextId: nat)

  function CharBytes(c: char): nat {
    if c < '\U{80}' then 1 else if c < '\U{800}' then 2 else if c < '\U{10000}' then 3 else 4
  }

  /** The length of a text in UTF-8. */
  function ByteSize(content: string): nat {
    if content == [] then 0 else CharBytes(content[0]) + ByteSize(content[1..])
  }

  // ---- sums and selections over the rows ----

  type Weight = Version -> nat

  function Total(weight: Weight, rows: seq<Version>): nat {
    if rows == [] then 0 else weight(rows[0]) + Total(weight, rows[1..])
  }

  function OfFile(file: File): Weight {
    (v: Version) => if v.file == file then 1 else 0
  }

  function BytesOf(root: string): Weight {
    (v: Version) => if v.file.root == root then ByteSize(v.content) else 0
  }

  /** Decides about the first of some rows, given those that are newer. */
  type Drop = seq<Version> -> bool

  /** The rows without those a deletion drops. */
  function Sift(drop: Drop, rows: seq<Version>): seq<Version> {
    if rows == [] then []
    else if drop(rows) then Sift(drop, rows[1..])
    else [rows[0]] + Sift(drop, rows[1..])
  }

  /** A version of the file with as many newer versions of it as are kept. */
  function OverCount(file: File, cap: nat): Drop {
    (rows: seq<Version>) => rows != [] && rows[0].file == file && Total(OfFile(file), rows[1..]) >= cap
  }

  /** A version of the root with which the newer ones hold too many bytes. */
  function OverBytes(root: string): Drop {
    (rows: seq<Version>) => rows != [] && rows[0].file.root == root && Total(BytesOf(root), rows) > MAX_BYTES_PER_ROOT
  }

  /** The rows from the one with this id on. */
  function From(rows: seq<Version>, id: nat): (from: seq<Version>)
    ensures from != [] ==> from[0].id == id
  {
    if rows == [] || rows[0].id == id then rows else From(rows[1..], id)
  }

  function Latest(rows: seq<Version>, file: File): (latest: Option<Version>)
    ensures latest.Some? ==> latest.value.file == file && latest.value in rows
  {
    if rows == [] then None
    else
      var later := Latest(rows[1..], file);
      if later.Some? then later else if rows[0].file == file then Some(rows[0]) else None
  }

  function Replace(rows: seq<Version>, version: Version): seq<Version> {
    if rows == [] then []
    else if rows[0].id == version.id then [version] + rows[1..]
    else [rows[0]] + Replace(rows[1..], version)
  }

  function DeleteOldest(rows: seq<Version>, root: string): seq<Version> {
    if rows == [] then []
    else if rows[0].file.root == root then rows[1..]
    else [rows[0]] + DeleteOldest(rows[1..], root)
  }

  // ---- recording ----

  function Trimmed(cap: nat, file: File, rows: seq<Version>): seq<Version> {
    Sift(OverBytes(file.root), Sift(OverCount(file, cap), rows))
  }

  predicate IsRecentManual(latest: Version, now: real) {
    latest.source == Manual && now - latest.capturedAt < COALESCE_SECONDS
  }

  predicate Continues(previous: string, content: string) {
    previous <= content
  }

  /** A version that a new text carries on from, so that the text takes its place. */
  predicate Folds(latest: Option<Version>, content: string, source: Source, now: real) {
    latest.Some? && source == Manual && IsRecentManual(latest.value, now) && Continues(latest.value.content, content)
  }

  /** The text entered into the table, and the id of its version; nothing is deleted yet. */
  function Entered(table: Table, file: File, content: string, source: Source, now: real): (Table, nat) {
    var latest := Latest(table.rows, file);
    if Folds(latest, content, source, now) then
      var version := latest.value.(content := content, capturedAt := now);
      (table.(rows := Replace(table.rows, version)), version.id)
    else
      (Table(table.rows + [Version(table.nextId, file, content, source, now)], table.nextId + 1), table.nextId)
  }

  predicate IsLatest(table: Table, file: File, content: string) {
    Latest(table.rows, file).Some? && Latest(table.rows, file).value.content == content
  }

  /** The table after a text is recorded, and the id of the version that holds it. */
  function Recorded(cap: nat, table: Table, file: File, content: string, source: Source, now: real): (Table, nat) {
    if IsLatest(table, file, content) then (table, Latest(table.rows, file).value.id)
    else
      var (entered, id) := Entered(table, file, content, source, now);
      (entered.(rows := Trimmed(cap, file, entered.rows)), id)
  }

  function Observed(cap: nat, table: Table, file: File, content: string, now: real): (Table, nat) {
    Recorded(cap, table, file, content, if Latest(table.rows, file).Some? then External else Opened, now)
  }

  function Written(cap: nat, table: Table, file: File, previous: string, content: string, now: real): (Table, nat) {
    Recorded(cap, Observed(cap, table, file, previous, now).0, file, content, Manual, now)
  }

  /** A cap that is missing or zero means the default. */
  function Cap(given: Option<nat>): (cap: nat)
    ensures cap > 0
  {
    if given.Some? && given.value > 0 then given.value else MAX_VERSIONS_PER_FILE
  }

  class FileHistoryService {
    const maxVersionsPerFile: nat
    var rows: seq<Version>
    var nextId: nat

    constructor (maxVersionsPerFile: Option<nat>)
      ensures this.maxVersionsPerFile == Cap(maxVersionsPerFile) && rows == [] && nextId == 1
    {
      this.maxVersionsPerFile := if maxVersionsPerFile.None? || maxVersionsPerFile.value == 0
                                 then MAX_VERSIONS_PER_FILE else maxVersionsPerFile.value;
      rows, nextId := [], 1;
    }

    method Trim(file: File)
      modifies this`rows
      ensures rows == Trimmed(maxVersionsPerFile, file, old(rows))
    {
      rows := Sift(OverCount(file, maxVersionsPerFile), rows);
      ghost var counted := rows;
      while Total(BytesOf(file.root), rows) > MAX_BYTES_PER_ROOT
        invariant Sift(OverBytes(file.root), rows) == Sift(OverBytes(file.root), counted)
        decreases |rows|
      {
        DeletingOldestSifts(rows, file.root);
        rows := DeleteOldest(rows, file.root);
      }
      NothingOverBytes(rows, file.root);
    }

    method RecordSnapshot(file: File, content: string, source: Source, now: real) returns (id: nat)
      modifies this
      ensures (Table(rows, nextId), id) == Recorded(maxVersionsPerFile, Table(old(rows), old(nextId)), file, content, source, now)
    {
      var latest := Latest(rows, file);
      if latest.Some? && latest.value.content == content {
        return latest.value.id;
      }
      if Folds(latest, content, source, now) {
        id := latest.value.id;
        rows := Replace(rows, latest.value.(content := content, capturedAt := now));
      } else {
        id := nextId;
        rows, nextId := rows + [Version(id, file, content, source, now)], nextId + 1;
      }
      Trim(file);
    }

    method ObserveFile(file: File, content: string, now: real) returns (id: nat)
      modifies this
      ensures (Table(rows, nextId), id) == Observed(maxVersionsPerFile, Table(old(rows), old(nextId)), file, content, now)
    {
      var latest := Latest(rows, file);
      if latest.Some? && latest.value.content == content {
        return latest.value.id;
      }
      id := RecordSnapshot(file, content, if latest.Some? then External else Opened, now);
    }

    method RecordWrite(file: File, previous: string, content: string, now: real) returns (id: nat)
      modifies this
      ensures (Table(rows, nextId), id)
           == Written(maxVersionsPerFile, Table(old(rows), old(nextId)), file, previous, content, now)
    {
      var _ := ObserveFile(file, previous, now);
      id := RecordSnapshot(file, content, Manual, now);
    }
  }

  lemma {:induction false} DeletingOldestSifts(rows: seq<Version>, root: string)
    requires Total(BytesOf(root), rows) > MAX_BYTES_PER_ROOT
    ensures Sift(OverBytes(root), DeleteOldest(rows, root)) == Sift(OverBytes(root), rows)
    ensures |DeleteOldest(rows, root)| < |rows|
    decreases |rows|
  {
    if rows[0].file.root != root {
      var deleted := DeleteOldest(rows[1..], root);
      DeletingOldestSifts(rows[1..], root);
      assert DeleteOldest(rows, root)[1..] == deleted;
    }
  }

  lemma {:induction false} NothingOverBytes(rows: seq<Version>, root: string)
    requires Total(BytesOf(root), rows) <= MAX_BYTES_PER_ROOT
    ensures Sift(OverBytes(root), rows) == rows
    decreases |rows|
  {
    if rows != [] {
      NothingOverBytes(rows[1..], root);
    }
  }
}

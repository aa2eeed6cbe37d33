/**
 What the file history keeps: its caps hold after every recording, a version is deleted exactly when newer
 ones crowd it out, and until then every text recorded can be read back from the version that took it.
 */
module FileHistoryRetention {
  import opened Wrappers
  import opened FileHistory

  /** Ids ascend from `floor` on and stay below `ceiling`. */
  ghost predicate Between(rows: seq<Version>, floor: nat, ceiling: nat) {
    rows == [] || (floor <= rows[0].id < ceiling && Between(rows[1..], rows[0].id + 1, ceiling))
  }

  ghost predicate IdsAscend(table: Table) {
    Between(table.rows, 0, table.nextId)
  }

  // ---- selections ----

  lemma {:induction false} TotalSifted(weight: Weight, drop: Drop, rows: seq<Version>)
    ensures Total(weight, Sift(drop, rows)) <= Total(weight, rows)
    decreases |rows|
  {
    if rows != [] {
      TotalSifted(weight, drop, rows[1..]);
      assert !drop(rows) ==> Sift(drop, rows)[1..] == Sift(drop, rows[1..]);
    }
  }

  lemma {:induction false} SiftAscends(drop: Drop, rows: seq<Version>, floor: nat, ceiling: nat)
    requires Between(rows, floor, ceiling)
    ensures Between(Sift(drop, rows), floor, ceiling)
    decreases |rows|
  {
    if rows != [] {
      SiftAscends(drop, rows[1..], rows[0].id + 1, ceiling);
      assert !drop(rows) ==> Sift(drop, rows)[1..] == Sift(drop, rows[1..]);
    }
  }

  lemma {:induction false} BelowFloorAbsent(rows: seq<Version>, floor: nat, ceiling: nat, id: nat)
    requires Between(rows, floor, ceiling) && id < floor
    ensures From(rows, id) == []
    decreases |rows|
  {
    if rows != [] {
      BelowFloorAbsent(rows[1..], rows[0].id + 1, ceiling, id);
    }
  }

  /** Whether a selection drops a row is decided by that row and the newer ones. */
  lemma {:induction false} SiftedFrom(drop: Drop, rows: seq<Version>, floor: nat, ceiling: nat, id: nat)
    requires Between(rows, floor, ceiling)
    ensures var from := From(rows, id);
            From(Sift(drop, rows), id) == if from == [] || drop(from) then [] else Sift(drop, from)
    decreases |rows|
  {
    if rows != [] {
      var rest := Sift(drop, rows[1..]);
      if rows[0].id == id {
        SiftAscends(drop, rows[1..], id + 1, ceiling);
        BelowFloorAbsent(rest, id + 1, ceiling, id);
      } else {
        SiftedFrom(drop, rows[1..], rows[0].id + 1, ceiling, id);
        assert !drop(rows) ==> Sift(drop, rows)[1..] == rest;
      }
    }
  }

  /**
   Trimming deletes a version exactly when the file has as many newer versions as are kept, or when, of the
   versions left after that, it and the newer ones of its root hold more bytes than are kept.
   */
  lemma {:induction false} TrimKeepsExactly(cap: nat, file: File, rows: seq<Version>, ceiling: nat, id: nat)
    requires Between(rows, 0, ceiling) && From(rows, id) != []
    ensures var from, kept := From(rows, id), From(Trimmed(cap, file, rows), id);
            && (kept != [] <==>
                  && (from[0].file == file ==> Total(OfFile(file), from[1..]) < cap)
                  && (from[0].file.root == file.root ==>
                        Total(BytesOf(file.root), Sift(OverCount(file, cap), from)) <= MAX_BYTES_PER_ROOT))
            && (kept != [] ==> kept[0] == from[0] && kept == Trimmed(cap, file, from))
  {
    var from, count, bytes := From(rows, id), OverCount(file, cap), OverBytes(file.root);
    var counted := Sift(count, rows);
    SiftedFrom(count, rows, 0, ceiling, id);
    SiftAscends(count, rows, 0, ceiling);
    SiftedFrom(bytes, counted, 0, ceiling, id);
  }

  // ---- the caps ----

  ghost predicate WithinCaps(cap: nat, rows: seq<Version>) {
    && (forall file :: Total(OfFile(file), rows) <= cap)
    && (forall root :: Total(BytesOf(root), rows) <= MAX_BYTES_PER_ROOT)
  }

  lemma {:induction false} SiftedWithinCount(file: File, cap: nat, rows: seq<Version>)
    ensures Total(OfFile(file), Sift(OverCount(file, cap), rows)) <= cap
    decreases |rows|
  {
    if rows != [] {
      SiftedWithinCount(file, cap, rows[1..]);
      if !OverCount(file, cap)(rows) {
        TotalSifted(OfFile(file), OverCount(file, cap), rows[1..]);
      }
    }
  }

  lemma {:induction false} SiftedWithinBytes(root: string, rows: seq<Version>)
    ensures Total(BytesOf(root), Sift(OverBytes(root), rows)) <= MAX_BYTES_PER_ROOT
    decreases |rows|
  {
    if rows != [] {
      SiftedWithinBytes(root, rows[1..]);
      if !OverBytes(root)(rows) {
        TotalSifted(BytesOf(root), OverBytes(root), rows);
      }
    }
  }

  lemma {:induction false} TotalTrimmed(weight: Weight, cap: nat, file: File, rows: seq<Version>)
    ensures Total(weight, Trimmed(cap, file, rows)) <= Total(weight, rows)
  {
    TotalSifted(weight, OverCount(file, cap), rows);
    TotalSifted(weight, OverBytes(file.root), Sift(OverCount(file, cap), rows));
  }

  lemma {:induction false} TrimmedWithinCaps(cap: nat, file: File, rows: seq<Version>)
    ensures Total(OfFile(file), Trimmed(cap, file, rows)) <= cap
    ensures Total(BytesOf(file.root), Trimmed(cap, file, rows)) <= MAX_BYTES_PER_ROOT
  {
    var counted := Sift(OverCount(file, cap), rows);
    SiftedWithinCount(file, cap, rows);
    TotalSifted(OfFile(file), OverBytes(file.root), counted);
    SiftedWithinBytes(file.root, counted);
  }

  // ---- entering a text ----

  lemma {:induction false} TotalOneMore(weight: Weight, rows: seq<Version>, last: Version)
    ensures Total(weight, rows + [last]) == Total(weight, rows) + weight(last)
    decreases |rows|
  {
    if rows == [] {
      assert rows + [last] == [last] && [last][1..] == [];
    } else {
      assert (rows + [last])[1..] == rows[1..] + [last];
      TotalOneMore(weight, rows[1..], last);
    }
  }

  lemma {:induction false} TotalReplaced(weight: Weight, rows: seq<Version>, version: Version)
    requires From(rows, version.id) != []
    ensures Total(weight, Replace(rows, version)) + weight(From(rows, version.id)[0])
         == Total(weight, rows) + weight(version)
    decreases |rows|
  {
    if rows[0].id == version.id {
      assert ([version] + rows[1..])[1..] == rows[1..];
    } else {
      TotalReplaced(weight, rows[1..], version);
      assert Replace(rows, version)[1..] == Replace(rows[1..], version);
    }
  }

  lemma {:induction false} OneMoreAscends(rows: seq<Version>, last: Version, floor: nat)
    requires Between(rows, floor, last.id) && floor <= last.id
    ensures Between(rows + [last], floor, last.id + 1)
    decreases |rows|
  {
    if rows == [] {
      assert rows + [last] == [last] && [last][1..] == [];
    } else {
      assert (rows + [last])[1..] == rows[1..] + [last];
      OneMoreAscends(rows[1..], last, rows[0].id + 1);
    }
  }

  lemma {:induction false} ReplacedAscends(rows: seq<Version>, version: Version, floor: nat, ceiling: nat)
    requires Between(rows, floor, ceiling)
    ensures Between(Replace(rows, version), floor, ceiling)
    decreases |rows|
  {
    if rows != [] {
      if rows[0].id == version.id {
        assert ([version] + rows[1..])[1..] == rows[1..];
      } else {
        ReplacedAscends(rows[1..], version, rows[0].id + 1, ceiling);
        assert Replace(rows, version)[1..] == Replace(rows[1..], version);
      }
    }
  }

  lemma {:induction false} FromOneMore(rows: seq<Version>, last: Version, id: nat)
    ensures From(rows + [last], id)
         == if From(rows, id) == [] then (if last.id == id then [last] else []) else From(rows, id) + [last]
    decreases |rows|
  {
    if rows == [] {
      assert rows + [last] == [last] && [last][1..] == [];
    } else {
      assert (rows + [last])[1..] == rows[1..] + [last];
      if rows[0].id != id {
        FromOneMore(rows[1..], last, id);
      }
    }
  }

  lemma {:induction false} FromReplaced(rows: seq<Version>, version: Version, id: nat)
    ensures From(Replace(rows, version), id) == Replace(From(rows, id), version)
         || (From(rows, id) != [] && From(Replace(rows, version), id) == From(rows, id) && version.id != id)
    decreases |rows|
  {
    if rows != [] {
      var replaced := Replace(rows, version);
      if rows[0].id != id {
        if rows[0].id == version.id {
          assert replaced[1..] == rows[1..];
        } else {
          assert replaced[1..] == Replace(rows[1..], version);
          FromReplaced(rows[1..], version, id);
        }
      }
    }
  }

  /** The latest version is a row of the table, and no newer one is of its file. */
  lemma {:induction false} LatestIsFound(rows: seq<Version>, file: File, floor: nat, ceiling: nat)
    requires Between(rows, floor, ceiling) && Latest(rows, file).Some?
    ensures var latest := Latest(rows, file).value;
            && latest.id >= floor
            && From(rows, latest.id) != [] && From(rows, latest.id)[0] == latest
            && Total(OfFile(file), From(rows, latest.id)[1..]) == 0
    decreases |rows|
  {
    if Latest(rows[1..], file).Some? {
      LatestIsFound(rows[1..], file, rows[0].id + 1, ceiling);
    } else {
      NoneOfFile(rows[1..], file);
    }
  }

  lemma {:induction false} NoneOfFile(rows: seq<Version>, file: File)
    requires Latest(rows, file).None?
    ensures Total(OfFile(file), rows) == 0
    decreases |rows|
  {
    if rows != [] {
      NoneOfFile(rows[1..], file);
    }
  }

  lemma {:induction false} EnteredAscends(table: Table, file: File, content: string, source: Source, now: real)
    requires IdsAscend(table)
    ensures IdsAscend(Entered(table, file, content, source, now).0)
  {
    var latest := Latest(table.rows, file);
    if Folds(latest, content, source, now) {
      ReplacedAscends(table.rows, latest.value.(content := content, capturedAt := now), 0, table.nextId);
    } else {
      OneMoreAscends(table.rows, Version(table.nextId, file, content, source, now), 0);
    }
  }

  lemma {:induction false} RecordedAscends(cap: nat, table: Table, file: File, content: string, source: Source, now: real)
    requires IdsAscend(table)
    ensures IdsAscend(Recorded(cap, table, file, content, source, now).0)
  {
    var entered := Entered(table, file, content, source, now).0;
    EnteredAscends(table, file, content, source, now);
    SiftAscends(OverCount(file, cap), entered.rows, 0, entered.nextId);
    SiftAscends(OverBytes(file.root), Sift(OverCount(file, cap), entered.rows), 0, entered.nextId);
  }

  /** What a text entered adds to a sum over the rows. */
  function Added(weight: Weight, file: File, content: string): nat {
    weight(Version(0, file, content, Manual, 0.0))
  }

  /** A sum that looks only at files and texts. */
  ghost predicate ByFileAndText(weight: Weight) {
    forall v: Version, w: Version :: v.file == w.file && v.content == w.content ==> weight(v) == weight(w)
  }

  lemma {:induction false} TotalReplacedAtMost(weight: Weight, rows: seq<Version>, version: Version)
    ensures Total(weight, Replace(rows, version)) <= Total(weight, rows) + weight(version)
    decreases |rows|
  {
    if rows != [] {
      if rows[0].id == version.id {
        assert ([version] + rows[1..])[1..] == rows[1..];
      } else {
        TotalReplacedAtMost(weight, rows[1..], version);
        assert Replace(rows, version)[1..] == Replace(rows[1..], version);
      }
    }
  }

  lemma {:induction false} TotalEntered(weight: Weight, table: Table, file: File, content: string, source: Source, now: real)
    requires ByFileAndText(weight) && IdsAscend(table)
    ensures Total(weight, Entered(table, file, content, source, now).0.rows)
         <= Total(weight, table.rows) + Added(weight, file, content)
  {
    var latest := Latest(table.rows, file);
    if Folds(latest, content, source, now) {
      TotalReplacedAtMost(weight, table.rows, latest.value.(content := content, capturedAt := now));
    } else {
      TotalOneMore(weight, table.rows, Version(table.nextId, file, content, source, now));
    }
  }

  /** After every recording each file is within its versions and each root within its bytes. */
  lemma {:induction false} RecordedWithinCaps(cap: nat, table: Table, file: File, content: string, source: Source, now: real)
    requires IdsAscend(table) && WithinCaps(cap, table.rows)
    ensures WithinCaps(cap, Recorded(cap, table, file, content, source, now).0.rows)
  {
    var entered := Entered(table, file, content, source, now).0;
    var after := Trimmed(cap, file, entered.rows);
    TrimmedWithinCaps(cap, file, entered.rows);
    forall other ensures Total(OfFile(other), after) <= cap {
      if other != file {
        TotalEntered(OfFile(other), table, file, content, source, now);
        TotalTrimmed(OfFile(other), cap, file, entered.rows);
      }
    }
    forall root ensures Total(BytesOf(root), after) <= MAX_BYTES_PER_ROOT {
      if root != file.root {
        TotalEntered(BytesOf(root), table, file, content, source, now);
        TotalTrimmed(BytesOf(root), cap, file, entered.rows);
      }
    }
  }

  // ---- what stays readable ----

  /** The version with this id holds a text of the file that begins with the given text. */
  predicate Holds(table: Table, id: nat, file: File, text: string) {
    var from := From(table.rows, id);
    from != [] && from[0].file == file && text <= from[0].content
  }

  function NewerOfFile(table: Table, id: nat, file: File): nat
    requires From(table.rows, id) != []
  {
    Total(OfFile(file), From(table.rows, id)[1..])
  }

  function BytesSince(table: Table, id: nat, root: string): nat {
    Total(BytesOf(root), From(table.rows, id))
  }

  /** A text just recorded is the text of its version, if the version and the newer ones of its root fit. */
  lemma {:induction false} EnteredHolds(table: Table, file: File, content: string, source: Source, now: real)
    requires IdsAscend(table)
    ensures var (entered, id) := Entered(table, file, content, source, now);
            && From(entered.rows, id) != [] && From(entered.rows, id)[0].file == file
            && From(entered.rows, id)[0].content == content
            && NewerOfFile(entered, id, file) == 0
  {
    var latest := Latest(table.rows, file);
    if Folds(latest, content, source, now) {
      var id := latest.value.id;
      var version := latest.value.(content := content, capturedAt := now);
      LatestIsFound(table.rows, file, 0, table.nextId);
      FromReplaced(table.rows, version, id);
      assert Replace(From(table.rows, id), version)[1..] == From(table.rows, id)[1..];
    } else {
      var version := Version(table.nextId, file, content, source, now);
      FromOneMore(table.rows, version, table.nextId);
      AboveCeilingAbsent(table.rows, 0, table.nextId, table.nextId);
      assert [version][1..] == [];
    }
  }

  lemma {:induction false} AboveCeilingAbsent(rows: seq<Version>, floor: nat, ceiling: nat, id: nat)
    requires Between(rows, floor, ceiling) && id >= ceiling
    ensures From(rows, id) == []
    decreases |rows|
  {
    if rows != [] {
      AboveCeilingAbsent(rows[1..], rows[0].id + 1, ceiling, id);
    }
  }

  /**
   The text recorded is the text of the version returned, unless that version and the newer ones of its root
   alone are over the root's bytes.
   */
  lemma {:induction false} RecordedIsHeld(cap: nat, table: Table, file: File, content: string, source: Source, now: real)
    requires IdsAscend(table) && cap > 0 && !IsLatest(table, file, content)
    ensures var (entered, id) := Entered(table, file, content, source, now);
            var after := Recorded(cap, table, file, content, source, now);
            && after.1 == id
            && (From(after.0.rows, id) != [] <==>
                  Total(BytesOf(file.root), Sift(OverCount(file, cap), From(entered.rows, id))) <= MAX_BYTES_PER_ROOT)
            && (From(after.0.rows, id) != [] ==>
                  From(after.0.rows, id)[0].file == file && From(after.0.rows, id)[0].content == content)
  {
    var (entered, id) := Entered(table, file, content, source, now);
    EnteredHolds(table, file, content, source, now);
    EnteredAscends(table, file, content, source, now);
    TrimKeepsExactly(cap, file, entered.rows, entered.nextId, id);
  }

  /** Entering a text leaves every version holding what it held. */
  lemma {:induction false} EnteredKeeps(table: Table, file: File, content: string, source: Source, now: real, id: nat)
    requires IdsAscend(table) && From(table.rows, id) != []
    ensures var from, after := From(table.rows, id), From(Entered(table, file, content, source, now).0.rows, id);
            && after != [] && after[0].file == from[0].file && from[0].content <= after[0].content
            && Total(OfFile(from[0].file), after[1..])
               <= Total(OfFile(from[0].file), from[1..]) + Added(OfFile(from[0].file), file, content)
            && Total(BytesOf(from[0].file.root), after)
               <= Total(BytesOf(from[0].file.root), from) + Added(BytesOf(from[0].file.root), file, content)
  {
    var latest, from := Latest(table.rows, file), From(table.rows, id);
    var count, bytes := OfFile(from[0].file), BytesOf(from[0].file.root);
    if Folds(latest, content, source, now) {
      var version := latest.value.(content := content, capturedAt := now);
      FromReplaced(table.rows, version, id);
      TotalReplacedAtMost(bytes, from, version);
      if version.id == id {
        LatestIsFound(table.rows, file, 0, table.nextId);
        assert Replace(from, version)[1..] == from[1..];
      } else {
        assert Replace(from, version)[1..] == Replace(from[1..], version);
        TotalReplacedAtMost(count, from[1..], version);
      }
    } else {
      var version := Version(table.nextId, file, content, source, now);
      AboveCeilingAbsent(table.rows, 0, table.nextId, table.nextId);
      FromOneMore(table.rows, version, id);
      assert (from + [version])[1..] == from[1..] + [version];
      TotalOneMore(count, from[1..], version);
      TotalOneMore(bytes, from, version);
    }
  }

  /** A version with room left under both caps stays, and goes on holding what it held. */
  lemma {:induction false} RecordedKeeps(cap: nat, table: Table, file: File, content: string, source: Source, now: real,
                                         id: nat, held: File, text: string)
    requires IdsAscend(table) && Holds(table, id, held, text)
    requires NewerOfFile(table, id, held) + Added(OfFile(held), file, content) < cap
    requires BytesSince(table, id, held.root) + Added(BytesOf(held.root), file, content) <= MAX_BYTES_PER_ROOT
    ensures var after := Recorded(cap, table, file, content, source, now).0;
            && Holds(after, id, held, text)
            && NewerOfFile(after, id, held) <= NewerOfFile(table, id, held) + Added(OfFile(held), file, content)
            && BytesSince(after, id, held.root) <= BytesSince(table, id, held.root) + Added(BytesOf(held.root), file, content)
  {
    if !IsLatest(table, file, content) {
      var entered := Entered(table, file, content, source, now).0;
      var from := From(entered.rows, id);
      EnteredKeeps(table, file, content, source, now, id);
      EnteredAscends(table, file, content, source, now);
      TrimKeepsExactly(cap, file, entered.rows, entered.nextId, id);
      TotalSifted(BytesOf(file.root), OverCount(file, cap), from);
      TrimmedRest(cap, file, from);
      TotalTrimmed(OfFile(held), cap, file, from[1..]);
      TotalTrimmed(BytesOf(held.root), cap, file, from);
    }
  }

  lemma {:induction false} TrimmedRest(cap: nat, file: File, rows: seq<Version>)
    requires rows != []
    requires !OverCount(file, cap)(rows) && !OverBytes(file.root)(Sift(OverCount(file, cap), rows))
    ensures Trimmed(cap, file, rows) != [] && Trimmed(cap, file, rows)[1..] == Trimmed(cap, file, rows[1..])
  {
  }

  // ---- runs ----

  datatype Write = Write(file: File, content: string, source: Source, now: real)

  function Run(cap: nat, table: Table, writes: seq<Write>): Table
    decreases |writes|
  {
    if writes == [] then table
    else
      var w := writes[0];
      Run(cap, Recorded(cap, table, w.file, w.content, w.source, w.now).0, writes[1..])
  }

  /** What a run of recordings adds at most to a sum over the rows. */
  function AddedByAll(weight: Weight, writes: seq<Write>): nat {
    if writes == [] then 0 else Added(weight, writes[0].file, writes[0].content) + AddedByAll(weight, writes[1..])
  }

  lemma {:induction false} RunAscends(cap: nat, table: Table, writes: seq<Write>)
    requires IdsAscend(table)
    ensures IdsAscend(Run(cap, table, writes))
    decreases |writes|
  {
    if writes != [] {
      var w := writes[0];
      RecordedAscends(cap, table, w.file, w.content, w.source, w.now);
      RunAscends(cap, Recorded(cap, table, w.file, w.content, w.source, w.now).0, writes[1..]);
    }
  }

  lemma {:induction false} RunWithinCaps(cap: nat, table: Table, writes: seq<Write>)
    requires IdsAscend(table) && WithinCaps(cap, table.rows)
    ensures IdsAscend(Run(cap, table, writes)) && WithinCaps(cap, Run(cap, table, writes).rows)
    decreases |writes|
  {
    if writes != [] {
      var w := writes[0];
      RecordedAscends(cap, table, w.file, w.content, w.source, w.now);
      RecordedWithinCaps(cap, table, w.file, w.content, w.source, w.now);
      RunWithinCaps(cap, Recorded(cap, table, w.file, w.content, w.source, w.now).0, writes[1..]);
    }
  }

  /**
   However many texts are recorded after it, a text stays readable from the version that took it as long as
   fewer than `cap` versions of its file and no more bytes of its root than are kept can have come after.
   */
  lemma {:induction false} TextStaysReadable(cap: nat, table: Table, writes: seq<Write>, id: nat, held: File, text: string)
    requires IdsAscend(table) && Holds(table, id, held, text)
    requires NewerOfFile(table, id, held) + AddedByAll(OfFile(held), writes) < cap
    requires BytesSince(table, id, held.root) + AddedByAll(BytesOf(held.root), writes) <= MAX_BYTES_PER_ROOT
    ensures Holds(Run(cap, table, writes), id, held, text)
    decreases |writes|
  {
    if writes != [] {
      var w := writes[0];
      RecordedKeeps(cap, table, w.file, w.content, w.source, w.now, id, held, text);
      RecordedAscends(cap, table, w.file, w.content, w.source, w.now);
      TextStaysReadable(cap, Recorded(cap, table, w.file, w.content, w.source, w.now).0, writes[1..], id, held, text);
    }
  }
}

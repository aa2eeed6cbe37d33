/**
 What recording a text does to the table, said by the newest version of the file: nothing, a change of that
 version, or a version of its own.  What is deleted afterwards is the business of the retention.
 */
module FileHistoryRecording {
  import opened Wrappers
  import opened FileHistory
  import opened FileHistoryRetention

  /** No version of the file has a greater id. */
  ghost predicate IsNewest(rows: seq<Version>, file: File, v: Version) {
    v in rows && v.file == file && forall w | w in rows && w.file == file :: w.id <= v.id
  }

  ghost predicate HasNone(rows: seq<Version>, file: File) {
    forall v | v in rows :: v.file != file
  }

  /** Someone typing on: a manual version less than COALESCE_SECONDS old, and a text that begins with its text. */
  predicate CarriesOn(newest: Version, content: string, source: Source, now: real) {
    && source == Manual && newest.source == Manual
    && now - newest.capturedAt < COALESCE_SECONDS
    && |newest.content| <= |content| && content[..|newest.content|] == newest.content
  }

  lemma {:induction false} RowsAreBetween(rows: seq<Version>, floor: nat, ceiling: nat)
    requires Between(rows, floor, ceiling)
    ensures forall v | v in rows :: floor <= v.id < ceiling
  {
    if rows != [] {
      RowsAreBetween(rows[1..], rows[0].id + 1, ceiling);
      forall v | v in rows ensures floor <= v.id < ceiling {
        assert v == rows[0] || v in rows[1..];
      }
    }
  }

  lemma {:induction false} LatestIsNewest(rows: seq<Version>, file: File, floor: nat, ceiling: nat)
    requires Between(rows, floor, ceiling)
    ensures match Latest(rows, file)
            case Some(latest) => IsNewest(rows, file, latest)
            case None => HasNone(rows, file)
  {
    if rows != [] {
      LatestIsNewest(rows[1..], file, rows[0].id + 1, ceiling);
      RowsAreBetween(rows[1..], rows[0].id + 1, ceiling);
      assert forall v | v in rows :: v == rows[0] || v in rows[1..];
    }
  }

  lemma {:induction false} SiftOnlyDrops(drop: Drop, rows: seq<Version>)
    ensures forall v | v in Sift(drop, rows) :: v in rows
  {
    if rows != [] {
      SiftOnlyDrops(drop, rows[1..]);
    }
  }

  lemma {:induction false} ReplaceChangesOne(rows: seq<Version>, version: Version, floor: nat, ceiling: nat)
    requires Between(rows, floor, ceiling)
    ensures forall v | v in Replace(rows, version) :: v == version || (v in rows && v.id != version.id)
  {
    if rows != [] {
      RowsAreBetween(rows[1..], rows[0].id + 1, ceiling);
      if rows[0].id != version.id {
        ReplaceChangesOne(rows[1..], version, rows[0].id + 1, ceiling);
      }
    }
  }

  /** The newest version is one only. */
  lemma {:induction false} NewestIsLatest(table: Table, file: File, newest: Version)
    requires IdsAscend(table) && IsNewest(table.rows, file, newest)
    ensures Latest(table.rows, file) == Some(newest)
  {
    LatestIsNewest(table.rows, file, 0, table.nextId);
    SameIdSameRow(table.rows, 0, table.nextId, newest, Latest(table.rows, file).value);
  }

  lemma {:induction false} SameIdSameRow(rows: seq<Version>, floor: nat, ceiling: nat, v: Version, w: Version)
    requires Between(rows, floor, ceiling) && v in rows && w in rows && v.id == w.id
    ensures v == w
  {
    RowsAreBetween(rows[1..], rows[0].id + 1, ceiling);
    if v != rows[0] && w != rows[0] {
      SameIdSameRow(rows[1..], rows[0].id + 1, ceiling, v, w);
    }
  }

  /** After a recording: this version, where it was kept, and of the others only ones that were there before. */
  ghost predicate HasOnly(before: seq<Version>, after: seq<Version>, version: Version) {
    forall v | v in after :: v == version || (v in before && v.id != version.id)
  }

  lemma {:induction false} TrimmingHasOnly(cap: nat, file: File, before: seq<Version>, entered: seq<Version>, version: Version)
    requires HasOnly(before, entered, version)
    ensures HasOnly(before, Trimmed(cap, file, entered), version)
  {
    SiftOnlyDrops(OverCount(file, cap), entered);
    SiftOnlyDrops(OverBytes(file.root), Sift(OverCount(file, cap), entered));
  }

  /**
   Recording a text of a file that has versions: its newest version stays as it is if it holds the text, takes
   the text and the time if the text carries on from it, and is otherwise left beside a new version.
   */
  lemma {:induction false} RecordingActsOnNewest(cap: nat, table: Table, file: File, content: string, source: Source, now: real,
                                                 newest: Version)
    requires IdsAscend(table) && IsNewest(table.rows, file, newest)
    ensures var (after, id) := Recorded(cap, table, file, content, source, now);
            if newest.content == content then after == table && id == newest.id
            else if CarriesOn(newest, content, source, now) then
              && id == newest.id && after.nextId == table.nextId
              && HasOnly(table.rows, after.rows, newest.(content := content, capturedAt := now))
            else
              && id == table.nextId && after.nextId == table.nextId + 1
              && HasOnly(table.rows, after.rows, Version(table.nextId, file, content, source, now))
  {
    NewestIsLatest(table, file, newest);
    CarriesOnIsFolding(newest, content, source, now);
    if CarriesOn(newest, content, source, now) {
      var version := newest.(content := content, capturedAt := now);
      ReplaceChangesOne(table.rows, version, 0, table.nextId);
      TrimmingHasOnly(cap, file, table.rows, Replace(table.rows, version), version);
    } else {
      AddingHasOnly(cap, table, file, Version(table.nextId, file, content, source, now));
    }
  }

  /** Recording the first text of a file adds a version. */
  lemma {:induction false} RecordingAddsFirst(cap: nat, table: Table, file: File, content: string, source: Source, now: real)
    requires IdsAscend(table) && HasNone(table.rows, file)
    ensures var (after, id) := Recorded(cap, table, file, content, source, now);
            && id == table.nextId && after.nextId == table.nextId + 1
            && HasOnly(table.rows, after.rows, Version(table.nextId, file, content, source, now))
  {
    LatestIsNewest(table.rows, file, 0, table.nextId);
    AddingHasOnly(cap, table, file, Version(table.nextId, file, content, source, now));
  }

  lemma {:induction false} CarriesOnIsFolding(newest: Version, content: string, source: Source, now: real)
    ensures Folds(Some(newest), content, source, now) <==> CarriesOn(newest, content, source, now)
  {
  }

  lemma {:induction false} AddingHasOnly(cap: nat, table: Table, file: File, version: Version)
    requires IdsAscend(table) && version.id == table.nextId
    ensures HasOnly(table.rows, Trimmed(cap, file, table.rows + [version]), version)
  {
    RowsAreBetween(table.rows, 0, table.nextId);
    TrimmingHasOnly(cap, file, table.rows, table.rows + [version], version);
  }

  /**
   Observing a file leaves it alone if its newest version holds the text; otherwise the text is recorded as a
   version of its own, from outside if the file had versions, and as opened if it is the first.
   */
  lemma {:induction false} ObservingNeverFolds(cap: nat, table: Table, file: File, content: string, now: real)
    requires IdsAscend(table)
    ensures var (after, id) := Observed(cap, table, file, content, now);
            && (forall newest | IsNewest(table.rows, file, newest) ::
                  if newest.content == content then after == table && id == newest.id
                  else id == table.nextId && HasOnly(table.rows, after.rows, Version(id, file, content, External, now)))
            && (HasNone(table.rows, file) ==>
                  id == table.nextId && HasOnly(table.rows, after.rows, Version(id, file, content, Opened, now)))
  {
    LatestIsNewest(table.rows, file, 0, table.nextId);
    forall newest | IsNewest(table.rows, file, newest)
      ensures var (after, id) := Observed(cap, table, file, content, now);
              if newest.content == content then after == table && id == newest.id
              else id == table.nextId && HasOnly(table.rows, after.rows, Version(id, file, content, External, now))
    {
      NewestIsLatest(table, file, newest);
      RecordingActsOnNewest(cap, table, file, content, External, now, newest);
    }
    if HasNone(table.rows, file) {
      NoLatest(table.rows, file);
      RecordingAddsFirst(cap, table, file, content, Opened, now);
    }
  }

  lemma {:induction false} NoLatest(rows: seq<Version>, file: File)
    requires HasNone(rows, file)
    ensures Latest(rows, file).None?
  {
  }
}

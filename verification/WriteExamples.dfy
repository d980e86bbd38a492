/** Batches on which the back ends differ, and batches that leave part of themselves behind. */
module WriteExamples {
  import opened Options
  import opened Tables
  import opened Writes
  import opened WriteInvariant
  import opened WriteEquivalence
  import RowByRow

  const TAPE := "V00001"
  const FIRST := Pos(TAPE, 1)

  /** An event of size 10; archive file 1 is in the catalogue, with its copy 1 on the tape. */
  function ExampleFile(fSeq: nat, archiveId: nat, blockId: nat): FileEvent {
    Variant(fSeq, archiveId, blockId, 10, "class")
  }

  function Variant(fSeq: nat, archiveId: nat, blockId: nat, size: nat, storageClass: string): FileEvent {
    File(TAPE, fSeq, "drive", archiveId, "disk", if archiveId == 1 then "a" else "bb", 1, 1, size,
         map[1 := "sum"], storageClass, blockId, 1)
  }

  const EXAMPLE_DB := Db(map[TAPE := Tape(1, 10, "drive")], map[1 := ArchiveRowOf(ExampleFile(1, 1, 7))],
                         map[FIRST := TapeRowOf(ExampleFile(1, 1, 7), 0)], multiset{}, {"class"})

  // The set-wise and the row-by-row write

  lemma FieldsAreSet(f: FileEvent, fSeq: nat, archiveId: nat, blockId: nat)
    requires f == ExampleFile(fSeq, archiveId, blockId) && fSeq > 0 && blockId > 0
    ensures FileFieldsSet(f) && ItemFieldsSet(f)
  {
    assert 1 in f.checksum;
  }

  /** A batch of two example events that follow the tape. */
  lemma TwoFollow(b: Batch, f: FileEvent, g: FileEvent)
    requires b == [f, g] && f.vid == TAPE && g.vid == TAPE && f.fSeq == 2 && g.fSeq == 3
    requires f.drive == g.drive == "drive"
    ensures HeaderError(EXAMPLE_DB, b, false).None? && Files(b) == b
    ensures UpdateTape(EXAMPLE_DB, b) == EXAMPLE_DB.(tapes := map[TAPE := Tape(3, 10 + f.size + g.size, "drive")])
  {
    assert b[1..] == [g] && [g][1..] == [];
    var gs: seq<FileEvent> := [g];
    assert gs[1..] == [] && Files([g]) == gs && TotalBytes(gs) == g.size;
    HeaderExact(EXAMPLE_DB, b, false);
  }

  lemma OneFollows(b: Batch, f: FileEvent, checkFiles: bool)
    requires b == [f] && f.vid == TAPE && f.fSeq == 2 && f.drive == "drive" && FileFieldsSet(f)
    ensures HeaderError(EXAMPLE_DB, b, checkFiles).None? && Files(b) == b
    ensures UpdateTape(EXAMPLE_DB, b) == EXAMPLE_DB.(tapes := map[TAPE := Tape(2, 10 + f.size, "drive")])
  {
    var fs: seq<FileEvent> := [f];
    assert b[1..] == [] && fs[1..] == [] && Files(b) == fs && TotalBytes(fs) == f.size;
    HeaderExact(EXAMPLE_DB, b, checkFiles);
  }

  /** Archive file 1 is written again and displaces the copy at `p`, the only one. */
  lemma Rewritten(db: Db, p: Pos, row: TapeRow, f: FileEvent, fSeq: nat, blockId: nat, now: nat)
    requires db.archive == EXAMPLE_DB.archive && db.storageClasses == {"class"} && db.tapeFiles == map[p := row]
    requires f == ExampleFile(fSeq, 1, blockId) && row.archiveId == 1 && row.copyNb == 1
    requires fSeq > 0 && blockId > 0 && p != PosOf(f) && row.blockId != blockId
    ensures WriteRow(db, f, now).Done?
    ensures WriteRow(db, f, now).db.tapeFiles == map[PosOf(f) := TapeRowOf(f, now)]
    ensures WriteRow(db, f, now).db.archive == db.archive && WriteRow(db, f, now).db.storageClasses == {"class"}
  {
    FieldsAreSet(f, fSeq, 1, blockId);
    assert Displaced(db.tapeFiles, [f]) == {p} by { assert Supersedes([f][0], p, db.tapeFiles[p]); }
    assert Insertable(db.tapeFiles, map[PosOf(f) := TapeRowOf(f, now)]);
    assert db.tapeFiles + map[PosOf(f) := TapeRowOf(f, now)] - {p} == map[PosOf(f) := TapeRowOf(f, now)];
  }

  /** Archive file 2 is written for the first time. */
  lemma FirstWritten(db: Db, p: Pos, row: TapeRow, g: FileEvent, fSeq: nat, blockId: nat, now: nat)
    requires db.archive == EXAMPLE_DB.archive && db.storageClasses == {"class"} && db.tapeFiles == map[p := row]
    requires g == ExampleFile(fSeq, 2, blockId) && row.archiveId == 1
    requires fSeq > 0 && blockId > 0 && p != PosOf(g) && row.blockId != blockId
    ensures WriteRow(db, g, now).Done?
    ensures WriteRow(db, g, now).db.tapeFiles == map[p := row, PosOf(g) := TapeRowOf(g, now)]
    ensures WriteRow(db, g, now).db.archive == db.archive[2 := ArchiveRowOf(g)]
    ensures WriteRow(db, g, now).db.tapes == db.tapes && WriteRow(db, g, now).db.storageClasses == {"class"}
  {
    FieldsAreSet(g, fSeq, 2, blockId);
    assert !SameDiskFile(db.archive[1], ArchiveRowOf(g)) by { assert |"a"| != |"bb"|; }
    assert Displaced(db.tapeFiles, [g]) == {};
    assert Insertable(db.tapeFiles, map[PosOf(g) := TapeRowOf(g, now)]);
  }

  lemma TwoRows(db: Db, f: FileEvent, g: FileEvent, now: nat)
    requires WriteRow(db, f, now).Done? && WriteRow(WriteRow(db, f, now).db, g, now).Done?
    ensures WriteRows(db, [f, g], now).Done?
  {
    OneRow(db, f, now);
    RowByRow.RowsThen(db, [f], g, now);
    assert [f] + [g] == [f, g];
  }

  lemma OneRow(db: Db, f: FileEvent, now: nat)
    ensures WriteRows(db, [f], now) == WriteRow(db, f, now)
  {
    RowByRow.RowsThen(db, [], f, now);
    assert [] + [f] == [f];
  }

  /** The second event takes over the block of the copy that the first event displaces: the
      row-by-row back ends accept the batch, the set-wise ones refuse it. */
  lemma BlockReuseDiffers(now: nat)
    ensures var b: Batch := [ExampleFile(2, 1, 8), ExampleFile(3, 2, 7)];
            Inv(EXAMPLE_DB) && WriteRowWise(EXAMPLE_DB, b, now).Done? && WriteSetWise(EXAMPLE_DB, b, now).Refused?
  {
    var f, g := ExampleFile(2, 1, 8), ExampleFile(3, 2, 7);
    var b: Batch := [f, g];
    TwoFollow(b, f, g);
    var db1 := UpdateTape(EXAMPLE_DB, b);
    Rewritten(db1, FIRST, TapeRowOf(ExampleFile(1, 1, 7), 0), f, 2, 8, now);
    FirstWritten(WriteRow(db1, f, now).db, PosOf(f), TapeRowOf(f, now), g, 3, 7, now);
    TwoRows(db1, f, g, now);
    assert !NoBlockReuse(EXAMPLE_DB.tapeFiles, Files(b)) by {
      assert Files(b)[1] == g && FIRST in EXAMPLE_DB.tapeFiles;
    }
    WritesAcceptTheSame(EXAMPLE_DB, b, now);
  }

  /** Two events write the same archive file: the row-by-row back ends let the second displace the
      first, the set-wise ones refuse the batch. */
  lemma RepeatedIdentifierDiffers(now: nat)
    ensures var b: Batch := [ExampleFile(2, 1, 8), ExampleFile(3, 1, 9)];
            Inv(EXAMPLE_DB) && WriteRowWise(EXAMPLE_DB, b, now).Done? && WriteSetWise(EXAMPLE_DB, b, now).Refused?
  {
    var f, g := ExampleFile(2, 1, 8), ExampleFile(3, 1, 9);
    var b: Batch := [f, g];
    TwoFollow(b, f, g);
    var db1 := UpdateTape(EXAMPLE_DB, b);
    Rewritten(db1, FIRST, TapeRowOf(ExampleFile(1, 1, 7), 0), f, 2, 8, now);
    Rewritten(WriteRow(db1, f, now).db, PosOf(f), TapeRowOf(f, now), g, 3, 9, now);
    TwoRows(db1, f, g, now);
    assert !DistinctIds(Files(b)) by { assert Files(b)[0].archiveId == Files(b)[1].archiveId; }
    WritesAcceptTheSame(EXAMPLE_DB, b, now);
  }

  lemma UnknownClassRecorded(db: Db, f: FileEvent, now: nat)
    requires db == EXAMPLE_DB.(tapes := map[TAPE := Tape(2, 20, "drive")])
    requires f == Variant(2, 1, 8, 10, "other")
    ensures RecordFiles(db, [f], now).Done?
  {
    RecordExact(db, [f], now);
    InsertOneArchiveRow(db.archive, db.storageClasses, f);
    OneBatchRow(f, now);
    assert Agrees(db.archive, [f][0]);
    assert Insertable(db.tapeFiles, map[PosOf(f) := TapeRowOf(f, now)]);
  }

  /** The archive file exists, the storage class named by the event does not: the set-wise back ends
      do not look it up and accept the batch, the row-by-row ones refuse it. */
  lemma UnknownClassDiffers(now: nat)
    ensures var b: Batch := [Variant(2, 1, 8, 10, "other")];
            && Inv(EXAMPLE_DB) && WriteRowWise(EXAMPLE_DB, b, now) == Refused(StorageClassMissing)
            && WriteSetWise(EXAMPLE_DB, b, now).Done?
  {
    var f := Variant(2, 1, 8, 10, "other");
    var b: Batch := [f];
    assert FileFieldsSet(f) by { assert 1 in f.checksum; }
    OneFollows(b, f, true);
    OneFollows(b, f, false);
    var db1 := UpdateTape(EXAMPLE_DB, b);
    UnknownClassRecorded(db1, f, now);
    assert "other" !in db1.storageClasses by { assert "other"[0] != "class"[0]; }
    OneRow(db1, f, now);
  }

  // What a refused batch leaves behind

  /** On SQLite an event that displaces the copy at FIRST, but reuses its block, is refused after
      that copy has been logged. */
  method SqliteLeavesLiveAndLogged(now: nat) returns (s: RowByRow.Session, e: Option<Error>)
    ensures e.Some? && FIRST in s.published.tapeFiles && FIRST in Logged(s.published.log)
  {
    var f := ExampleFile(2, 1, 7);
    var b: Batch := [f];
    FieldsAreSet(f, 2, 1, 7);
    OneFollows(b, f, false);
    BlockInUse(EXAMPLE_DB.(tapes := map[TAPE := Tape(2, 20, "drive")]), f, now);
    OneRow(UpdateTape(EXAMPLE_DB, b), f, now);
    s := new RowByRow.Session(EXAMPLE_DB, false);
    ghost var k;
    e, k := RowByRow.FilesWrittenToTape(s, b, now);
    LeftLiveAndLogged(UpdateTape(EXAMPLE_DB, b), f, s.published);
  }

  lemma BlockInUse(db: Db, f: FileEvent, now: nat)
    requires db == EXAMPLE_DB.(tapes := db.tapes) && f == ExampleFile(2, 1, 7)
    ensures WriteRow(db, f, now).Refused?
  {
    var after := db.tapeFiles + map[PosOf(f) := TapeRowOf(f, now)];
    assert SameBlock(FIRST, after[FIRST], PosOf(f), after[PosOf(f)]);
  }

  lemma LeftLiveAndLogged(db: Db, f: FileEvent, left: Db)
    requires db == EXAMPLE_DB.(tapes := db.tapes) && f == ExampleFile(2, 1, 7)
    requires RowByRow.LeftByRow(false, db, db, f, left)
    ensures FIRST in left.tapeFiles && FIRST in Logged(left.log)
  {
    FieldsAreSet(f, 2, 1, 7);
    assert RowByRow.Entered(db, f) == db && Agrees(db.archive, f);
    var gone := Displaced(db.tapeFiles, [f]);
    assert FIRST in gone by { assert Supersedes([f][0], FIRST, db.tapeFiles[FIRST]); }
    LogRowsOneEach(db.archive, db.tapeFiles, gone);
    LoggedGrows(db.log, LogRows(db.archive, db.tapeFiles, gone), gone);
  }

  /** On MySQL the first event is recorded and published before the second is refused because its
      size is not that of its archive file. */
  method MysqlLeavesPart(now: nat) returns (s: RowByRow.Session, e: Option<Error>)
    ensures e == Some(SizeMismatch)
    ensures Pos(TAPE, 2) in s.published.tapeFiles && Pos(TAPE, 3) !in s.published.tapeFiles
    ensures TAPE in s.published.tapes && s.published.tapes[TAPE].lastFSeq == 3
  {
    var f, g := ExampleFile(2, 2, 8), Variant(3, 1, 9, 11, "class");
    var b: Batch := [f, g];
    TwoFollow(b, f, g);
    ghost var db1 := UpdateTape(EXAMPLE_DB, b);
    FirstWritten(db1, FIRST, TapeRowOf(ExampleFile(1, 1, 7), 0), f, 2, 8, now);
    ghost var mid := WriteRow(db1, f, now).db;
    WrongSize(mid, g, now);
    BothRefused(db1, mid, f, g, now);
    s := new RowByRow.Session(EXAMPLE_DB, true);
    ghost var k;
    e, k := RowByRow.FilesWrittenToTape(s, b, now);
    PartIsLeft(db1, mid, f, g, now, k, b, s.published);
  }

  lemma WrongSize(db: Db, g: FileEvent, now: nat)
    requires 1 in db.archive && db.archive[1].size == 10 && db.storageClasses == {"class"}
    requires g == Variant(3, 1, 9, 11, "class")
    ensures WriteRow(db, g, now) == Refused(SizeMismatch)
  {
    assert 1 in g.checksum;
  }

  lemma PartIsLeft(db1: Db, mid: Db, f: FileEvent, g: FileEvent, now: nat, k: nat, b: Batch, left: Db)
    requires b == [f, g] && Files(b) == b && b[0].vid in EXAMPLE_DB.tapes && db1 == UpdateTape(EXAMPLE_DB, b)
    requires WriteRow(db1, f, now) == Done(mid) && 1 in mid.archive && mid.archive[1].size == 10
    requires g == Variant(3, 1, 9, 11, "class") && mid.storageClasses == {"class"}
    requires RowByRow.StoppedAt(true, EXAMPLE_DB, b, now, k, left)
    ensures left == mid
  {
    OneRow(db1, f, now);
    var fs: seq<FileEvent> := [f];
    assert Files(b)[..0] == [] && Files(b)[..1] == fs && Files(b)[0] == f && Files(b)[1] == g;
    assert k == 1;
    assert 1 in g.checksum;
  }

  lemma BothRefused(db1: Db, mid: Db, f: FileEvent, g: FileEvent, now: nat)
    requires WriteRow(db1, f, now) == Done(mid) && WriteRow(mid, g, now) == Refused(SizeMismatch)
    ensures WriteRows(db1, [f, g], now) == Refused(SizeMismatch)
  {
    OneRow(db1, f, now);
    RowByRow.RowsThen(db1, [f], g, now);
    assert [f] + [g] == [f, g];
  }
}

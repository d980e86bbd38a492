/** What an accepted write leaves behind: each table, column by column, and the same on every back
    end.  The statements name the columns of the events and of the old tables only.
 */
module WriteEffects {
  import opened Options
  import opened Tables
  import opened Writes
  import opened WriteInvariant
  import opened WriteEquivalence

  // TAPE

  /** The tape of the batch ends at the last item, which was written by the last drive; its byte
      counter grows by the files of the batch; no other tape changes. */
  predicate TapesAfter(tapes: map<string, Tape>, tapes': map<string, Tape>, b: Batch)
    requires b != []
  {
    && tapes'.Keys == tapes.Keys && b[0].vid in tapes
    && (forall v :: v in tapes && v != b[0].vid ==> tapes'[v] == tapes[v])
    && tapes'[b[0].vid].lastFSeq == b[|b| - 1].fSeq && tapes'[b[0].vid].lastDrive == b[|b| - 1].drive
    && tapes'[b[0].vid].bytes == tapes[b[0].vid].bytes + TotalBytes(Files(b))
  }

  // ARCHIVE_FILE

  /** The row of the event's archive file has the event's columns, and its storage class exists. */
  predicate DescribedBy(archive: map<nat, ArchiveRow>, classes: set<string>, f: FileEvent) {
    && f.archiveId in archive
    && archive[f.archiveId].diskInstance == f.diskInstance
    && archive[f.archiveId].diskFileId == f.diskFileId
    && archive[f.archiveId].uid == f.uid
    && archive[f.archiveId].gid == f.gid
    && archive[f.archiveId].size == f.size
    && archive[f.archiveId].checksum == f.checksum
    && archive[f.archiveId].storageClass == f.storageClass
    && f.storageClass in classes
  }

  predicate Mentioned(fs: seq<FileEvent>, archiveId: nat) {
    exists k :: 0 <= k < |fs| && fs[k].archiveId == archiveId
  }

  /** Rows that exist stay as they are; a new row is that of the first event with its identifier. */
  predicate ArchiveAfter(archive: map<nat, ArchiveRow>, archive': map<nat, ArchiveRow>, classes: set<string>,
                         fs: seq<FileEvent>)
  {
    && (forall a :: a in archive ==> a in archive' && archive'[a] == archive[a])
    && (forall a :: a in archive' && a !in archive ==> Mentioned(fs, a))
    && (forall k :: 0 <= k < |fs| && fs[k].archiveId !in archive && !Mentioned(fs[..k], fs[k].archiveId) ==>
          DescribedBy(archive', classes, fs[k]))
  }

  // TAPE_FILE

  /** An event from index `from` on is for this archive file and copy number. */
  predicate Replaced(fs: seq<FileEvent>, from: nat, archiveId: nat, copyNb: nat) {
    exists k :: from <= k < |fs| && fs[k].archiveId == archiveId && fs[k].copyNb == copyNb
  }

  predicate IsCopyOf(row: TapeRow, f: FileEvent, now: nat) {
    && row.archiveId == f.archiveId && row.copyNb == f.copyNb && row.blockId == f.blockId
    && row.size == f.size && row.created == now
  }

  /** A row, old or of an event, is live unless an event, or a later one, is for the same copy. */
  predicate TapeFilesAfter(tapeFiles: map<Pos, TapeRow>, tapeFiles': map<Pos, TapeRow>, fs: seq<FileEvent>, now: nat) {
    && (forall p :: p in tapeFiles' ==> p in tapeFiles || p in FilePositions(fs))
    && (forall p :: p in tapeFiles ==>
          && (p in tapeFiles' <==> !Replaced(fs, 0, tapeFiles[p].archiveId, tapeFiles[p].copyNb))
          && (p in tapeFiles' ==> tapeFiles'[p] == tapeFiles[p]))
    && (forall k :: 0 <= k < |fs| ==>
          && (PosOf(fs[k]) in tapeFiles' <==> !Replaced(fs, k + 1, fs[k].archiveId, fs[k].copyNb))
          && (PosOf(fs[k]) in tapeFiles' ==> IsCopyOf(tapeFiles'[PosOf(fs[k])], fs[k], now)))
  }

  // FILE_RECYCLE_LOG

  /** The row is that of a copy which the batch has replaced, old or of an earlier event. */
  predicate Replaces(r: LogRow, tapeFiles: map<Pos, TapeRow>, archive': map<nat, ArchiveRow>, fs: seq<FileEvent>,
                     now: nat)
  {
    || (&& r.pos in tapeFiles && Replaced(fs, 0, tapeFiles[r.pos].archiveId, tapeFiles[r.pos].copyNb)
        && Remembers(r, tapeFiles[r.pos], archive'))
    || exists k :: && 0 <= k < |fs| && PosOf(fs[k]) == r.pos && Replaced(fs, k + 1, fs[k].archiveId, fs[k].copyNb)
                   && Remembers(r, TapeRowOf(fs[k], now), archive')
  }

  ghost predicate LogAfter(log: multiset<LogRow>, log': multiset<LogRow>, tapeFiles: map<Pos, TapeRow>,
                           archive': map<nat, ArchiveRow>, fs: seq<FileEvent>, now: nat)
  {
    forall r :: log'[r] == log[r] + if Replaces(r, tapeFiles, archive', fs, now) then 1 else 0
  }

  /** The effect of recording the events on the three tables of files. */
  ghost predicate FilesAfter(db: Db, db': Db, fs: seq<FileEvent>, now: nat) {
    && ArchiveAfter(db.archive, db'.archive, db.storageClasses, fs)
    && TapeFilesAfter(db.tapeFiles, db'.tapeFiles, fs, now)
    && LogAfter(db.log, db'.log, db.tapeFiles, db'.archive, fs, now)
    && db'.storageClasses == db.storageClasses
  }

  ghost predicate Effect(db: Db, db': Db, b: Batch, now: nat) {
    if b == [] then db' == db
    else TapesAfter(db.tapes, db'.tapes, b) && FilesAfter(db, db', Files(b), now)
  }

  /** The events take pairwise different positions at which no copy is live. */
  predicate Unheld(tapeFiles: map<Pos, TapeRow>, fs: seq<FileEvent>) {
    && (forall k :: 0 <= k < |fs| ==> PosOf(fs[k]) !in tapeFiles)
    && (forall i, j :: 0 <= i < j < |fs| ==> PosOf(fs[i]) != PosOf(fs[j]))
  }

  // Set-wise

  lemma NewRowIsDescribed(archive: map<nat, ArchiveRow>, classes: set<string>, fs: seq<FileEvent>, k: nat)
    requires DistinctIds(fs) && k < |fs| && fs[k].archiveId !in archive
    requires fs[k].archiveId in InsertArchiveRows(archive, classes, fs)
    ensures DescribedBy(InsertArchiveRows(archive, classes, fs), classes, fs[k])
  {
    InsertedRows(archive, classes, fs);
    var archive' := InsertArchiveRows(archive, classes, fs);
    var j :| 0 <= j < |fs| && fs[j].archiveId == fs[k].archiveId && fs[j].storageClass in classes
             && archive'[fs[k].archiveId] == ArchiveRowOf(fs[j]);
    assert j == k;
  }

  lemma SetWiseArchive(db: Db, fs: seq<FileEvent>, now: nat)
    requires RecordFiles(db, fs, now).Done?
    ensures ArchiveAfter(db.archive, RecordFiles(db, fs, now).db.archive, db.storageClasses, fs)
  {
    RecordExact(db, fs, now);
    InsertedRows(db.archive, db.storageClasses, fs);
    var archive := InsertArchiveRows(db.archive, db.storageClasses, fs);
    forall k | 0 <= k < |fs| && fs[k].archiveId !in db.archive ensures DescribedBy(archive, db.storageClasses, fs[k]) {
      assert Agrees(archive, fs[k]);
      NewRowIsDescribed(db.archive, db.storageClasses, fs, k);
    }
  }

  lemma DisplacedAreReplaced(db: Db, fs: seq<FileEvent>, p: Pos)
    requires Unheld(db.tapeFiles, fs) && p in db.tapeFiles
    ensures p in Displaced(db.tapeFiles, fs) <==> Replaced(fs, 0, db.tapeFiles[p].archiveId, db.tapeFiles[p].copyNb)
  {
    if Replaced(fs, 0, db.tapeFiles[p].archiveId, db.tapeFiles[p].copyNb) {
      var k :| 0 <= k < |fs| && fs[k].archiveId == db.tapeFiles[p].archiveId && fs[k].copyNb == db.tapeFiles[p].copyNb;
      assert Supersedes(fs[k], p, db.tapeFiles[p]);
    }
  }

  lemma SetWiseTapeFiles(db: Db, fs: seq<FileEvent>, now: nat)
    requires Unheld(db.tapeFiles, fs) && RecordFiles(db, fs, now).Done?
    ensures TapeFilesAfter(db.tapeFiles, RecordFiles(db, fs, now).db.tapeFiles, fs, now)
  {
    var rows, gone := BatchRows(fs, now), Displaced(db.tapeFiles, fs);
    var _ := RecordResult(db, fs, now);
    BatchRowsAre(fs, now);
    BatchRowsKeys(fs, now);
    forall p | p in db.tapeFiles
      ensures p in gone <==> Replaced(fs, 0, db.tapeFiles[p].archiveId, db.tapeFiles[p].copyNb)
    {
      DisplacedAreReplaced(db, fs, p);
    }
    MoveGives(db.tapeFiles, rows, gone, fs, now);
  }

  lemma MoveGives(tapeFiles: map<Pos, TapeRow>, rows: map<Pos, TapeRow>, gone: set<Pos>, fs: seq<FileEvent>, now: nat)
    requires DistinctIds(fs) && rows.Keys == FilePositions(fs) && rows.Keys !! tapeFiles.Keys && gone <= tapeFiles.Keys
    requires forall k :: 0 <= k < |fs| ==> PosOf(fs[k]) in rows && rows[PosOf(fs[k])] == TapeRowOf(fs[k], now)
    requires forall p :: p in tapeFiles ==>
               (p in gone <==> Replaced(fs, 0, tapeFiles[p].archiveId, tapeFiles[p].copyNb))
    ensures TapeFilesAfter(tapeFiles, tapeFiles + rows - gone, fs, now)
  {
  }

  lemma SetWiseLog(db: Db, fs: seq<FileEvent>, now: nat, r: LogRow)
    requires Unheld(db.tapeFiles, fs) && RecordFiles(db, fs, now).Done?
    ensures var db' := RecordFiles(db, fs, now).db;
            db'.log[r] == db.log[r] + if Replaces(r, db.tapeFiles, db'.archive, fs, now) then 1 else 0
  {
    RecordExact(db, fs, now);
    var db' := RecordFiles(db, fs, now).db;
    LogRowsRemember(db'.archive, db.tapeFiles, Displaced(db.tapeFiles, fs), r);
    if r.pos in db.tapeFiles { DisplacedAreReplaced(db, fs, r.pos); }
  }

  lemma SetWiseFiles(db: Db, db': Db, fs: seq<FileEvent>, now: nat)
    requires Unheld(db.tapeFiles, fs) && RecordFiles(db, fs, now) == Done(db')
    ensures FilesAfter(db, db', fs, now)
  {
    SetWiseArchive(db, fs, now);
    SetWiseTapeFiles(db, fs, now);
    forall r ensures db'.log[r] == db.log[r] + if Replaces(r, db.tapeFiles, db'.archive, fs, now) then 1 else 0 {
      SetWiseLog(db, fs, now, r);
    }
  }

  // By row: one event after the other

  lemma MentionedSplit(init: seq<FileEvent>, f: FileEvent, archiveId: nat)
    ensures Mentioned(init + [f], archiveId) <==> Mentioned(init, archiveId) || f.archiveId == archiveId
  {
    var fs := init + [f];
    if Mentioned(init, archiveId) {
      var k :| 0 <= k < |init| && init[k].archiveId == archiveId;
      assert fs[k].archiveId == archiveId;
    }
    if f.archiveId == archiveId { assert fs[|init|].archiveId == archiveId; }
  }

  lemma ReplacedSplit(init: seq<FileEvent>, f: FileEvent, from: nat, archiveId: nat, copyNb: nat)
    requires from <= |init|
    ensures Replaced(init + [f], from, archiveId, copyNb) <==>
            Replaced(init, from, archiveId, copyNb) || (f.archiveId == archiveId && f.copyNb == copyNb)
  {
    var fs := init + [f];
    if Replaced(init, from, archiveId, copyNb) {
      var k :| from <= k < |init| && init[k].archiveId == archiveId && init[k].copyNb == copyNb;
      assert fs[k].archiveId == archiveId && fs[k].copyNb == copyNb;
    }
    if f.archiveId == archiveId && f.copyNb == copyNb { assert fs[|init|] == f; }
  }

  lemma OneReplaced(f: FileEvent, archiveId: nat, copyNb: nat)
    ensures Replaced([f], 0, archiveId, copyNb) <==> f.archiveId == archiveId && f.copyNb == copyNb
    ensures !Replaced([f], 1, archiveId, copyNb) && FilePositions([f]) == {PosOf(f)}
  {
    assert [f][0] == f;
  }

  lemma ArchiveSteps(archive: map<nat, ArchiveRow>, archive1: map<nat, ArchiveRow>, archive2: map<nat, ArchiveRow>,
                     classes: set<string>, init: seq<FileEvent>, f: FileEvent)
    requires ArchiveAfter(archive, archive1, classes, init) && ArchiveAfter(archive1, archive2, classes, [f])
    ensures ArchiveAfter(archive, archive2, classes, init + [f])
  {
    var fs := init + [f];
    assert [f][0] == f && [f][..0] == [];
    forall a | a in archive2 && a !in archive ensures Mentioned(fs, a) { MentionedSplit(init, f, a); }
    forall k | 0 <= k < |fs| && fs[k].archiveId !in archive && !Mentioned(fs[..k], fs[k].archiveId)
      ensures DescribedBy(archive2, classes, fs[k])
    {
      if k < |init| {
        assert fs[k] == init[k] && fs[..k] == init[..k];
        assert DescribedBy(archive1, classes, init[k]);
      } else {
        assert fs[..k] == init;
      }
    }
  }

  lemma TapeFilesStep(tapeFiles: map<Pos, TapeRow>, tapeFiles1: map<Pos, TapeRow>, tapeFiles2: map<Pos, TapeRow>,
                      init: seq<FileEvent>, f: FileEvent, now: nat)
    requires Unheld(tapeFiles, init + [f])
    requires TapeFilesAfter(tapeFiles, tapeFiles1, init, now) && TapeFilesAfter(tapeFiles1, tapeFiles2, [f], now)
    ensures TapeFilesAfter(tapeFiles, tapeFiles2, init + [f], now)
  {
    var fs := init + [f];
    forall p | p in tapeFiles2 ensures p in tapeFiles || p in FilePositions(fs) {
      if p !in tapeFiles { NewPosition(tapeFiles, tapeFiles1, tapeFiles2, init, f, now, p); }
    }
    forall p | p in tapeFiles
      ensures p in tapeFiles2 <==> !Replaced(fs, 0, tapeFiles[p].archiveId, tapeFiles[p].copyNb)
      ensures p in tapeFiles2 ==> tapeFiles2[p] == tapeFiles[p]
    {
      OldRowSteps(tapeFiles, tapeFiles1, tapeFiles2, init, f, now, p);
    }
    forall k | 0 <= k < |fs|
      ensures PosOf(fs[k]) in tapeFiles2 <==> !Replaced(fs, k + 1, fs[k].archiveId, fs[k].copyNb)
      ensures PosOf(fs[k]) in tapeFiles2 ==> IsCopyOf(tapeFiles2[PosOf(fs[k])], fs[k], now)
    {
      NewRowSteps(tapeFiles, tapeFiles1, tapeFiles2, init, f, now, k);
    }
  }

  lemma NewPosition(tapeFiles: map<Pos, TapeRow>, tapeFiles1: map<Pos, TapeRow>, tapeFiles2: map<Pos, TapeRow>,
                    init: seq<FileEvent>, f: FileEvent, now: nat, p: Pos)
    requires TapeFilesAfter(tapeFiles, tapeFiles1, init, now) && TapeFilesAfter(tapeFiles1, tapeFiles2, [f], now)
    requires p in tapeFiles2 && p !in tapeFiles
    ensures p in FilePositions(init + [f])
  {
    var fs := init + [f];
    if p in tapeFiles1 {
      var k :| 0 <= k < |init| && p == PosOf(init[k]);
      assert p == PosOf(fs[k]);
    } else {
      OneReplaced(f, 0, 0);
      assert p == PosOf(fs[|init|]);
    }
  }

  lemma OldRowSteps(tapeFiles: map<Pos, TapeRow>, tapeFiles1: map<Pos, TapeRow>, tapeFiles2: map<Pos, TapeRow>,
                    init: seq<FileEvent>, f: FileEvent, now: nat, p: Pos)
    requires Unheld(tapeFiles, init + [f]) && p in tapeFiles
    requires TapeFilesAfter(tapeFiles, tapeFiles1, init, now) && TapeFilesAfter(tapeFiles1, tapeFiles2, [f], now)
    ensures p in tapeFiles2 <==> !Replaced(init + [f], 0, tapeFiles[p].archiveId, tapeFiles[p].copyNb)
    ensures p in tapeFiles2 ==> tapeFiles2[p] == tapeFiles[p]
  {
    ReplacedSplit(init, f, 0, tapeFiles[p].archiveId, tapeFiles[p].copyNb);
    OneReplaced(f, tapeFiles[p].archiveId, tapeFiles[p].copyNb);
    assert (init + [f])[|init|] == f;
  }

  lemma NewRowSteps(tapeFiles: map<Pos, TapeRow>, tapeFiles1: map<Pos, TapeRow>, tapeFiles2: map<Pos, TapeRow>,
                    init: seq<FileEvent>, f: FileEvent, now: nat, k: nat)
    requires Unheld(tapeFiles, init + [f]) && k <= |init|
    requires TapeFilesAfter(tapeFiles, tapeFiles1, init, now) && TapeFilesAfter(tapeFiles1, tapeFiles2, [f], now)
    ensures var fs := init + [f];
            && (PosOf(fs[k]) in tapeFiles2 <==> !Replaced(fs, k + 1, fs[k].archiveId, fs[k].copyNb))
            && (PosOf(fs[k]) in tapeFiles2 ==> IsCopyOf(tapeFiles2[PosOf(fs[k])], fs[k], now))
  {
    var fs := init + [f];
    OneReplaced(f, fs[k].archiveId, fs[k].copyNb);
    if k < |init| {
      assert fs[k] == init[k] && PosOf(fs[k]) != PosOf(fs[|init|]);
      ReplacedSplit(init, f, k + 1, fs[k].archiveId, fs[k].copyNb);
    } else {
      assert fs[k] == f == [f][0];
    }
  }

  /** After the events every archive file they mention exists. */
  lemma {:induction false} MentionedExists(archive: map<nat, ArchiveRow>, archive': map<nat, ArchiveRow>,
                                           classes: set<string>, fs: seq<FileEvent>, k: nat)
    requires ArchiveAfter(archive, archive', classes, fs) && k < |fs|
    ensures fs[k].archiveId in archive'
    decreases k
  {
    if Mentioned(fs[..k], fs[k].archiveId) {
      var j :| 0 <= j < k && fs[..k][j].archiveId == fs[k].archiveId;
      MentionedExists(archive, archive', classes, fs, j);
    }
  }

  /** Later archive files do not change what a log row remembers. */
  lemma RememberedStays(db: Db, db1: Db, db2: Db, init: seq<FileEvent>, f: FileEvent, now: nat, r: LogRow, row: TapeRow,
                        from: nat)
    requires FilesAfter(db, db1, init, now) && FilesAfter(db1, db2, [f], now)
    requires Replaced(init, from, row.archiveId, row.copyNb)
    ensures Remembers(r, row, db1.archive) <==> Remembers(r, row, db2.archive)
  {
    var k :| from <= k < |init| && init[k].archiveId == row.archiveId && init[k].copyNb == row.copyNb;
    MentionedExists(db.archive, db1.archive, db.storageClasses, init, k);
  }

  /** For the position of an old row, and for that of an event. */
  lemma ReplacesAt(r: LogRow, tapeFiles: map<Pos, TapeRow>, archive: map<nat, ArchiveRow>, fs: seq<FileEvent>, now: nat)
    requires Unheld(tapeFiles, fs)
    ensures r.pos in tapeFiles ==>
              (Replaces(r, tapeFiles, archive, fs, now) <==>
               Replaced(fs, 0, tapeFiles[r.pos].archiveId, tapeFiles[r.pos].copyNb)
               && Remembers(r, tapeFiles[r.pos], archive))
    ensures forall k :: 0 <= k < |fs| && PosOf(fs[k]) == r.pos ==>
              (Replaces(r, tapeFiles, archive, fs, now) <==>
               Replaced(fs, k + 1, fs[k].archiveId, fs[k].copyNb) && Remembers(r, TapeRowOf(fs[k], now), archive))
    ensures r.pos !in tapeFiles && r.pos !in FilePositions(fs) ==> !Replaces(r, tapeFiles, archive, fs, now)
  {
  }

  lemma OldLogSteps(db: Db, db1: Db, db2: Db, init: seq<FileEvent>, f: FileEvent, now: nat, r: LogRow)
    requires Unheld(db.tapeFiles, init) && Unheld(db1.tapeFiles, [f]) && Unheld(db.tapeFiles, init + [f])
    requires FilesAfter(db, db1, init, now) && FilesAfter(db1, db2, [f], now) && r.pos in db.tapeFiles
    ensures LogsOnce(db, db1, db2, init, f, now, r)
  {
    var row := db.tapeFiles[r.pos];
    ReplacesAt(r, db.tapeFiles, db2.archive, init + [f], now);
    ReplacesAt(r, db.tapeFiles, db1.archive, init, now);
    ReplacesAt(r, db1.tapeFiles, db2.archive, [f], now);
    ReplacedSplit(init, f, 0, row.archiveId, row.copyNb);
    OneReplaced(f, row.archiveId, row.copyNb);
    assert (init + [f])[|init|] == f;
    if Replaced(init, 0, row.archiveId, row.copyNb) { RememberedStays(db, db1, db2, init, f, now, r, row, 0); }
  }

  lemma NewLogSteps(db: Db, db1: Db, db2: Db, init: seq<FileEvent>, f: FileEvent, now: nat, r: LogRow, k: nat)
    requires Unheld(db.tapeFiles, init) && Unheld(db1.tapeFiles, [f]) && Unheld(db.tapeFiles, init + [f])
    requires FilesAfter(db, db1, init, now) && FilesAfter(db1, db2, [f], now) && k < |init| && PosOf(init[k]) == r.pos
    ensures LogsOnce(db, db1, db2, init, f, now, r)
  {
    var fs, row := init + [f], TapeRowOf(init[k], now);
    assert fs[k] == init[k] && fs[|init|] == f && PosOf(fs[k]) != PosOf(fs[|init|]);
    ReplacesAt(r, db.tapeFiles, db2.archive, fs, now);
    ReplacesAt(r, db.tapeFiles, db1.archive, init, now);
    ReplacesAt(r, db1.tapeFiles, db2.archive, [f], now);
    ReplacedSplit(init, f, k + 1, row.archiveId, row.copyNb);
    OneReplaced(f, row.archiveId, row.copyNb);
    if Replaced(init, k + 1, row.archiveId, row.copyNb) {
      RememberedStays(db, db1, db2, init, f, now, r, row, k + 1);
    } else {
      assert IsCopyOf(db1.tapeFiles[r.pos], init[k], now);
      assert db1.tapeFiles[r.pos] == row;
    }
  }

  lemma OtherLogSteps(db: Db, db1: Db, db2: Db, init: seq<FileEvent>, f: FileEvent, now: nat, r: LogRow)
    requires Unheld(db.tapeFiles, init) && Unheld(db1.tapeFiles, [f]) && Unheld(db.tapeFiles, init + [f])
    requires FilesAfter(db, db1, init, now) && FilesAfter(db1, db2, [f], now)
    requires r.pos !in db.tapeFiles && r.pos !in FilePositions(init)
    ensures LogsOnce(db, db1, db2, init, f, now, r)
  {
    var fs := init + [f];
    OneReplaced(f, f.archiveId, f.copyNb);
    ReplacesAt(r, db.tapeFiles, db2.archive, fs, now);
    ReplacesAt(r, db.tapeFiles, db1.archive, init, now);
    ReplacesAt(r, db1.tapeFiles, db2.archive, [f], now);
    assert [f][0] == f == fs[|init|];
    if r.pos in FilePositions(fs) {
      var k :| 0 <= k < |fs| && PosOf(fs[k]) == r.pos;
      assert k == |init|;
    }
  }

  /** The whole batch logs what its two parts log, and these log different rows. */
  predicate LogsOnce(db: Db, db1: Db, db2: Db, init: seq<FileEvent>, f: FileEvent, now: nat, r: LogRow) {
    var first := Replaces(r, db.tapeFiles, db1.archive, init, now);
    var second := Replaces(r, db1.tapeFiles, db2.archive, [f], now);
    (Replaces(r, db.tapeFiles, db2.archive, init + [f], now) <==> first || second) && !(first && second)
  }

  lemma LogSteps(db: Db, db1: Db, db2: Db, init: seq<FileEvent>, f: FileEvent, now: nat, r: LogRow)
    requires Unheld(db.tapeFiles, init) && Unheld(db1.tapeFiles, [f]) && Unheld(db.tapeFiles, init + [f])
    requires FilesAfter(db, db1, init, now) && FilesAfter(db1, db2, [f], now)
    ensures LogsOnce(db, db1, db2, init, f, now, r)
  {
    if r.pos in db.tapeFiles {
      OldLogSteps(db, db1, db2, init, f, now, r);
    } else if k :| 0 <= k < |init| && PosOf(init[k]) == r.pos {
      NewLogSteps(db, db1, db2, init, f, now, r, k);
    } else {
      OtherLogSteps(db, db1, db2, init, f, now, r);
    }
  }

  lemma FilesStep(db: Db, db1: Db, db2: Db, init: seq<FileEvent>, f: FileEvent, now: nat)
    requires Unheld(db.tapeFiles, init) && Unheld(db1.tapeFiles, [f]) && Unheld(db.tapeFiles, init + [f])
    requires FilesAfter(db, db1, init, now) && FilesAfter(db1, db2, [f], now)
    ensures FilesAfter(db, db2, init + [f], now)
  {
    ArchiveSteps(db.archive, db1.archive, db2.archive, db.storageClasses, init, f);
    TapeFilesStep(db.tapeFiles, db1.tapeFiles, db2.tapeFiles, init, f, now);
    forall r
      ensures db2.log[r] == db.log[r] + if Replaces(r, db.tapeFiles, db2.archive, init + [f], now) then 1 else 0
    {
      LogSteps(db, db1, db2, init, f, now, r);
    }
  }

  lemma UnheldSplit(tapeFiles: map<Pos, TapeRow>, tapeFiles1: map<Pos, TapeRow>, init: seq<FileEvent>, f: FileEvent,
                    now: nat)
    requires Unheld(tapeFiles, init + [f])
    ensures Unheld(tapeFiles, init)
    ensures TapeFilesAfter(tapeFiles, tapeFiles1, init, now) ==> Unheld(tapeFiles1, [f])
  {
    var fs := init + [f];
    assert forall k :: 0 <= k < |init| ==> init[k] == fs[k];
    assert fs[|init|] == f == [f][0];
  }

  lemma OneRowFiles(db: Db, db': Db, f: FileEvent, now: nat)
    requires UniqueDisk(db.archive) && Unheld(db.tapeFiles, [f]) && WriteRow(db, f, now) == Done(db')
    ensures FilesAfter(db, db', [f], now) && UniqueDisk(db'.archive) && db'.tapes == db.tapes
  {
    WriteRowExact(db, f, now);
    RecordExact(db, [f], now);
    SetWiseFiles(db, db', [f], now);
  }

  lemma NoFiles(db: Db, now: nat)
    ensures FilesAfter(db, db, [], now)
  {
  }

  lemma {:induction false} RowWiseFiles(db: Db, db': Db, fs: seq<FileEvent>, now: nat)
    requires UniqueDisk(db.archive) && Unheld(db.tapeFiles, fs) && WriteRows(db, fs, now) == Done(db')
    ensures FilesAfter(db, db', fs, now) && UniqueDisk(db'.archive) && db'.tapes == db.tapes
    decreases |fs|
  {
    if fs == [] {
      NoFiles(db, now);
    } else {
      var init, f := fs[..|fs| - 1], fs[|fs| - 1];
      assert fs == init + [f];
      WriteRowsUnfold(db, fs, now);
      var db1 := WriteRows(db, init, now).db;
      UnheldSplit(db.tapeFiles, db1.tapeFiles, init, f, now);
      RowWiseFiles(db, db1, init, now);
      OneRowFiles(db1, db', f, now);
      FilesStep(db, db1, db', init, f, now);
    }
  }

  // Whole batches

  lemma HeaderUnheld(db: Db, b: Batch, checkFiles: bool)
    requires Inv(db) && b != [] && HeaderError(db, b, checkFiles).None?
    ensures Unheld(db.tapeFiles, Files(b)) && b[0].vid in db.tapes
    ensures TapesAfter(db.tapes, UpdateTape(db, b).tapes, b)
  {
    HeaderExact(db, b, checkFiles);
    HeaderPlaces(db, b, checkFiles);
    NotInTable(UpdateTape(db, b), Files(b));
  }

  /** PostgreSQL and Oracle */
  lemma SetWiseEffect(postgres: bool, db: Db, b: Batch, now: nat)
    requires Inv(db) && WriteOn(postgres, db, b, now).Done?
    ensures Effect(db, WriteOn(postgres, db, b, now).db, b, now)
  {
    SetWiseWritesAgree(db, b, now);
    if b != [] {
      WriteUnfold(db, b, now);
      HeaderUnheld(db, b, true);
      if Files(b) == [] {
        NoFiles(UpdateTape(db, b), now);
      } else {
        SetWiseFiles(UpdateTape(db, b), WriteSetWise(db, b, now).db, Files(b), now);
      }
    }
  }

  /** MySQL and SQLite */
  lemma RowWiseEffect(db: Db, b: Batch, now: nat)
    requires Inv(db) && WriteRowWise(db, b, now).Done?
    ensures Effect(db, WriteRowWise(db, b, now).db, b, now)
  {
    if b != [] {
      HeaderUnheld(db, b, false);
      RowWiseFiles(UpdateTape(db, b), WriteRowWise(db, b, now).db, Files(b), now);
    }
  }

  // The effect says everything: no two catalogues satisfy it

  lemma {:induction false} SameArchive(archive: map<nat, ArchiveRow>, x: map<nat, ArchiveRow>, y: map<nat, ArchiveRow>,
                                       classes: set<string>, fs: seq<FileEvent>, k: nat)
    requires ArchiveAfter(archive, x, classes, fs) && ArchiveAfter(archive, y, classes, fs) && k < |fs|
    ensures fs[k].archiveId in x && fs[k].archiveId in y && x[fs[k].archiveId] == y[fs[k].archiveId]
    decreases k
  {
    if Mentioned(fs[..k], fs[k].archiveId) {
      var j :| 0 <= j < k && fs[..k][j].archiveId == fs[k].archiveId;
      SameArchive(archive, x, y, classes, fs, j);
    }
  }

  lemma SameTapeFiles(tapeFiles: map<Pos, TapeRow>, x: map<Pos, TapeRow>, y: map<Pos, TapeRow>, fs: seq<FileEvent>,
                      now: nat, p: Pos)
    requires TapeFilesAfter(tapeFiles, x, fs, now) && TapeFilesAfter(tapeFiles, y, fs, now) && p in x
    ensures p in y && x[p] == y[p]
  {
    if p !in tapeFiles {
      var k :| 0 <= k < |fs| && p == PosOf(fs[k]);
      assert IsCopyOf(x[p], fs[k], now) && IsCopyOf(y[p], fs[k], now);
    }
  }

  lemma SameArchives(db: Db, x: Db, y: Db, fs: seq<FileEvent>)
    requires ArchiveAfter(db.archive, x.archive, db.storageClasses, fs)
    requires ArchiveAfter(db.archive, y.archive, db.storageClasses, fs)
    ensures x.archive == y.archive
  {
    forall a | a in x.archive || a in y.archive
      ensures a in x.archive && a in y.archive && x.archive[a] == y.archive[a]
    {
      if a !in db.archive {
        var k :| 0 <= k < |fs| && fs[k].archiveId == a;
        SameArchive(db.archive, x.archive, y.archive, db.storageClasses, fs, k);
      }
    }
  }

  lemma SameLogs(log: multiset<LogRow>, x: multiset<LogRow>, y: multiset<LogRow>, tapeFiles: map<Pos, TapeRow>,
                 archive': map<nat, ArchiveRow>, fs: seq<FileEvent>, now: nat)
    requires LogAfter(log, x, tapeFiles, archive', fs, now) && LogAfter(log, y, tapeFiles, archive', fs, now)
    ensures x == y
  {
    assert forall r :: x[r] == y[r];
  }

  lemma SameTapes(tapes: map<string, Tape>, x: map<string, Tape>, y: map<string, Tape>, b: Batch)
    requires b != [] && TapesAfter(tapes, x, b) && TapesAfter(tapes, y, b)
    ensures x == y
  {
    assert x[b[0].vid] == y[b[0].vid];
  }

  lemma EffectIsUnique(db: Db, x: Db, y: Db, b: Batch, now: nat)
    requires Effect(db, x, b, now) && Effect(db, y, b, now)
    ensures x == y
  {
    if b != [] {
      var fs := Files(b);
      SameTapes(db.tapes, x.tapes, y.tapes, b);
      SameArchives(db, x, y, fs);
      SameLogs(db.log, x.log, y.log, db.tapeFiles, x.archive, fs, now);
      assert x.tapeFiles == y.tapeFiles by {
        forall p | p in x.tapeFiles ensures p in y.tapeFiles && x.tapeFiles[p] == y.tapeFiles[p] {
          SameTapeFiles(db.tapeFiles, x.tapeFiles, y.tapeFiles, fs, now, p);
        }
        forall p | p in y.tapeFiles ensures p in x.tapeFiles {
          SameTapeFiles(db.tapeFiles, y.tapeFiles, x.tapeFiles, fs, now, p);
        }
      }
    }
  }

  // Which items are complete

  predicate ItemIncomplete(e: Event) {
    e.vid == "" || e.fSeq == 0 || e.drive == ""
  }

  predicate FileIncomplete(f: FileEvent) {
    || f.diskInstance == "" || f.diskFileId == "" || f.uid == 0 || f.size == 0 || f.checksum == map[]
    || f.storageClass == "" || f.copyNb == 0 || (f.blockId == 0 && f.fSeq != 1)
  }

  /** The item is where the tape continues. */
  predicate Continues(db: Db, e: Event) {
    e.vid in db.tapes && e.fSeq == db.tapes[e.vid].lastFSeq + 1
  }

  lemma OneItem(b: seq<Event>, vid: string, expected: nat, checkFiles: bool)
    requires |b| == 1
    ensures ItemsError(b, vid, expected, checkFiles) == Some(FieldsUnset) <==>
            || ItemIncomplete(b[0])
            || (b[0].vid == vid && b[0].fSeq == expected && checkFiles && b[0].File? && FileIncomplete(b[0]))
  {
    assert b[1..] == [];
  }

  lemma {:induction false} FieldsAreSet(archive: map<nat, ArchiveRow>, fs: seq<FileEvent>)
    ensures VerifyError(archive, fs) != Some(FieldsUnset)
  {
    if fs != [] { FieldsAreSet(archive, fs[1..]); }
  }

  /** A single item is refused as incomplete exactly when one of the columns named is missing; those
      of a file are looked at where the tape continues with it. */
  lemma IncompleteExactly(postgres: bool, db: Db, b: Batch, now: nat)
    requires |b| == 1
    ensures WriteOn(postgres, db, b, now) == Refused(FieldsUnset) <==>
            ItemIncomplete(b[0]) || (Continues(db, b[0]) && b[0].File? && FileIncomplete(b[0]))
  {
    if b[0].vid in db.tapes { OneItem(b, b[0].vid, db.tapes[b[0].vid].lastFSeq + 1, true); }
    if HeaderError(db, b, true).None? && Files(b) != [] {
      var db1 := UpdateTape(db, b);
      FieldsAreSet(InsertArchiveRows(db1.archive, db1.storageClasses, Files(b)), Files(b));
      FieldsAreSet(InsertArchiveRowsSkipping(db1.archive, db1.storageClasses, Files(b)), Files(b));
    }
  }

  lemma IncompleteRowExactly(db: Db, b: Batch, now: nat)
    requires |b| == 1
    ensures WriteRowWise(db, b, now) == Refused(FieldsUnset) <==>
            ItemIncomplete(b[0]) || (Continues(db, b[0]) && b[0].File? && FileIncomplete(b[0]))
  {
    assert b[1..] == [];
    if b[0].vid in db.tapes { OneItem(b, b[0].vid, db.tapes[b[0].vid].lastFSeq + 1, false); }
    if HeaderError(db, b, false).None? {
      HeaderExact(db, b, false);
      if b[0].File? {
        var fs: seq<FileEvent> := [b[0]];
        assert Files(b) == fs && fs[..0] == [];
        assert WriteRows(UpdateTape(db, b), fs, now) == WriteRow(UpdateTape(db, b), fs[0], now) by {
          assert fs[..|fs| - 1] == [];
        }
      } else {
        assert Files(b) == [];
      }
    }
  }

  // Repeated archive file identifiers

  /** The archive file exists, or an event creates it. */
  predicate ExistsWith(archive: map<nat, ArchiveRow>, classes: set<string>, fs: seq<FileEvent>, archiveId: nat) {
    || archiveId in archive
    || exists k :: 0 <= k < |fs| && fs[k].archiveId == archiveId && fs[k].storageClass in classes
  }

  lemma {:induction false} InsertedExactly(archive: map<nat, ArchiveRow>, classes: set<string>, fs: seq<FileEvent>,
                                           a: nat)
    ensures a in InsertArchiveRows(archive, classes, fs) <==> ExistsWith(archive, classes, fs, a)
  {
    if fs != [] {
      var init := fs[..|fs| - 1];
      InsertedExactly(archive, classes, init, a);
      if ExistsWith(archive, classes, init, a) && a !in archive {
        var k :| 0 <= k < |init| && init[k].archiveId == a && init[k].storageClass in classes;
        assert fs[k] == init[k];
      } else if k :| 0 <= k < |fs| && fs[k].archiveId == a && fs[k].storageClass in classes {
        if k < |init| { assert init[k] == fs[k]; }
      }
    }
  }

  lemma {:induction false} NeverDuplicate(archive: map<nat, ArchiveRow>, fs: seq<FileEvent>)
    ensures VerifyError(archive, fs) != Some(DuplicateArchiveId)
  {
    if fs != [] { NeverDuplicate(archive, fs[1..]); }
  }

  /** PostgreSQL reports a repeated identifier exactly when its archive file exists or an event
      creates it; otherwise the file is reported missing. */
  lemma DuplicateExactly(db: Db, fs: seq<FileEvent>, now: nat)
    ensures RecordFiles(db, fs, now) == Refused(DuplicateArchiveId) <==>
            exists i, j :: && 0 <= i < j < |fs| && fs[i].archiveId == fs[j].archiveId
                           && ExistsWith(db.archive, db.storageClasses, fs, fs[i].archiveId)
  {
    var archive := InsertArchiveRows(db.archive, db.storageClasses, fs);
    NeverDuplicate(archive, fs);
    forall a ensures a in archive <==> ExistsWith(db.archive, db.storageClasses, fs, a) {
      InsertedExactly(db.archive, db.storageClasses, fs, a);
    }
  }
}

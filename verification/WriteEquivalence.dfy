/** The set-wise and the row-by-row write are the same operation, except in three cases that
    a caller can see beforehand: repeated archive file identifiers, a storage class that does
    not exist, and a block identifier that is still in use on the tape.
 */
module WriteEquivalence {
  import opened Tables
  import opened Writes
  import opened WriteInvariant

  /** No event reuses the block identifier of a copy that is live on its tape. */
  predicate NoBlockReuse(tapeFiles: map<Pos, TapeRow>, fs: seq<FileEvent>) {
    forall k, p :: 0 <= k < |fs| && p in tapeFiles ==> !(p.vid == fs[k].vid && tapeFiles[p].blockId == fs[k].blockId)
  }

  predicate ClassesExist(classes: set<string>, fs: seq<FileEvent>) {
    forall k :: 0 <= k < |fs| ==> fs[k].storageClass in classes
  }

  // A batch is its prefix followed by its last event; table by table

  lemma DistinctSplit(fs: seq<FileEvent>)
    requires fs != []
    ensures DistinctIds(fs) <==>
            && DistinctIds(fs[..|fs| - 1])
            && forall k :: 0 <= k < |fs| - 1 ==> fs[k].archiveId != fs[|fs| - 1].archiveId
  {
  }

  lemma ArchiveSplit(archive: map<nat, ArchiveRow>, classes: set<string>, fs: seq<FileEvent>)
    requires fs != []
    ensures InsertArchiveRows(archive, classes, fs)
            == InsertArchiveRows(InsertArchiveRows(archive, classes, fs[..|fs| - 1]), classes, [fs[|fs| - 1]])
    ensures UniqueDisk(InsertArchiveRows(archive, classes, fs)) ==>
              UniqueDisk(InsertArchiveRows(archive, classes, fs[..|fs| - 1]))
  {
    InsertOneArchiveRow(InsertArchiveRows(archive, classes, fs[..|fs| - 1]), classes, fs[|fs| - 1]);
  }

  predicate AllAgree(archive: map<nat, ArchiveRow>, fs: seq<FileEvent>) {
    forall k :: 0 <= k < |fs| ==> Agrees(archive, fs[k])
  }

  lemma AgreeSplit(before: map<nat, ArchiveRow>, classes: set<string>, fs: seq<FileEvent>)
    requires fs != [] && DistinctIds(fs)
    ensures var after := InsertArchiveRows(before, classes, [fs[|fs| - 1]]);
            AllAgree(after, fs) <==> AllAgree(before, fs[..|fs| - 1]) && Agrees(after, fs[|fs| - 1])
  {
    var init, f := fs[..|fs| - 1], fs[|fs| - 1];
    InsertOneArchiveRow(before, classes, f);
    var after := InsertArchiveRows(before, classes, [f]);
    assert forall k :: 0 <= k < |init| ==> init[k] == fs[k] && init[k].archiveId != f.archiveId;
    assert forall a :: a != f.archiveId ==> (a in before <==> a in after);
    assert forall k :: 0 <= k < |init| ==> (Agrees(before, init[k]) <==> Agrees(after, init[k]));
  }

  lemma RowsSplit(fs: seq<FileEvent>, now: nat)
    requires fs != []
    ensures BatchRows(fs, now) == BatchRows(fs[..|fs| - 1], now) + BatchRows([fs[|fs| - 1]], now)
  {
    OneBatchRow(fs[|fs| - 1], now);
  }

  /** The copies the last event displaces are the same before and after the others are recorded. */
  lemma DisplacedSplit(tapeFiles: map<Pos, TapeRow>, fs: seq<FileEvent>, now: nat)
    requires fs != [] && DistinctIds(fs)
    requires forall i, j :: 0 <= i < j < |fs| ==> PosOf(fs[i]) != PosOf(fs[j])
    requires forall k :: 0 <= k < |fs| ==> PosOf(fs[k]) !in tapeFiles
    ensures var init, f := fs[..|fs| - 1], fs[|fs| - 1];
            var gone := Displaced(tapeFiles, init);
            && Displaced(tapeFiles, fs) == gone + Displaced(tapeFiles, [f])
            && gone !! Displaced(tapeFiles, [f])
            && Displaced(tapeFiles + BatchRows(init, now) - gone, [f]) == Displaced(tapeFiles, [f])
  {
    var init, f := fs[..|fs| - 1], fs[|fs| - 1];
    var gone := Displaced(tapeFiles, init);
    BatchRowsAre(init, now);
    forall p | p in Displaced(tapeFiles, fs) ensures p in gone + Displaced(tapeFiles, [f]) {
      var k :| 0 <= k < |fs| && Supersedes(fs[k], p, tapeFiles[p]);
      if k < |init| {
        assert Supersedes(init[k], p, tapeFiles[p]);
      } else {
        assert Supersedes([f][0], p, tapeFiles[p]);
      }
    }
    forall p | p in gone ensures p in Displaced(tapeFiles, fs) {
      var k :| 0 <= k < |init| && Supersedes(init[k], p, tapeFiles[p]);
      assert Supersedes(fs[k], p, tapeFiles[p]);
    }
    forall p | p in Displaced(tapeFiles, [f]) ensures p in Displaced(tapeFiles, fs) && p !in gone {
      assert Supersedes(fs[|fs| - 1], p, tapeFiles[p]);
    }
    var mid := tapeFiles + BatchRows(init, now) - gone;
    forall p | p in mid ensures Supersedes(f, p, mid[p]) ==> p in Displaced(tapeFiles, [f]) {
      if p in BatchRows(init, now) {
        var k :| 0 <= k < |init| && p == PosOf(init[k]);
        assert mid[p] == TapeRowOf(init[k], now);
      } else if Supersedes(f, p, mid[p]) {
        assert Supersedes([f][0], p, tapeFiles[p]);
      }
    }
    forall p | p in Displaced(tapeFiles, [f]) ensures p in Displaced(mid, [f]) {
      assert p in mid && mid[p] == tapeFiles[p];
      assert Supersedes([f][0], p, mid[p]);
    }
  }

  lemma LogSplit(archive: map<nat, ArchiveRow>, mid: map<nat, ArchiveRow>, last: map<nat, ArchiveRow>,
                 tapeFiles: map<Pos, TapeRow>, tapeFiles': map<Pos, TapeRow>, gone: set<Pos>, more: set<Pos>)
    requires forall p :: p in gone + more ==> p in tapeFiles && tapeFiles[p].archiveId in archive
    requires forall p :: p in more ==> p in tapeFiles' && tapeFiles'[p] == tapeFiles[p]
    requires forall a :: a in archive ==> a in mid && a in last && mid[a] == archive[a] == last[a]
    requires gone !! more
    ensures multiset(LogRows(mid, tapeFiles, gone)) + multiset(LogRows(last, tapeFiles', more))
            == multiset(LogRows(last, tapeFiles, gone + more))
  {
    var a, b := LogRows(mid, tapeFiles, gone), LogRows(last, tapeFiles', more);
    var c := LogRows(last, tapeFiles, gone + more);
    assert a == LogRows(archive, tapeFiles, gone);
    assert b == LogRows(archive, tapeFiles, more);
    assert c == LogRows(archive, tapeFiles, gone + more);
    assert forall r :: r in a ==> r.pos in gone;
    assert forall r :: r in b ==> r.pos in more;
    assert c == a + b && a !! b;
  }

  /** Inserting all rows at once meets the constraints exactly when inserting the last one after
      the others does and its block identifier is not one of a displaced copy either. */
  lemma InsertableSplit(tapeFiles: map<Pos, TapeRow>, fs: seq<FileEvent>, now: nat, gone: set<Pos>)
    requires fs != [] && gone <= tapeFiles.Keys
    requires forall i, j :: 0 <= i < j < |fs| ==> PosOf(fs[i]) != PosOf(fs[j])
    requires forall k :: 0 <= k < |fs| ==> PosOf(fs[k]) !in tapeFiles
    ensures var init, f := fs[..|fs| - 1], fs[|fs| - 1];
            Insertable(tapeFiles, BatchRows(fs, now)) <==>
              && Insertable(tapeFiles, BatchRows(init, now))
              && Insertable(tapeFiles + BatchRows(init, now) - gone, BatchRows([f], now))
              && NoBlockReuse(tapeFiles, [f])
  {
    var init, f := fs[..|fs| - 1], fs[|fs| - 1];
    var rows, one := BatchRows(init, now), map[PosOf(f) := TapeRowOf(f, now)];
    BatchRowsAre(fs, now);
    BatchRowsAre(init, now);
    RowsSplit(fs, now);
    OneBatchRow(f, now);
    assert PosOf(f) !in rows;
    BlocksSplit(tapeFiles, rows, gone, PosOf(f), TapeRowOf(f, now));
    assert NoBlockReuse(tapeFiles, [f]) <==>
           forall p :: p in tapeFiles ==> !SameBlock(p, tapeFiles[p], PosOf(f), TapeRowOf(f, now)) by {
      assert [f][0] == f;
    }
  }

  lemma BlocksSplit(tapeFiles: map<Pos, TapeRow>, rows: map<Pos, TapeRow>, gone: set<Pos>, q: Pos, row: TapeRow)
    requires gone <= tapeFiles.Keys && rows.Keys !! tapeFiles.Keys && q !in tapeFiles && q !in rows
    ensures UniqueBlocks(tapeFiles + (rows + map[q := row])) <==>
            && UniqueBlocks(tapeFiles + rows)
            && UniqueBlocks(tapeFiles + rows - gone + map[q := row])
            && forall p :: p in tapeFiles ==> !SameBlock(p, tapeFiles[p], q, row)
  {
    var all := tapeFiles + (rows + map[q := row]);
    var some := tapeFiles + rows - gone + map[q := row];
    assert forall p :: p in some ==> p in all && some[p] == all[p];
    assert forall p :: p in tapeFiles + rows ==> p in all && (tapeFiles + rows)[p] == all[p];
    if UniqueBlocks(all) {
      forall p | p in tapeFiles ensures !SameBlock(p, tapeFiles[p], q, row) {
        assert all[p] == tapeFiles[p] && all[q] == row;
      }
    }
    if UniqueBlocks(tapeFiles + rows) && UniqueBlocks(some)
       && forall p :: p in tapeFiles ==> !SameBlock(p, tapeFiles[p], q, row) {
      forall p, p' | p in all && p' in all && SameBlock(p, all[p], p', all[p']) ensures p == p' {
        if p != q && p' != q {
          assert (tapeFiles + rows)[p] == all[p] && (tapeFiles + rows)[p'] == all[p'];
        }
      }
    }
  }

  // Whole transactions

  /** When recording the events succeeds, and what it leaves behind. */
  lemma RecordExact(db: Db, fs: seq<FileEvent>, now: nat)
    ensures var archive := InsertArchiveRows(db.archive, db.storageClasses, fs);
            var gone := Displaced(db.tapeFiles, fs);
            && (RecordFiles(db, fs, now).Done? <==>
                && DistinctIds(fs) && AllAgree(archive, fs) && UniqueDisk(archive)
                && Insertable(db.tapeFiles, BatchRows(fs, now)))
            && (RecordFiles(db, fs, now).Done? ==>
                && (forall p :: p in gone ==> p in db.tapeFiles && db.tapeFiles[p].archiveId in archive)
                && RecordFiles(db, fs, now).db ==
                   db.(archive := archive,
                       log := db.log + multiset(LogRows(archive, db.tapeFiles, gone)),
                       tapeFiles := db.tapeFiles + BatchRows(fs, now) - gone))
  {
    var archive := InsertArchiveRows(db.archive, db.storageClasses, fs);
    VerifyErrorExact(archive, fs);
  }

  lemma TablesSplit(tapeFiles: map<Pos, TapeRow>, rows: map<Pos, TapeRow>, one: map<Pos, TapeRow>,
                    gone: set<Pos>, more: set<Pos>)
    requires one.Keys !! tapeFiles.Keys && gone <= tapeFiles.Keys && more <= tapeFiles.Keys
    ensures tapeFiles + (rows + one) - (gone + more) == tapeFiles + rows - gone + one - more
  {
  }

  /** Recording a batch is recording its prefix and then its last event, and is possible exactly
      when those are, the last identifier is new, and its block is not in use. */
  lemma RecordSplit(db: Db, fs: seq<FileEvent>, now: nat)
    requires fs != [] && SizesAgree(db.archive, db.tapeFiles) && DistinctIds(fs)
    requires forall i, j :: 0 <= i < j < |fs| ==> PosOf(fs[i]) != PosOf(fs[j])
    requires forall k :: 0 <= k < |fs| ==> PosOf(fs[k]) !in db.tapeFiles
    ensures var init, f := fs[..|fs| - 1], fs[|fs| - 1];
            var first := RecordFiles(db, init, now);
            && (RecordFiles(db, fs, now).Done? <==>
                first.Done? && RecordFiles(first.db, [f], now).Done? && NoBlockReuse(db.tapeFiles, [f]))
            && (RecordFiles(db, fs, now).Done? ==> RecordFiles(db, fs, now) == RecordFiles(first.db, [f], now))
  {
    var init, f := fs[..|fs| - 1], fs[|fs| - 1];
    var gone, more := Displaced(db.tapeFiles, init), Displaced(db.tapeFiles, [f]);
    var before := InsertArchiveRows(db.archive, db.storageClasses, init);
    var after := InsertArchiveRows(db.archive, db.storageClasses, fs);
    DistinctSplit(fs);
    ArchiveSplit(db.archive, db.storageClasses, fs);
    AgreeSplit(before, db.storageClasses, fs);
    InsertableSplit(db.tapeFiles, fs, now, gone);
    DisplacedSplit(db.tapeFiles, fs, now);
    RecordExact(db, fs, now);
    RecordExact(db, init, now);
    var first := RecordFiles(db, init, now);
    if first.Done? {
      RecordExact(first.db, [f], now);
      assert AllAgree(after, [f]) <==> Agrees(after, f) by { assert [f][0] == f; }
      assert DistinctIds([f]);
      if RecordFiles(db, fs, now).Done? {
        RowsSplit(fs, now);
        OneBatchRow(f, now);
        TablesSplit(db.tapeFiles, BatchRows(init, now), BatchRows([f], now), gone, more);
        LogSplit(db.archive, before, after, db.tapeFiles, first.db.tapeFiles, gone, more);
      }
    }
  }

  lemma RecordNothing(db: Db, now: nat)
    requires UniqueDisk(db.archive) && UniqueBlocks(db.tapeFiles)
    ensures RecordFiles(db, [], now) == Done(db)
  {
    assert Displaced(db.tapeFiles, []) == {};
    assert LogRows(db.archive, db.tapeFiles, {}) == {};
    assert db.tapeFiles + map[] - {} == db.tapeFiles;
    assert db.log + multiset({}) == db.log;
    RecordExact(db, [], now);
  }

  lemma {:induction false} RowsEqualSet(db: Db, fs: seq<FileEvent>, now: nat)
    requires Inv(db) && Placed(db, fs) && forall k :: 0 <= k < |fs| ==> FileFieldsSet(fs[k])
    ensures WriteRows(db, fs, now).Done? && DistinctIds(fs) && NoBlockReuse(db.tapeFiles, fs) <==>
            RecordFiles(db, fs, now).Done? && ClassesExist(db.storageClasses, fs)
    ensures WriteRows(db, fs, now).Done? && RecordFiles(db, fs, now).Done? ==>
              WriteRows(db, fs, now) == RecordFiles(db, fs, now)
  {
    RecordExact(db, fs, now);
    if fs == [] {
      RecordNothing(db, now);
    } else if DistinctIds(fs) {
      var init, f := fs[..|fs| - 1], fs[|fs| - 1];
      PrefixOf(db, fs);
      RowsEqualSet(db, init, now);
      RecordExact(db, init, now);
      NotInTable(db, fs);
      RecordSplit(db, fs, now);
      assert WriteRows(db, fs, now).Done? ==> WriteRows(db, init, now).Done?;
      var first := RecordFiles(db, init, now);
      if first.Done? {
        WriteRowExact(first.db, f, now);
      }
    }
  }

  lemma PrefixOf(db: Db, fs: seq<FileEvent>)
    requires fs != [] && Placed(db, fs)
    ensures var init, f := fs[..|fs| - 1], fs[|fs| - 1];
            && Placed(db, init)
            && (DistinctIds(fs) ==> DistinctIds(init))
            && (NoBlockReuse(db.tapeFiles, fs) <==> NoBlockReuse(db.tapeFiles, init) && NoBlockReuse(db.tapeFiles, [f]))
            && (ClassesExist(db.storageClasses, fs) <==>
                ClassesExist(db.storageClasses, init) && f.storageClass in db.storageClasses)
  {
    var init, f := fs[..|fs| - 1], fs[|fs| - 1];
    assert forall k :: 0 <= k < |init| ==> init[k] == fs[k];
    assert [f][0] == f;
    if NoBlockReuse(db.tapeFiles, init) && NoBlockReuse(db.tapeFiles, [f]) {
      forall k, p | 0 <= k < |fs| && p in db.tapeFiles
        ensures !(p.vid == fs[k].vid && db.tapeFiles[p].blockId == fs[k].blockId)
      {
        if k < |init| { assert fs[k] == init[k]; } else { assert fs[k] == [f][0]; }
      }
    }
  }

  lemma NotInTable(db: Db, fs: seq<FileEvent>)
    requires Placed(db, fs)
    ensures forall k :: 0 <= k < |fs| ==> PosOf(fs[k]) !in db.tapeFiles
  {
  }

  lemma HeaderSplit(db: Db, b: Batch)
    requires b != []
    ensures HeaderError(db, b, true).None? <==>
            HeaderError(db, b, false).None? && forall k :: 0 <= k < |Files(b)| ==> FileFieldsSet(Files(b)[k])
  {
    HeaderExact(db, b, true);
    HeaderExact(db, b, false);
    FileElements(b);
    assert (forall k :: 0 <= k < |Files(b)| ==> FileFieldsSet(Files(b)[k])) <==>
           (forall e: Event :: e in Files(b) ==> FileFieldsSet(e));
    assert (forall k :: 0 <= k < |b| && b[k].File? ==> FileFieldsSet(b[k])) <==>
           (forall e: Event :: e in b && e.File? ==> FileFieldsSet(e));
  }

  lemma {:induction false} FileElements(b: seq<Event>)
    ensures forall e: Event :: e in Files(b) <==> e in b && e.File?
  {
    if b != [] {
      FileElements(b[1..]);
      assert forall e :: e in b <==> e == b[0] || e in b[1..];
    }
  }

  lemma {:induction false} RowsCheckFields(db: Db, fs: seq<FileEvent>, now: nat)
    requires WriteRows(db, fs, now).Done?
    ensures forall k :: 0 <= k < |fs| ==> FileFieldsSet(fs[k])
  {
    if fs != [] {
      RowsCheckFields(db, fs[..|fs| - 1], now);
      assert forall k :: 0 <= k < |fs| - 1 ==> fs[k] == fs[..|fs| - 1][k];
    }
  }

  /** The row-by-row write accepts a batch with distinct identifiers and unused blocks exactly
      when the set-wise write accepts it and its storage classes exist. */
  lemma WritesAcceptTheSame(db: Db, b: Batch, now: nat)
    requires Inv(db)
    ensures WriteRowWise(db, b, now).Done? && DistinctIds(Files(b)) && NoBlockReuse(db.tapeFiles, Files(b)) <==>
            WriteSetWise(db, b, now).Done? && ClassesExist(db.storageClasses, Files(b))
    ensures WriteRowWise(db, b, now).Done? && WriteSetWise(db, b, now).Done? ==>
              WriteRowWise(db, b, now) == WriteSetWise(db, b, now)
  {
    if b != [] && HeaderError(db, b, false).None? {
      var db1, fs := UpdateTape(db, b), Files(b);
      HeaderSplit(db, b);
      UpdateTapeKeepsInv(db, b, false);
      HeaderPlaces(db, b, false);
      RecordNothing(db1, now);
      if forall k :: 0 <= k < |fs| ==> FileFieldsSet(fs[k]) {
        RowsEqualSet(db1, fs, now);
      } else if WriteRows(db1, fs, now).Done? {
        RowsCheckFields(db1, fs, now);
        assert false;
      }
    } else if b != [] {
      HeaderSplit(db, b);
    }
  }

  // The two set-wise back ends insert archive files differently

  predicate AllPresent(archive: map<nat, ArchiveRow>, fs: seq<FileEvent>) {
    forall k :: 0 <= k < |fs| ==> fs[k].archiveId in archive
  }

  /** Skipping and then finding a row missing refuses the same batches as PostgreSQL's deferred
      constraint, and leaves the same table where it does not refuse. */
  lemma {:induction false} SkippingIsDeferring(archive: map<nat, ArchiveRow>, classes: set<string>, fs: seq<FileEvent>)
    requires UniqueDisk(archive) && DistinctIds(fs)
    ensures var skipping := InsertArchiveRowsSkipping(archive, classes, fs);
            var deferring := InsertArchiveRows(archive, classes, fs);
            && (AllPresent(skipping, fs) <==> AllPresent(deferring, fs) && UniqueDisk(deferring))
            && (AllPresent(skipping, fs) ==> skipping == deferring)
  {
    if fs != [] {
      var init, f := fs[..|fs| - 1], fs[|fs| - 1];
      assert forall k :: 0 <= k < |init| ==> init[k] == fs[k] && init[k].archiveId != f.archiveId;
      SkippingIsDeferring(archive, classes, init);
      ArchiveSplit(archive, classes, fs);
      var s, d := InsertArchiveRowsSkipping(archive, classes, init), InsertArchiveRows(archive, classes, init);
      PresentSplit(s, InsertArchiveRowsSkipping(archive, classes, fs), fs);
      PresentSplit(d, InsertArchiveRows(archive, classes, fs), fs);
      if s == d && UniqueDisk(d) && f.archiveId !in d {
        AddKeepsUniqueDisk(d, f);
      }
    }
  }

  /** Where PostgreSQL's table satisfies the disk file constraint, Oracle's is the same. */
  lemma {:induction false} SkippingLosesNothing(archive: map<nat, ArchiveRow>, classes: set<string>, fs: seq<FileEvent>)
    requires UniqueDisk(InsertArchiveRows(archive, classes, fs))
    ensures InsertArchiveRowsSkipping(archive, classes, fs) == InsertArchiveRows(archive, classes, fs)
  {
    if fs != [] {
      var init, f := fs[..|fs| - 1], fs[|fs| - 1];
      ArchiveSplit(archive, classes, fs);
      SkippingLosesNothing(archive, classes, init);
      var before := InsertArchiveRows(archive, classes, init);
      if f.archiveId !in before && f.storageClass in classes { AddKeepsUniqueDisk(before, f); }
    }
  }

  lemma RecordWithPresent(db: Db, archive: map<nat, ArchiveRow>, fs: seq<FileEvent>, now: nat)
    requires RecordWith(db, archive, fs, now).Done?
    ensures AllPresent(archive, fs) && DistinctIds(fs)
  {
    VerifyErrorExact(archive, fs);
    assert forall k :: 0 <= k < |fs| ==> Agrees(archive, fs[k]);
  }

  /** Oracle's recording succeeds exactly when PostgreSQL's does, with the same result.  If the disk
      file constraint is not at stake, refusals are the same too; otherwise Oracle finds an archive
      file missing where PostgreSQL finds the constraint violated. */
  lemma RecordingsAgree(db: Db, fs: seq<FileEvent>, now: nat)
    requires UniqueDisk(db.archive)
    ensures RecordFilesSkipping(db, fs, now).Done? <==> RecordFiles(db, fs, now).Done?
    ensures RecordFiles(db, fs, now).Done? || UniqueDisk(InsertArchiveRows(db.archive, db.storageClasses, fs)) ==>
              RecordFilesSkipping(db, fs, now) == RecordFiles(db, fs, now)
  {
    var deferring := InsertArchiveRows(db.archive, db.storageClasses, fs);
    var skipping := InsertArchiveRowsSkipping(db.archive, db.storageClasses, fs);
    if UniqueDisk(deferring) {
      SkippingLosesNothing(db.archive, db.storageClasses, fs);
    } else if RecordFilesSkipping(db, fs, now).Done? {
      RecordWithPresent(db, skipping, fs, now);
      SkippingIsDeferring(db.archive, db.storageClasses, fs);
      assert false;
    }
  }

  /** The two set-wise back ends accept the same batches with the same result. */
  lemma SetWiseWritesAgree(db: Db, b: Batch, now: nat)
    requires UniqueDisk(db.archive)
    ensures WriteOn(false, db, b, now).Done? <==> WriteSetWise(db, b, now).Done?
    ensures WriteSetWise(db, b, now).Done? ==> WriteOn(false, db, b, now) == WriteSetWise(db, b, now)
  {
    if b != [] && HeaderError(db, b, true).None? && Files(b) != [] {
      RecordingsAgree(UpdateTape(db, b), Files(b), now);
    }
  }

  lemma PresentSplit(before: map<nat, ArchiveRow>, after: map<nat, ArchiveRow>, fs: seq<FileEvent>)
    requires fs != [] && DistinctIds(fs)
    requires forall a :: a != fs[|fs| - 1].archiveId ==> (a in before <==> a in after)
    ensures AllPresent(after, fs) <==> AllPresent(before, fs[..|fs| - 1]) && fs[|fs| - 1].archiveId in after
  {
    var init := fs[..|fs| - 1];
    assert forall k :: 0 <= k < |init| ==> init[k] == fs[k] && init[k].archiveId != fs[|fs| - 1].archiveId;
  }

  lemma AddKeepsUniqueDisk(archive: map<nat, ArchiveRow>, f: FileEvent)
    requires UniqueDisk(archive) && f.archiveId !in archive
    ensures UniqueDisk(archive[f.archiveId := ArchiveRowOf(f)]) <==> !ArchiveKeyTaken(archive, f)
  {
    var after := archive[f.archiveId := ArchiveRowOf(f)];
    if ArchiveKeyTaken(archive, f) {
      var a :| a in archive && SameDiskFile(archive[a], ArchiveRowOf(f));
      assert a in after && f.archiveId in after && SameDiskFile(after[a], after[f.archiveId]);
    }
  }
}

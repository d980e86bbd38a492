/** What recording a batch keeps: the catalogue invariant, and the account of tape positions. */
module WriteInvariant {
  import opened Tables
  import opened Writes

  /** The events take pairwise different positions that exist on their tape and that no live
      copy and no log row holds.  The header check establishes this. */
  predicate Placed(db: Db, fs: seq<FileEvent>) {
    && (forall k :: 0 <= k < |fs| ==> OnTape(db.tapes, PosOf(fs[k])) && PosOf(fs[k]) !in Held(db))
    && (forall i, j :: 0 <= i < j < |fs| ==> PosOf(fs[i]) != PosOf(fs[j]))
  }

  /** An archive file that the batch creates has the size that any log row with its
      identifier remembers.  Identifiers are drawn from a sequence and never reused, so a
      caller that respects this has no such log row at all. */
  predicate SizesKnown(db: Db, fs: seq<FileEvent>) {
    forall k, r | 0 <= k < |fs| && fs[k].archiveId !in db.archive && r in db.log ::
      r.archiveId == fs[k].archiveId ==> r.size == fs[k].size
  }

  lemma {:induction false} BatchRowsAre(fs: seq<FileEvent>, now: nat)
    requires forall i, j :: 0 <= i < j < |fs| ==> PosOf(fs[i]) != PosOf(fs[j])
    ensures forall k :: 0 <= k < |fs| ==>
              PosOf(fs[k]) in BatchRows(fs, now) && BatchRows(fs, now)[PosOf(fs[k])] == TapeRowOf(fs[k], now)
    ensures forall p :: p in BatchRows(fs, now) ==> exists k :: 0 <= k < |fs| && p == PosOf(fs[k])
  {
    if fs != [] {
      var init := fs[..|fs| - 1];
      BatchRowsAre(init, now);
      forall k | 0 <= k < |fs|
        ensures PosOf(fs[k]) in BatchRows(fs, now) && BatchRows(fs, now)[PosOf(fs[k])] == TapeRowOf(fs[k], now)
      {
        if k < |init| { assert fs[k] == init[k]; }
      }
      forall p | p in BatchRows(fs, now)
        ensures exists k :: 0 <= k < |fs| && p == PosOf(fs[k])
      {
        if p in BatchRows(init, now) {
          var k :| 0 <= k < |init| && p == PosOf(init[k]);
          assert p == PosOf(fs[k]);
        } else {
          assert p == PosOf(fs[|fs| - 1]);
        }
      }
    }
  }

  /** A new archive row is that of an event with its identifier, whose storage class exists. */
  lemma {:induction false} InsertedRows(archive: map<nat, ArchiveRow>, classes: set<string>, fs: seq<FileEvent>)
    ensures forall a :: a in InsertArchiveRows(archive, classes, fs) && a !in archive ==>
              exists k :: 0 <= k < |fs| && fs[k].archiveId == a && fs[k].storageClass in classes
                          && InsertArchiveRows(archive, classes, fs)[a] == ArchiveRowOf(fs[k])
  {
    if fs != [] {
      var init := fs[..|fs| - 1];
      InsertedRows(archive, classes, init);
      forall a | a in InsertArchiveRows(archive, classes, fs) && a !in archive
        ensures exists k :: 0 <= k < |fs| && fs[k].archiveId == a && fs[k].storageClass in classes
                            && InsertArchiveRows(archive, classes, fs)[a] == ArchiveRowOf(fs[k])
      {
        if a in InsertArchiveRows(archive, classes, init) {
          var k :| 0 <= k < |init| && init[k].archiveId == a && init[k].storageClass in classes
                   && InsertArchiveRows(archive, classes, init)[a] == ArchiveRowOf(init[k]);
          assert fs[k] == init[k];
        } else {
          assert fs[|fs| - 1].archiveId == a;
        }
      }
    }
  }

  /** The displaced copies were live, and none of the new positions is among them. */
  lemma DisplacedWereLive(db: Db, fs: seq<FileEvent>)
    requires Placed(db, fs)
    ensures Displaced(db.tapeFiles, fs) <= db.tapeFiles.Keys
    ensures forall k :: 0 <= k < |fs| ==> PosOf(fs[k]) !in Displaced(db.tapeFiles, fs)
  {
  }

  lemma RecordKeepsInRange(db: Db, fs: seq<FileEvent>, now: nat)
    requires InRange(db) && Placed(db, fs) && RecordFiles(db, fs, now).Done?
    ensures InRange(RecordFiles(db, fs, now).db)
  {
    BatchRowsAre(fs, now);
  }

  lemma MoveKeepsOneCopy(tapeFiles: map<Pos, TapeRow>, rows: map<Pos, TapeRow>, gone: set<Pos>)
    requires OneCopy(tapeFiles) && OneCopy(rows) && rows.Keys !! tapeFiles.Keys
    requires forall p, q :: p in tapeFiles && q in rows && SameCopy(tapeFiles[p], rows[q]) ==> p in gone
    ensures OneCopy(tapeFiles + rows - gone)
  {
  }

  lemma BatchRowsKeys(fs: seq<FileEvent>, now: nat)
    requires forall i, j :: 0 <= i < j < |fs| ==> PosOf(fs[i]) != PosOf(fs[j])
    ensures BatchRows(fs, now).Keys == set k | 0 <= k < |fs| :: PosOf(fs[k])
  {
    BatchRowsAre(fs, now);
  }

  lemma LiveAfterMove(tapeFiles: map<Pos, TapeRow>, rows: map<Pos, TapeRow>, gone: set<Pos>, p: Pos)
    requires p in rows && p !in gone
    ensures p in tapeFiles + rows - gone && (tapeFiles + rows - gone)[p] == rows[p]
  {
  }

  lemma RecordResult(db: Db, fs: seq<FileEvent>, now: nat) returns (added: set<LogRow>)
    requires RecordFiles(db, fs, now).Done?
    ensures var db' := RecordFiles(db, fs, now).db;
            && (forall p :: p in Displaced(db.tapeFiles, fs) ==> db.tapeFiles[p].archiveId in db'.archive)
            && added == LogRows(db'.archive, db.tapeFiles, Displaced(db.tapeFiles, fs))
            && db'.tapeFiles == db.tapeFiles + BatchRows(fs, now) - Displaced(db.tapeFiles, fs)
            && db'.log == db.log + multiset(added)
    ensures OneRowEach(added, Displaced(db.tapeFiles, fs)) && DistinctIds(fs)
  {
    var db' := RecordFiles(db, fs, now).db;
    VerifyErrorExact(db'.archive, fs);
    added := LogRows(db'.archive, db.tapeFiles, Displaced(db.tapeFiles, fs));
    LogRowsOneEach(db'.archive, db.tapeFiles, Displaced(db.tapeFiles, fs));
    assert forall k :: 0 <= k < |fs| ==> Agrees(db'.archive, fs[k]);
  }

  /** Conservation: exactly the displaced copies leave TAPE_FILE, each is logged exactly once with
      what the catalogue knows about it, a just-inserted row is never deleted, and the positions
      accounted for grow by exactly those of the batch. */
  lemma RecordConserves(db: Db, fs: seq<FileEvent>, now: nat)
    requires HeldOnce(db.tapeFiles, db.log) && Placed(db, fs) && RecordFiles(db, fs, now).Done?
    ensures HeldOnce(RecordFiles(db, fs, now).db.tapeFiles, RecordFiles(db, fs, now).db.log)
    ensures Held(RecordFiles(db, fs, now).db) == Held(db) + set k | 0 <= k < |fs| :: PosOf(fs[k])
    ensures forall k :: 0 <= k < |fs| ==>
              && PosOf(fs[k]) in RecordFiles(db, fs, now).db.tapeFiles
              && RecordFiles(db, fs, now).db.tapeFiles[PosOf(fs[k])] == TapeRowOf(fs[k], now)
    ensures var db' := RecordFiles(db, fs, now).db;
            var gone := Displaced(db.tapeFiles, fs);
            && (forall p :: p in gone ==> db.tapeFiles[p].archiveId in db'.archive)
            && db'.log == db.log + multiset(LogRows(db'.archive, db.tapeFiles, gone))
            && (forall p :: p in gone ==> p !in db'.tapeFiles && p in Logged(db'.log))
            && (forall p :: p in db.tapeFiles && p !in gone ==>
                  p in db'.tapeFiles && db'.tapeFiles[p] == db.tapeFiles[p])
  {
    var gone := Displaced(db.tapeFiles, fs);
    var rows := BatchRows(fs, now);
    var added := RecordResult(db, fs, now);
    BatchRowsAre(fs, now);
    BatchRowsKeys(fs, now);
    DisplacedWereLive(db, fs);
    NotLogged(db, fs);
    MoveKeepsHeldOnce(db.tapeFiles, db.log, rows, gone, added);
    MoveAddsPositions(db.tapeFiles, db.log, rows, gone, added);
    LoggedGrows(db.log, added, gone);
    forall k | 0 <= k < |fs|
      ensures var live := RecordFiles(db, fs, now).db.tapeFiles;
              PosOf(fs[k]) in live && live[PosOf(fs[k])] == TapeRowOf(fs[k], now)
    {
      LiveAfterMove(db.tapeFiles, rows, gone, PosOf(fs[k]));
    }
  }

  lemma NotLogged(db: Db, fs: seq<FileEvent>)
    requires Placed(db, fs)
    ensures forall k, r :: 0 <= k < |fs| && r in db.log ==> PosOf(fs[k]) !in db.tapeFiles && r.pos != PosOf(fs[k])
  {
    forall k, r | 0 <= k < |fs| && r in db.log
      ensures PosOf(fs[k]) !in db.tapeFiles && r.pos != PosOf(fs[k])
    {
      assert r.pos in Held(db);
    }
  }

  lemma NewCopiesDiffer(tapeFiles: map<Pos, TapeRow>, fs: seq<FileEvent>, now: nat)
    requires DistinctIds(fs) && forall k :: 0 <= k < |fs| ==> PosOf(fs[k]) !in tapeFiles
    requires forall i, j :: 0 <= i < j < |fs| ==> PosOf(fs[i]) != PosOf(fs[j])
    ensures OneCopy(BatchRows(fs, now))
    ensures forall p, q :: p in tapeFiles && q in BatchRows(fs, now) && SameCopy(tapeFiles[p], BatchRows(fs, now)[q])
                           ==> p in Displaced(tapeFiles, fs)
  {
    BatchRowsAre(fs, now);
  }

  lemma RecordKeepsOneCopy(db: Db, fs: seq<FileEvent>, now: nat)
    requires OneCopy(db.tapeFiles) && Placed(db, fs) && RecordFiles(db, fs, now).Done?
    ensures OneCopy(RecordFiles(db, fs, now).db.tapeFiles)
  {
    BatchRowsAre(fs, now);
    var _ := RecordResult(db, fs, now);
    NewCopiesDiffer(db.tapeFiles, fs, now);
    MoveKeepsOneCopy(db.tapeFiles, BatchRows(fs, now), Displaced(db.tapeFiles, fs));
  }

  lemma RecordKeepsSizes(db: Db, fs: seq<FileEvent>, now: nat)
    requires SizesAgree(db.archive, db.tapeFiles) && Placed(db, fs) && RecordFiles(db, fs, now).Done?
    ensures SizesAgree(RecordFiles(db, fs, now).db.archive, RecordFiles(db, fs, now).db.tapeFiles)
  {
    BatchRowsAre(fs, now);
    VerifyErrorExact(RecordFiles(db, fs, now).db.archive, fs);
  }

  /** The log keeps agreeing with the archive file sizes exactly when no created archive file
      takes up an identifier that the log remembers with another size. */
  lemma RecordLogSizesExact(db: Db, fs: seq<FileEvent>, now: nat)
    requires LogSizesAgree(db.archive, db.log) && Placed(db, fs) && RecordFiles(db, fs, now).Done?
    ensures LogSizesAgree(RecordFiles(db, fs, now).db.archive, RecordFiles(db, fs, now).db.log)
            <==> SizesKnown(db, fs)
  {
    var db' := RecordFiles(db, fs, now).db;
    VerifyErrorExact(db'.archive, fs);
    InsertedRows(db.archive, db.storageClasses, fs);
    if LogSizesAgree(db'.archive, db'.log) {
      forall k, r | 0 <= k < |fs| && fs[k].archiveId !in db.archive && r in db.log
                    && r.archiveId == fs[k].archiveId
        ensures r.size == fs[k].size
      {
        assert r in db'.log && Agrees(db'.archive, fs[k]);
      }
    }
  }

  lemma RecordKeepsInv(db: Db, fs: seq<FileEvent>, now: nat)
    requires Inv(db) && Placed(db, fs) && SizesKnown(db, fs) && RecordFiles(db, fs, now).Done?
    ensures Inv(RecordFiles(db, fs, now).db)
  {
    RecordKeepsInRange(db, fs, now);
    RecordConserves(db, fs, now);
    RecordKeepsOneCopy(db, fs, now);
    RecordKeepsSizes(db, fs, now);
    RecordLogSizesExact(db, fs, now);
  }

  // From a whole batch to its file events

  function FilePositions(fs: seq<FileEvent>): set<Pos> {
    set k | 0 <= k < |fs| :: PosOf(fs[k])
  }

  lemma {:induction false} FilesFollow(b: seq<Event>, vid: string, expected: nat, checkFiles: bool)
    requires ItemsFollow(b, vid, expected, checkFiles)
    ensures forall k :: 0 <= k < |Files(b)| ==>
              && Files(b)[k].vid == vid && expected <= Files(b)[k].fSeq < expected + |b|
              && (checkFiles ==> FileFieldsSet(Files(b)[k]))
    ensures Ascending(Files(b))
  {
    if b != [] {
      assert forall k :: 0 <= k < |b[1..]| ==> b[1..][k] == b[k + 1];
      FilesFollow(b[1..], vid, expected + 1, checkFiles);
    }
  }

  lemma {:induction false} BytesAdd(items: seq<Event>, b: seq<Event>)
    ensures TotalBytes(Files(items + b)) == TotalBytes(Files(items)) + TotalBytes(Files(b))
  {
    if items == [] {
      assert items + b == b;
    } else {
      BytesAdd(items[1..], b);
      assert (items + b)[1..] == items[1..] + b && (items + b)[0] == items[0];
      if items[0].File? {
        assert Files(items)[1..] == Files(items[1..]);
        assert Files(items + b)[1..] == Files(items[1..] + b);
      }
    }
  }

  /** An accepted header: the tape exists and the items continue it without a gap. */
  lemma HeaderExact(db: Db, b: Batch, checkFiles: bool)
    requires b != []
    ensures HeaderError(db, b, checkFiles).None? <==>
            && b[0].vid in db.tapes
            && ItemsFollow(b, b[0].vid, db.tapes[b[0].vid].lastFSeq + 1, checkFiles)
  {
    if b[0].vid in db.tapes {
      ItemsErrorExact(b, b[0].vid, db.tapes[b[0].vid].lastFSeq + 1, checkFiles);
    }
  }

  lemma UpdateTapeKeepsInv(db: Db, b: Batch, checkFiles: bool)
    requires Inv(db) && b != [] && HeaderError(db, b, checkFiles).None?
    ensures b[0].vid in db.tapes && Inv(UpdateTape(db, b))
    ensures UpdateTape(db, b).tapes[b[0].vid].lastFSeq == db.tapes[b[0].vid].lastFSeq + |b|
    ensures Held(UpdateTape(db, b)) == Held(db)
  {
    HeaderExact(db, b, checkFiles);
    assert b[|b| - 1].fSeq == db.tapes[b[0].vid].lastFSeq + |b|;
    var db1 := UpdateTape(db, b);
    assert forall p :: OnTape(db.tapes, p) ==> OnTape(db1.tapes, p);
  }

  lemma HeaderPlaces(db: Db, b: Batch, checkFiles: bool)
    requires Inv(db) && b != [] && HeaderError(db, b, checkFiles).None?
    ensures b[0].vid in db.tapes && Placed(UpdateTape(db, b), Files(b))
  {
    HeaderExact(db, b, checkFiles);
    UpdateTapeKeepsInv(db, b, checkFiles);
    var vid, last := b[0].vid, db.tapes[b[0].vid].lastFSeq;
    FilesFollow(b, vid, last + 1, checkFiles);
    forall p | p in Held(db) ensures OnTape(db.tapes, p) {
      if p !in db.tapeFiles {
        var r :| r in db.log && r.pos == p;
      }
    }
  }

  lemma WriteUnfold(db: Db, b: Batch, now: nat)
    requires b != [] && WriteSetWise(db, b, now).Done?
    ensures HeaderError(db, b, true).None? && b[0].vid in db.tapes
    ensures WriteSetWise(db, b, now)
            == if Files(b) == [] then Done(UpdateTape(db, b)) else RecordFiles(UpdateTape(db, b), Files(b), now)
  {
  }

  lemma RecordKeepsAll(db: Db, db': Db, fs: seq<FileEvent>, now: nat)
    requires Inv(db) && Placed(db, fs) && SizesKnown(db, fs) && RecordFiles(db, fs, now) == Done(db')
    ensures Inv(db') && Held(db') == Held(db) + FilePositions(fs) && db'.tapes == db.tapes
  {
    RecordKeepsInv(db, fs, now);
    RecordConserves(db, fs, now);
  }

  lemma PlacedIsNew(db: Db, fs: seq<FileEvent>)
    requires Placed(db, fs)
    ensures Held(db) !! FilePositions(fs)
  {
  }

  /** The set-wise write keeps the invariant and accounts for exactly the file positions of
      the batch in addition; one tape moves, the others stay. */
  lemma WriteKeepsInv(db: Db, b: Batch, now: nat)
    requires Inv(db) && WriteSetWise(db, b, now).Done? && SizesKnown(db, Files(b))
    ensures Inv(WriteSetWise(db, b, now).db)
    ensures Held(WriteSetWise(db, b, now).db) == Held(db) + FilePositions(Files(b))
    ensures Held(db) !! FilePositions(Files(b))
    ensures b != [] ==> b[0].vid in db.tapes && WriteSetWise(db, b, now).db.tapes == UpdateTape(db, b).tapes
  {
    if b != [] {
      WriteUnfold(db, b, now);
      UpdateTapeKeepsInv(db, b, true);
      HeaderPlaces(db, b, true);
      PlacedIsNew(UpdateTape(db, b), Files(b));
      if Files(b) != [] {
        RecordKeepsAll(UpdateTape(db, b), WriteSetWise(db, b, now).db, Files(b), now);
      }
    }
  }

  // The row-by-row back ends

  lemma InsertOneArchiveRow(archive: map<nat, ArchiveRow>, classes: set<string>, f: FileEvent)
    ensures InsertArchiveRows(archive, classes, [f])
            == if f.archiveId in archive || f.storageClass !in classes then archive
               else archive[f.archiveId := ArchiveRowOf(f)]
  {
    var fs := [f];
    assert fs[..|fs| - 1] == [] && fs[|fs| - 1] == f;
    assert InsertArchiveRows(archive, classes, fs[..|fs| - 1]) == archive;
  }

  lemma OneBatchRow(f: FileEvent, now: nat)
    ensures BatchRows([f], now) == map[PosOf(f) := TapeRowOf(f, now)]
  {
    var fs := [f];
    assert fs[..|fs| - 1] == [] && fs[|fs| - 1] == f;
    assert BatchRows(fs[..|fs| - 1], now) == map[];
  }

  /** Writing one row is recording the one-event batch, and needs its storage class to exist. */
  lemma WriteRowExact(db: Db, f: FileEvent, now: nat)
    requires UniqueDisk(db.archive) && FileFieldsSet(f)
    ensures WriteRow(db, f, now).Done? <==> RecordFiles(db, [f], now).Done? && f.storageClass in db.storageClasses
    ensures WriteRow(db, f, now).Done? ==> WriteRow(db, f, now) == RecordFiles(db, [f], now)
  {
    var archive := InsertArchiveRows(db.archive, db.storageClasses, [f]);
    InsertOneArchiveRow(db.archive, db.storageClasses, f);
    OneBatchRow(f, now);
    VerifyErrorExact(archive, [f]);
    assert VerifyError(archive, [f]).None? <==> Agrees(archive, [f][0]);
    if f.archiveId !in db.archive && f.storageClass in db.storageClasses {
      if exists a :: a in db.archive && SameDiskFile(db.archive[a], ArchiveRowOf(f)) {
        var a :| a in db.archive && SameDiskFile(db.archive[a], ArchiveRowOf(f));
        assert a in archive && f.archiveId in archive && !UniqueDisk(archive);
      } else {
        assert UniqueDisk(archive);
      }
    }
  }

  /** Archive files stay; a log row is an old one or belongs to an archive file that exists. */
  predicate Extends(db: Db, db': Db) {
    && (forall a :: a in db.archive ==> a in db'.archive)
    && (forall r :: r in db'.log ==> r in db.log || r.archiveId in db'.archive)
  }

  lemma RecordExtends(db: Db, fs: seq<FileEvent>, now: nat)
    requires RecordFiles(db, fs, now).Done?
    ensures Extends(db, RecordFiles(db, fs, now).db)
  {
    var db' := RecordFiles(db, fs, now).db;
    VerifyErrorExact(db'.archive, fs);
    var added := LogRows(db'.archive, db.tapeFiles, Displaced(db.tapeFiles, fs));
    assert db'.log == db.log + multiset(added);
  }

  lemma SizesStayKnown(db: Db, db1: Db, fs: seq<FileEvent>, k: nat)
    requires k < |fs| && SizesKnown(db, fs) && Extends(db, db1)
    ensures SizesKnown(db1, [fs[k]])
  {
  }

  lemma PrefixPlaced(db: Db, fs: seq<FileEvent>)
    requires fs != [] && Placed(db, fs) && SizesKnown(db, fs)
    ensures Placed(db, fs[..|fs| - 1]) && SizesKnown(db, fs[..|fs| - 1])
    ensures FilePositions(fs) == FilePositions(fs[..|fs| - 1]) + {PosOf(fs[|fs| - 1])}
  {
    var init := fs[..|fs| - 1];
    assert forall k :: 0 <= k < |init| ==> init[k] == fs[k];
    forall p | p in FilePositions(fs) ensures p in FilePositions(init) + {PosOf(fs[|fs| - 1])} {
      var k :| 0 <= k < |fs| && p == PosOf(fs[k]);
      if k < |init| { assert p == PosOf(init[k]); }
    }
    forall p | p in FilePositions(init) ensures p in FilePositions(fs) {
      var k :| 0 <= k < |init| && p == PosOf(init[k]);
      assert p == PosOf(fs[k]);
    }
  }

  lemma ExtendsTransitive(db: Db, db1: Db, db2: Db)
    requires Extends(db, db1) && Extends(db1, db2)
    ensures Extends(db, db2)
  {
  }

  lemma WriteRowsUnfold(db: Db, fs: seq<FileEvent>, now: nat)
    requires fs != [] && WriteRows(db, fs, now).Done?
    ensures WriteRows(db, fs[..|fs| - 1], now).Done?
    ensures WriteRow(WriteRows(db, fs[..|fs| - 1], now).db, fs[|fs| - 1], now) == WriteRows(db, fs, now)
  {
  }

  /** Whether or not identifiers repeat within the batch, each row keeps the invariant. */
  lemma {:induction false} WriteRowsKeepInv(db: Db, fs: seq<FileEvent>, now: nat)
    requires Inv(db) && Placed(db, fs) && SizesKnown(db, fs) && WriteRows(db, fs, now).Done?
    ensures Inv(WriteRows(db, fs, now).db) && Extends(db, WriteRows(db, fs, now).db)
    ensures Held(WriteRows(db, fs, now).db) == Held(db) + FilePositions(fs)
    ensures WriteRows(db, fs, now).db.tapes == db.tapes
  {
    if fs != [] {
      PrefixPlaced(db, fs);
      WriteRowsUnfold(db, fs, now);
      WriteRowsKeepInv(db, fs[..|fs| - 1], now);
      WriteNextKeepsInv(db, WriteRows(db, fs[..|fs| - 1], now).db, WriteRows(db, fs, now).db, fs, now);
    }
  }

  lemma WriteNextKeepsInv(db: Db, db1: Db, db2: Db, fs: seq<FileEvent>, now: nat)
    requires fs != [] && Placed(db, fs) && SizesKnown(db, fs)
    requires FilePositions(fs) == FilePositions(fs[..|fs| - 1]) + {PosOf(fs[|fs| - 1])}
    requires Inv(db1) && Extends(db, db1) && db1.tapes == db.tapes
    requires Held(db1) == Held(db) + FilePositions(fs[..|fs| - 1])
    requires WriteRow(db1, fs[|fs| - 1], now) == Done(db2)
    ensures Inv(db2) && Extends(db, db2) && db2.tapes == db.tapes
    ensures Held(db2) == Held(db) + FilePositions(fs)
  {
    var n := |fs| - 1;
    assert PosOf(fs[n]) !in FilePositions(fs[..n]);
    SizesStayKnown(db, db1, fs, n);
    RecordOneKeepsInv(db1, db2, fs[n], now);
    ExtendsTransitive(db, db1, db2);
  }

  lemma RecordOneKeepsInv(db: Db, db': Db, f: FileEvent, now: nat)
    requires Inv(db) && OnTape(db.tapes, PosOf(f)) && PosOf(f) !in Held(db) && SizesKnown(db, [f])
    requires WriteRow(db, f, now) == Done(db')
    ensures Inv(db') && Extends(db, db') && db'.tapes == db.tapes && Held(db') == Held(db) + {PosOf(f)}
  {
    WriteRowExact(db, f, now);
    assert Placed(db, [f]) by { assert [f][0] == f; }
    RecordKeepsInv(db, [f], now);
    RecordConserves(db, [f], now);
    RecordExtends(db, [f], now);
    assert (set k | 0 <= k < |[f]| :: PosOf([f][k])) == {PosOf(f)} by {
      assert [f][0] == f;
    }
  }

  /** A row-wise write that is accepted keeps the invariant as well. */
  lemma WriteRowWiseKeepsInv(db: Db, b: Batch, now: nat)
    requires Inv(db) && WriteRowWise(db, b, now).Done? && SizesKnown(db, Files(b))
    ensures Inv(WriteRowWise(db, b, now).db)
    ensures Held(WriteRowWise(db, b, now).db) == Held(db) + FilePositions(Files(b))
  {
    if b != [] {
      UpdateTapeKeepsInv(db, b, false);
      HeaderPlaces(db, b, false);
      WriteRowsKeepInv(UpdateTape(db, b), Files(b), now);
    }
  }
}

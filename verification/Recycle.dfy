/** Moving copies to the recycle log: deletion of one copy, and deletion of a whole archive file. */
module Recycle {
  import opened Options
  import opened Tables

  function CopiesOf(tapeFiles: map<Pos, TapeRow>, archiveId: nat): set<Pos> {
    set p | p in tapeFiles && tapeFiles[p].archiveId == archiveId
  }

  /** The copies at `ps` leave TAPE_FILE and are logged. */
  function MoveToLog(db: Db, ps: set<Pos>): Db
    requires forall p :: p in ps ==> p in db.tapeFiles && db.tapeFiles[p].archiveId in db.archive
  {
    db.(log := db.log + multiset(LogRows(db.archive, db.tapeFiles, ps)), tapeFiles := db.tapeFiles - ps)
  }

  /** Fewer live copies satisfy the same constraints. */
  lemma RemovalKeeps(archive: map<nat, ArchiveRow>, tapeFiles: map<Pos, TapeRow>, ps: set<Pos>)
    requires OneCopy(tapeFiles) && UniqueBlocks(tapeFiles) && SizesAgree(archive, tapeFiles)
    ensures OneCopy(tapeFiles - ps) && UniqueBlocks(tapeFiles - ps) && SizesAgree(archive, tapeFiles - ps)
  {
  }

  lemma LoggedRowsAgree(db: Db, ps: set<Pos>)
    requires InRange(db) && LogSizesAgree(db.archive, db.log) && SizesAgree(db.archive, db.tapeFiles)
    requires ps <= db.tapeFiles.Keys
    ensures InRange(MoveToLog(db, ps)) && LogSizesAgree(db.archive, MoveToLog(db, ps).log)
  {
    var added := LogRows(db.archive, db.tapeFiles, ps);
    assert forall r :: r in MoveToLog(db, ps).log <==> r in db.log || r in added;
    forall r | r in added
      ensures OnTape(db.tapes, r.pos)
      ensures r.archiveId in db.archive && db.archive[r.archiveId].size == r.size
    {
      var p :| p in ps && r == LogOf(p, db.tapeFiles[p], db.archive[db.tapeFiles[p].archiveId]);
    }
  }

  lemma MoveToLogConserves(db: Db, ps: set<Pos>)
    requires HeldOnce(db.tapeFiles, db.log) && SizesAgree(db.archive, db.tapeFiles) && ps <= db.tapeFiles.Keys
    ensures HeldOnce(MoveToLog(db, ps).tapeFiles, MoveToLog(db, ps).log) && Held(MoveToLog(db, ps)) == Held(db)
  {
    var added := LogRows(db.archive, db.tapeFiles, ps);
    LogRowsOneEach(db.archive, db.tapeFiles, ps);
    RemovalConserves(db.tapeFiles, db.log, ps, added);
  }

  /** Each copy is logged once with its columns; no other count changes. */
  lemma MoveToLogRemembers(db: Db, ps: set<Pos>, r: LogRow)
    requires forall p :: p in ps ==> p in db.tapeFiles && db.tapeFiles[p].archiveId in db.archive
    ensures MoveToLog(db, ps).log[r] ==
            db.log[r] + if r.pos in ps && Remembers(r, db.tapeFiles[r.pos], db.archive) then 1 else 0
  {
    LogRowsRemember(db.archive, db.tapeFiles, ps, r);
  }

  lemma MovedIsLogged(db: Db, p: Pos)
    requires p in db.tapeFiles && db.tapeFiles[p].archiveId in db.archive
    ensures LogOf(p, db.tapeFiles[p], db.archive[db.tapeFiles[p].archiveId]) in MoveToLog(db, {p}).log
  {
    MoveToLogRemembers(db, {p}, LogOf(p, db.tapeFiles[p], db.archive[db.tapeFiles[p].archiveId]));
  }

  lemma MoveToLogKeepsInv(db: Db, ps: set<Pos>)
    requires Inv(db) && ps <= db.tapeFiles.Keys
    ensures Inv(MoveToLog(db, ps)) && Held(MoveToLog(db, ps)) == Held(db)
  {
    RemovalKeeps(db.archive, db.tapeFiles, ps);
    LoggedRowsAgree(db, ps);
    MoveToLogConserves(db, ps);
  }

  /** deleteTapeFileCopy: the copy of the file on the named tape, unless it is the only one. */
  function DeleteCopy(db: Db, vid: string, archiveId: nat): Outcome {
    var copies := CopiesOf(db.tapeFiles, archiveId);
    var here := set p | p in copies && p.vid == vid;
    if archiveId !in db.archive || copies == {} then Refused(NoSuchFile)
    else if |copies| == 1 then Refused(OnlyCopy)
    else if here == {} then Refused(NotOnThatTape)
    else if |here| > 1 then Refused(SeveralOnThatTape)
    else Done(MoveToLog(db, here))
  }

  lemma SingletonIs<T>(s: set<T>, x: T)
    requires x in s && |s| == 1
    ensures s == {x}
  {
    assert |s - {x}| == 0;
  }

  /** The copy that a successful deletion moved, and that another one stays. */
  lemma DeletedCopy(db: Db, vid: string, archiveId: nat) returns (p: Pos)
    requires DeleteCopy(db, vid, archiveId).Done?
    ensures p in db.tapeFiles && p.vid == vid && db.tapeFiles[p].archiveId == archiveId && archiveId in db.archive
    ensures DeleteCopy(db, vid, archiveId).db == MoveToLog(db, {p})
    ensures exists q :: q in db.tapeFiles && q != p && db.tapeFiles[q].archiveId == archiveId
  {
    var copies := CopiesOf(db.tapeFiles, archiveId);
    var here := set q | q in copies && q.vid == vid;
    p :| p in here;
    assert |here| != 0;
    SingletonIs(here, p);
    assert copies != {p};
    assert exists q :: q in copies && q != p;
  }

  lemma DeletedIsLogged(db: Db, vid: string, archiveId: nat) returns (p: Pos)
    requires DeleteCopy(db, vid, archiveId).Done?
    ensures p in db.tapeFiles && p.vid == vid && db.tapeFiles[p].archiveId == archiveId && archiveId in db.archive
    ensures LogOf(p, db.tapeFiles[p], db.archive[archiveId]) in DeleteCopy(db, vid, archiveId).db.log
  {
    p := DeletedCopy(db, vid, archiveId);
    MovedIsLogged(db, p);
  }

  predicate IsCopy(tapeFiles: map<Pos, TapeRow>, archiveId: nat, p: Pos) {
    p in tapeFiles && tapeFiles[p].archiveId == archiveId
  }

  lemma TwoOf<T>(s: set<T>)
    ensures |s| > 1 <==> exists x, y :: x in s && y in s && x != y
    ensures |s| == 1 <==> exists x :: s == {x}
  {
    if s != {} {
      var x :| x in s;
      var rest := s - {x};
      assert |s| == |rest| + 1 && s == rest + {x};
      if rest != {} {
        var y :| y in rest;
        assert x in s && y in s && x != y;
        assert |rest - {y}| + 1 == |rest|;
      }
    }
  }

  /** A copy can be deleted exactly when it is the only one of its archive file on the tape and
      another one is elsewhere. */
  lemma DeleteCopyExact(db: Db, vid: string, archiveId: nat)
    ensures DeleteCopy(db, vid, archiveId).Done? <==>
            && archiveId in db.archive
            && (exists p :: IsCopy(db.tapeFiles, archiveId, p) && p.vid == vid)
            && (exists q :: IsCopy(db.tapeFiles, archiveId, q) && q.vid != vid)
            && (forall p, q | IsCopy(db.tapeFiles, archiveId, p) && IsCopy(db.tapeFiles, archiveId, q) ::
                  p.vid == q.vid == vid ==> p == q)
  {
    var copies := CopiesOf(db.tapeFiles, archiveId);
    var here := set p | p in copies && p.vid == vid;
    assert forall p :: p in copies <==> IsCopy(db.tapeFiles, archiveId, p);
    TwoOf(copies);
    TwoOf(here);
    if DeleteCopy(db, vid, archiveId).Done? {
      var p := DeletedCopy(db, vid, archiveId);
      assert p in here;
      var q :| q in db.tapeFiles && q != p && db.tapeFiles[q].archiveId == archiveId;
      SingletonIs(here, p);
      assert IsCopy(db.tapeFiles, archiveId, q) && q !in here;
      assert forall x :: IsCopy(db.tapeFiles, archiveId, x) && x.vid == vid ==> x in here;
    } else if p :| IsCopy(db.tapeFiles, archiveId, p) && p.vid == vid {
      assert p in here && p in copies;
      if q :| IsCopy(db.tapeFiles, archiveId, q) && q.vid != vid { assert q in copies && p != q; }
    }
  }

  /** ... and otherwise is refused for one of four reasons. */
  lemma DeleteCopyErrors(db: Db, vid: string, archiveId: nat)
    ensures DeleteCopy(db, vid, archiveId) == Refused(NoSuchFile) <==>
            archiveId !in db.archive || forall p :: !IsCopy(db.tapeFiles, archiveId, p)
    ensures DeleteCopy(db, vid, archiveId) == Refused(OnlyCopy) <==>
            archiveId in db.archive && exists p :: CopiesOf(db.tapeFiles, archiveId) == {p}
    ensures DeleteCopy(db, vid, archiveId) == Refused(NotOnThatTape) <==>
            && archiveId in db.archive && |CopiesOf(db.tapeFiles, archiveId)| > 1
            && forall p :: IsCopy(db.tapeFiles, archiveId, p) ==> p.vid != vid
    ensures DeleteCopy(db, vid, archiveId) == Refused(SeveralOnThatTape) <==>
            && archiveId in db.archive
            && exists p, q :: IsCopy(db.tapeFiles, archiveId, p) && IsCopy(db.tapeFiles, archiveId, q) && p != q
                              && p.vid == q.vid == vid
  {
    var copies := CopiesOf(db.tapeFiles, archiveId);
    var here := set p | p in copies && p.vid == vid;
    assert forall p :: p in copies <==> IsCopy(db.tapeFiles, archiveId, p);
    assert forall p :: p in here <==> IsCopy(db.tapeFiles, archiveId, p) && p.vid == vid;
    TwoOf(copies);
    TwoOf(here);
    if |here| > 1 {
      var p, q :| p in here && q in here && p != q;
      assert p in copies && q in copies;
    }
  }

  lemma DeleteCopyKeepsInv(db: Db, vid: string, archiveId: nat)
    requires Inv(db) && DeleteCopy(db, vid, archiveId).Done?
    ensures Inv(DeleteCopy(db, vid, archiveId).db)
    ensures Held(DeleteCopy(db, vid, archiveId).db) == Held(db)
  {
    var p := DeletedCopy(db, vid, archiveId);
    MoveToLogKeepsInv(db, {p});
  }

  // Deleting a whole archive file

  datatype Copy = Copy(pos: Pos, blockId: nat, copyNb: nat, created: nat)

  /** The archive file as the caller read it at some earlier time. */
  datatype Snapshot = Snapshot(archiveId: nat, diskInstance: string, copies: seq<Copy>)

  datatype DeleteRequest = DeleteRequest(archiveId: nat, diskInstance: string, diskFilePath: string,
                                         file: Option<Snapshot>)

  function LogOfCopy(c: Copy, archiveId: nat, file: ArchiveRow): LogRow {
    LogRow(c.pos, c.blockId, c.copyNb, c.created, archiveId, file.diskInstance, file.diskFileId, file.size)
  }

  /** One log row per copy in the snapshot; INSERT ... SELECT inserts none if the archive file
      does not exist. */
  function SnapshotRows(archive: map<nat, ArchiveRow>, snap: Snapshot): seq<LogRow> {
    if snap.archiveId in archive
    then seq(|snap.copies|, i requires 0 <= i < |snap.copies| =>
               LogOfCopy(snap.copies[i], snap.archiveId, archive[snap.archiveId]))
    else []
  }

  /** moveArchiveFileToRecycleLog: the log rows come from the snapshot in the request, while
      the deletions go by the identifier in the request. */
  function DeleteFile(db: Db, req: DeleteRequest): Outcome {
    if req.file.None? then Done(db)
    else
      var snap := req.file.value;
      if req.diskInstance != snap.diskInstance || req.diskFilePath == "" then Refused(RequestInconsistent)
      else
        var rows := SnapshotRows(db.archive, snap);
        if exists i :: 0 <= i < |rows| && rows[i].pos.vid !in db.tapes then Refused(ConstraintViolated)
        else
          Done(db.(log := db.log + multiset(rows),
                   tapeFiles := db.tapeFiles - CopiesOf(db.tapeFiles, req.archiveId),
                   archive := db.archive - {req.archiveId}))
  }

  /** The rows to be logged are at exactly the positions of the file's live copies, each once. */
  predicate FreshSnapshot(db: Db, req: DeleteRequest)
    requires req.file.Some?
  {
    var rows := SnapshotRows(db.archive, req.file.value);
    && (forall i, j :: 0 <= i < j < |rows| ==> rows[i].pos != rows[j].pos)
    && (forall i :: 0 <= i < |rows| ==> rows[i].pos in CopiesOf(db.tapeFiles, req.archiveId))
    && (forall p :: p in CopiesOf(db.tapeFiles, req.archiveId) ==> exists i :: 0 <= i < |rows| && rows[i].pos == p)
  }

  function RowSet(rows: seq<LogRow>): set<LogRow> {
    set i | 0 <= i < |rows| :: rows[i]
  }

  lemma RowSetGrows(init: seq<LogRow>, r: LogRow)
    ensures RowSet(init + [r]) == RowSet(init) + {r}
  {
    var rows := init + [r];
    assert rows[|init|] == r;
    forall x | x in RowSet(init) ensures x in RowSet(rows) {
      var i :| 0 <= i < |init| && init[i] == x;
      assert rows[i] == x;
    }
  }

  lemma {:induction false} DistinctRowsCountOnce(rows: seq<LogRow>)
    requires forall i, j :: 0 <= i < j < |rows| ==> rows[i].pos != rows[j].pos
    ensures multiset(rows) == multiset(RowSet(rows))
  {
    if rows != [] {
      var init, r := rows[..|rows| - 1], rows[|rows| - 1];
      assert rows == init + [r];
      DistinctRowsCountOnce(init);
      RowSetGrows(init, r);
      assert r !in RowSet(init);
    }
  }

  lemma RepeatedRowCountsTwice(rows: seq<LogRow>, i: nat, j: nat)
    requires i < j < |rows| && rows[i] == rows[j]
    ensures multiset(rows)[rows[i]] >= 2
  {
    assert rows == rows[..j] + rows[j..];
    assert rows[..j][i] == rows[i] && rows[j..][0] == rows[j];
  }

  lemma FreshIsOneRowEach(rows: seq<LogRow>, ps: set<Pos>)
    requires forall i, j :: 0 <= i < j < |rows| ==> rows[i].pos != rows[j].pos
    requires forall i :: 0 <= i < |rows| ==> rows[i].pos in ps
    requires forall p :: p in ps ==> exists i :: 0 <= i < |rows| && rows[i].pos == p
    ensures OneRowEach(RowSet(rows), ps) && multiset(rows) == multiset(RowSet(rows))
  {
    DistinctRowsCountOnce(rows);
    forall p | p in ps ensures exists r :: r in RowSet(rows) && r.pos == p {
      var i :| 0 <= i < |rows| && rows[i].pos == p;
      assert rows[i] in RowSet(rows);
    }
  }

  lemma DeleteFileResult(db: Db, req: DeleteRequest)
    requires req.file.Some? && DeleteFile(db, req).Done?
    ensures var db' := DeleteFile(db, req).db;
            && db'.log == db.log + multiset(SnapshotRows(db.archive, req.file.value))
            && db'.tapeFiles == db.tapeFiles - CopiesOf(db.tapeFiles, req.archiveId)
            && db'.archive == db.archive - {req.archiveId} && db'.tapes == db.tapes
  {
  }

  /** A fresh snapshot loses no position and duplicates none. */
  lemma FreshDeleteConserves(db: Db, req: DeleteRequest)
    requires HeldOnce(db.tapeFiles, db.log)
    requires req.file.Some? && DeleteFile(db, req).Done? && FreshSnapshot(db, req)
    ensures HeldOnce(DeleteFile(db, req).db.tapeFiles, DeleteFile(db, req).db.log)
    ensures Held(DeleteFile(db, req).db) == Held(db)
  {
    var rows := SnapshotRows(db.archive, req.file.value);
    var gone := CopiesOf(db.tapeFiles, req.archiveId);
    FreshIsOneRowEach(rows, gone);
    RemovalConserves(db.tapeFiles, db.log, gone, RowSet(rows));
    DeleteFileResult(db, req);
  }

  lemma HeldRowsAreDistinct(tapeFiles: map<Pos, TapeRow>, log: multiset<LogRow>, rows: seq<LogRow>, i: nat, j: nat)
    requires HeldOnce(tapeFiles, log + multiset(rows)) && i < j < |rows|
    ensures rows[i].pos != rows[j].pos
  {
    var log' := log + multiset(rows);
    assert rows[i] in multiset(rows) && rows[j] in multiset(rows);
    assert rows[i] in log' && rows[j] in log';
    if rows[i].pos == rows[j].pos {
      RepeatedRowCountsTwice(rows, i, j);
      assert false;
    }
  }

  lemma HeldRowsAreGone(tapeFiles: map<Pos, TapeRow>, log: multiset<LogRow>, rows: seq<LogRow>, gone: set<Pos>, i: nat)
    requires HeldOnce(tapeFiles - gone, log + multiset(rows)) && i < |rows|
    requires (tapeFiles - gone).Keys + Logged(log + multiset(rows)) == tapeFiles.Keys + Logged(log)
    ensures rows[i].pos in gone
  {
    var r, log' := rows[i], log + multiset(rows);
    assert r in multiset(rows) && r in log' && log'[r] == 1 && r !in log;
    assert r.pos in Logged(log') && r.pos !in tapeFiles - gone;
    assert forall s :: s in log ==> s in log';
    assert r.pos !in Logged(log);
  }

  lemma GoneIsListed(tapeFiles: map<Pos, TapeRow>, log: multiset<LogRow>, rows: seq<LogRow>, gone: set<Pos>, p: Pos)
    requires HeldOnce(tapeFiles, log) && p in gone && p in tapeFiles
    requires (tapeFiles - gone).Keys + Logged(log + multiset(rows)) == tapeFiles.Keys + Logged(log)
    ensures exists i :: 0 <= i < |rows| && rows[i].pos == p
  {
    var log' := log + multiset(rows);
    assert p in tapeFiles.Keys + Logged(log) && p !in (tapeFiles - gone).Keys;
    var r :| r in log' && r.pos == p;
    assert r !in log && r in multiset(rows) && r in rows;
  }

  lemma ConservingDeleteIsFresh(db: Db, req: DeleteRequest)
    requires HeldOnce(db.tapeFiles, db.log)
    requires req.file.Some? && DeleteFile(db, req).Done?
    requires HeldOnce(DeleteFile(db, req).db.tapeFiles, DeleteFile(db, req).db.log)
    requires Held(DeleteFile(db, req).db) == Held(db)
    ensures FreshSnapshot(db, req)
  {
    DeleteFileResult(db, req);
    var rows := SnapshotRows(db.archive, req.file.value);
    var gone := CopiesOf(db.tapeFiles, req.archiveId);
    forall i, j | 0 <= i < j < |rows| ensures rows[i].pos != rows[j].pos {
      HeldRowsAreDistinct(db.tapeFiles - gone, db.log, rows, i, j);
    }
    forall i | 0 <= i < |rows| ensures rows[i].pos in gone {
      HeldRowsAreGone(db.tapeFiles, db.log, rows, gone, i);
    }
    forall p | p in gone ensures exists i :: 0 <= i < |rows| && rows[i].pos == p {
      GoneIsListed(db.tapeFiles, db.log, rows, gone, p);
    }
  }

  /** Deleting an archive file keeps every tape position accounted for exactly once if and only
      if the caller's snapshot lists the file's live copies. */
  lemma DeleteFileConservesExact(db: Db, req: DeleteRequest)
    requires Inv(db) && req.file.Some? && DeleteFile(db, req).Done?
    ensures HeldOnce(DeleteFile(db, req).db.tapeFiles, DeleteFile(db, req).db.log)
            && Held(DeleteFile(db, req).db) == Held(db)
            <==> FreshSnapshot(db, req)
  {
    if FreshSnapshot(db, req) {
      FreshDeleteConserves(db, req);
    } else if HeldOnce(DeleteFile(db, req).db.tapeFiles, DeleteFile(db, req).db.log)
              && Held(DeleteFile(db, req).db) == Held(db) {
      ConservingDeleteIsFresh(db, req);
      assert false;
    }
  }

  /** The snapshot lists exactly the file's live copies, each with its columns. */
  predicate CurrentSnapshot(db: Db, req: DeleteRequest)
    requires req.file.Some?
  {
    var snap := req.file.value;
    && FreshSnapshot(db, req)
    && (snap.archiveId in db.archive ==> forall c :: c in snap.copies ==>
          && snap.archiveId == req.archiveId
          && c.pos in db.tapeFiles && c.blockId == db.tapeFiles[c.pos].blockId
          && c.copyNb == db.tapeFiles[c.pos].copyNb && c.created == db.tapeFiles[c.pos].created)
  }

  lemma CurrentRows(db: Db, req: DeleteRequest)
    requires SizesAgree(db.archive, db.tapeFiles) && req.file.Some? && CurrentSnapshot(db, req)
    ensures multiset(SnapshotRows(db.archive, req.file.value))
            == multiset(LogRows(db.archive, db.tapeFiles, CopiesOf(db.tapeFiles, req.archiveId)))
  {
    var snap := req.file.value;
    var rows, gone := SnapshotRows(db.archive, snap), CopiesOf(db.tapeFiles, req.archiveId);
    var logged := LogRows(db.archive, db.tapeFiles, gone);
    DistinctRowsCountOnce(rows);
    forall i | 0 <= i < |rows| ensures rows[i] in logged {
      assert snap.copies[i] in snap.copies;
      LogRowsRemember(db.archive, db.tapeFiles, gone, rows[i]);
    }
    forall r | r in logged ensures r in RowSet(rows) {
      LogRowsRemember(db.archive, db.tapeFiles, gone, r);
      var i :| 0 <= i < |rows| && rows[i].pos == r.pos;
      LogRowsRemember(db.archive, db.tapeFiles, gone, rows[i]);
      assert rows[i] == r;
    }
    assert RowSet(rows) == logged;
  }

  lemma RowsAreCurrent(db: Db, req: DeleteRequest)
    requires SizesAgree(db.archive, db.tapeFiles) && req.file.Some?
    requires multiset(SnapshotRows(db.archive, req.file.value))
             == multiset(LogRows(db.archive, db.tapeFiles, CopiesOf(db.tapeFiles, req.archiveId)))
    ensures CurrentSnapshot(db, req)
  {
    var snap := req.file.value;
    var rows, gone := SnapshotRows(db.archive, snap), CopiesOf(db.tapeFiles, req.archiveId);
    var logged := LogRows(db.archive, db.tapeFiles, gone);
    LogRowsOneEach(db.archive, db.tapeFiles, gone);
    forall i | 0 <= i < |rows| ensures rows[i] in logged && rows[i].pos in gone {
      assert rows[i] in multiset(rows);
    }
    forall i, j | 0 <= i < j < |rows| ensures rows[i].pos != rows[j].pos {
      if rows[i] == rows[j] { RepeatedRowCountsTwice(rows, i, j); }
    }
    forall p | p in gone ensures exists i :: 0 <= i < |rows| && rows[i].pos == p {
      var r :| r in logged && r.pos == p;
      assert r in multiset(logged) && r in multiset(rows) && r in rows;
    }
    forall c | c in snap.copies && snap.archiveId in db.archive
      ensures c.pos in gone && snap.archiveId == req.archiveId
      ensures c.blockId == db.tapeFiles[c.pos].blockId && c.copyNb == db.tapeFiles[c.pos].copyNb
              && c.created == db.tapeFiles[c.pos].created
    {
      var i :| 0 <= i < |snap.copies| && snap.copies[i] == c;
      LogRowsRemember(db.archive, db.tapeFiles, gone, rows[i]);
    }
  }

  lemma SumsEqual(log: multiset<LogRow>, a: multiset<LogRow>, b: multiset<LogRow>)
    ensures log + a == log + b <==> a == b
  {
    assert log + a - log == a && log + b - log == b;
  }

  lemma CurrentExactly(db: Db, req: DeleteRequest)
    requires SizesAgree(db.archive, db.tapeFiles) && req.file.Some?
    ensures multiset(SnapshotRows(db.archive, req.file.value))
            == multiset(LogRows(db.archive, db.tapeFiles, CopiesOf(db.tapeFiles, req.archiveId)))
            <==> CurrentSnapshot(db, req)
  {
    if CurrentSnapshot(db, req) {
      CurrentRows(db, req);
    } else if multiset(SnapshotRows(db.archive, req.file.value))
              == multiset(LogRows(db.archive, db.tapeFiles, CopiesOf(db.tapeFiles, req.archiveId))) {
      RowsAreCurrent(db, req);
      assert false;
    }
  }

  lemma MoveToLogAdds(db: Db, ps: set<Pos>)
    requires forall p :: p in ps ==> p in db.tapeFiles && db.tapeFiles[p].archiveId in db.archive
    ensures MoveToLog(db, ps).log == db.log + multiset(LogRows(db.archive, db.tapeFiles, ps))
  {
  }

  /** Deleting an archive file logs what moving its copies to the log would if and only if the
      caller's snapshot is current in all its columns. */
  lemma DeleteFileLogsExactly(db: Db, req: DeleteRequest)
    requires SizesAgree(db.archive, db.tapeFiles) && req.file.Some? && DeleteFile(db, req).Done?
    ensures DeleteFile(db, req).db.log == MoveToLog(db, CopiesOf(db.tapeFiles, req.archiveId)).log
            <==> CurrentSnapshot(db, req)
  {
    var gone := CopiesOf(db.tapeFiles, req.archiveId);
    var rows := multiset(SnapshotRows(db.archive, req.file.value));
    DeleteFileResult(db, req);
    MoveToLogAdds(db, gone);
    SumsEqual(db.log, rows, multiset(LogRows(db.archive, db.tapeFiles, gone)));
    CurrentExactly(db, req);
  }

  /** The archive file and all its copies leave the tables, and nothing else does. */
  lemma DeleteFileRemoves(db: Db, req: DeleteRequest)
    requires req.file.Some? && DeleteFile(db, req).Done?
    ensures var db' := DeleteFile(db, req).db;
            && (forall a :: a in db'.archive <==> a in db.archive && a != req.archiveId)
            && (forall a :: a in db'.archive ==> db'.archive[a] == db.archive[a])
            && (forall p :: p in db'.tapeFiles <==> p in db.tapeFiles && db.tapeFiles[p].archiveId != req.archiveId)
            && (forall p :: p in db'.tapeFiles ==> db'.tapeFiles[p] == db.tapeFiles[p])
            && db'.tapes == db.tapes && db'.storageClasses == db.storageClasses
  {
    DeleteFileResult(db, req);
  }

  /** When a request is refused, and that one without a file does nothing. */
  lemma DeleteFileExact(db: Db, req: DeleteRequest)
    requires Inv(db)
    ensures req.file.None? ==> DeleteFile(db, req) == Done(db)
    ensures req.file.Some? && CurrentSnapshot(db, req) ==>
              (DeleteFile(db, req).Done? <==>
               req.diskInstance == req.file.value.diskInstance && req.diskFilePath != "")
  {
    if req.file.Some? && CurrentSnapshot(db, req) {
      var rows := SnapshotRows(db.archive, req.file.value);
      forall i | 0 <= i < |rows| ensures rows[i].pos.vid in db.tapes {
        assert rows[i].pos in CopiesOf(db.tapeFiles, req.archiveId) && OnTape(db.tapes, rows[i].pos);
      }
    }
  }

  lemma SnapshotRowsAgree(db: Db, req: DeleteRequest)
    requires InRange(db) && LogSizesAgree(db.archive, db.log)
    requires req.file.Some? && DeleteFile(db, req).Done? && FreshSnapshot(db, req)
    ensures InRange(DeleteFile(db, req).db)
    ensures LogSizesAgree(DeleteFile(db, req).db.archive, DeleteFile(db, req).db.log)
  {
    var rows := SnapshotRows(db.archive, req.file.value);
    DeleteFileResult(db, req);
    forall r | r in rows
      ensures OnTape(db.tapes, r.pos) && r.archiveId in db.archive && db.archive[r.archiveId].size == r.size
    {
      var i :| 0 <= i < |rows| && rows[i] == r;
      assert r.pos in CopiesOf(db.tapeFiles, req.archiveId);
    }
    assert forall r :: r in DeleteFile(db, req).db.log <==> r in db.log || r in rows;
  }

  /** The constraints of the tables that lose rows. */
  lemma DeleteFileConstraints(db: Db, req: DeleteRequest)
    requires OneCopy(db.tapeFiles) && UniqueBlocks(db.tapeFiles) && SizesAgree(db.archive, db.tapeFiles)
    requires UniqueDisk(db.archive) && req.file.Some? && DeleteFile(db, req).Done?
    ensures var db' := DeleteFile(db, req).db;
            && OneCopy(db'.tapeFiles) && UniqueBlocks(db'.tapeFiles) && SizesAgree(db'.archive, db'.tapeFiles)
            && UniqueDisk(db'.archive)
  {
    DeleteFileResult(db, req);
    RemovalKeeps(db.archive, db.tapeFiles, CopiesOf(db.tapeFiles, req.archiveId));
  }

  lemma DeleteFileKeepsInv(db: Db, req: DeleteRequest)
    requires Inv(db) && DeleteFile(db, req).Done? && (req.file.Some? ==> FreshSnapshot(db, req))
    ensures Inv(DeleteFile(db, req).db) && Held(DeleteFile(db, req).db) == Held(db)
  {
    if req.file.Some? {
      FreshDeleteConserves(db, req);
      SnapshotRowsAgree(db, req);
      DeleteFileConstraints(db, req);
    }
  }
}

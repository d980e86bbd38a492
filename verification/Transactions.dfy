/** The statements of the operations on a pooled connection, with a fault that may strike at
    any statement: which states can become visible to others?
 */
module Transactions {
  import opened Options
  import opened Tables
  import opened Writes
  import opened Recycle
  import opened Restore

  /** A connection borrowed from the pool.  At most one fault strikes during its use: either a
      statement fails and the connection survives, or the connection is lost. */
  class Conn {
    /** PostgreSQL: BEGIN opens a transaction and a failing statement aborts it.  Otherwise
        Oracle: the autocommit mode is switched and a failing statement has no further effect. */
    const postgres: bool
    const lossy: bool
    /** The connection is lost after the server has executed the request. */
    const ackLost: bool

    var published: Db   // what every other connection sees
    var working: Db     // what this connection sees
    var auto: bool      // statements publish by themselves
    var aborted: bool
    var open: bool
    var armed: bool     // a fault is still to come
    var fuse: nat       // after this many requests

    constructor (db: Db, postgres: bool, lossy: bool, ackLost: bool, armed: bool, fuse: nat)
      ensures Idle() && published == db && this.armed == armed && this.fuse == fuse
      ensures this.postgres == postgres && this.lossy == lossy && this.ackLost == ackLost
    {
      this.postgres, this.lossy, this.ackLost := postgres, lossy, ackLost;
      published, working, auto, aborted, open := db, db, true, false, true;
      this.armed, this.fuse := armed, fuse;
    }

    /** As it comes from the pool. */
    predicate Idle()
      reads this
    {
      open && auto && !aborted && working == published
    }

    /** Ready for the next statement of a transaction that has published nothing. */
    predicate InTransaction(db: Db)
      reads this
    {
      open && !auto && !aborted && published == db
    }

    method Strikes() returns (b: bool)
      modifies this`armed, this`fuse
      ensures b ==> old(armed) && old(fuse) == 0 && !armed
      ensures !b ==> armed == old(armed) && (armed ==> old(fuse) == fuse + 1)
    {
      b := armed && fuse == 0;
      if b { armed := false; } else if armed { fuse := fuse - 1; }
    }

    /** Executes a statement whose effect on the tables is `next`. */
    method Exec(next: Db) returns (ok: bool)
      requires open && !aborted
      modifies this
      ensures ok ==> armed == old(armed) && (armed ==> old(fuse) == fuse + 1)
      ensures !ok ==> old(armed) && old(fuse) == 0 && !armed
      ensures auto == old(auto) && (open <==> ok || !lossy)
      ensures ok ==> working == next && !aborted && published == if auto then next else old(published)
      ensures !ok && !lossy ==>
                working == old(working) && published == old(published) && aborted == (postgres && !auto)
      ensures !ok && lossy ==> published == if auto && ackLost then next else old(published)
    {
      var struck := Strikes();
      ok := !struck;
      if ok || (lossy && ackLost && auto) {
        working := next;
        if auto { published := next; }
      }
      if struck {
        if lossy { open := false; } else { aborted := postgres && !auto; }
      }
    }

    method SetAutocommit(on: bool)
      requires !postgres
      modifies this`auto
      ensures auto == on
    {
      auto := on;
    }

    /** COMMIT.  PostgreSQL answers the commit of an aborted transaction by rolling it back.  A commit
        that fails on a connection that survives is taken to discard the work. */
    method Commit() returns (ok: bool)
      requires open
      modifies this
      ensures ok ==> armed == old(armed) && (armed ==> old(fuse) == fuse + 1)
      ensures !ok ==> old(armed) && old(fuse) == 0 && !armed
      ensures open <==> ok || !lossy
      ensures auto == (old(auto) || postgres)
      ensures open ==> !aborted && working == published
      ensures published == if !old(aborted) && (ok || (lossy && ackLost)) then old(working) else old(published)
    {
      var struck := Strikes();
      ok := !struck;
      if !aborted && (ok || (lossy && ackLost)) { published := working; }
      working, aborted := published, false;
      auto := auto || postgres;
      if struck && lossy { open := false; }
    }

    method Rollback()
      modifies this
      ensures published == old(published) && armed == old(armed) && fuse == old(fuse) && open == old(open)
      ensures working == published && !aborted && auto == (old(auto) || postgres)
    {
      working, aborted := published, false;
      auto := auto || postgres;
    }

    /** BEGIN, or switching autocommit off. */
    method OpenTransaction() returns (ok: bool)
      requires Idle()
      modifies this
      ensures published == old(published)
      ensures ok ==> InTransaction(published) && working == old(working) && armed == old(armed)
      ensures ok && armed ==> old(fuse) == if postgres then fuse + 1 else fuse
      ensures !ok ==> postgres && old(armed) && old(fuse) == 0 && !armed && (open ==> working == published && !aborted)
    {
      if postgres {
        ok := Exec(working);
        if ok { auto := false; }
      } else {
        SetAutocommit(false);
        ok := true;
      }
    }

    /** What the pool does with a connection that is given back: if it is still open, commit it. */
    method GiveBack()
      modifies this
      ensures published == if !old(open) || old(aborted) || (old(armed) && old(fuse) == 0 && !(lossy && ackLost))
                           then old(published) else old(working)
    {
      if open {
        var ok := Commit();
        auto := true;
      }
    }
  }

  /** The loop over the items of a batch: expected position, byte total and file events. */
  method CheckItems(b: Batch, vid: string, lastFSeq: nat, checkFiles: bool)
    returns (error: Option<Error>, total: nat, files: seq<FileEvent>)
    ensures error == ItemsError(b, vid, lastFSeq + 1, checkFiles)
    ensures error.None? ==> files == Files(b) && total == TotalBytes(Files(b))
  {
    var expected := lastFSeq + 1;
    total, files := 0, [];
    for i := 0 to |b|
      invariant expected == lastFSeq + 1 + i
      invariant ItemsError(b, vid, lastFSeq + 1, checkFiles) == ItemsError(b[i..], vid, expected, checkFiles)
      invariant files + Files(b[i..]) == Files(b)
      invariant total + TotalBytes(Files(b[i..])) == TotalBytes(Files(b))
    {
      assert b[i..][0] == b[i] && b[i..][1..] == b[i + 1..];
      if !ItemFieldsSet(b[i]) { return Some(FieldsUnset), total, files; }
      if b[i].vid != vid { return Some(VidMismatch), total, files; }
      if expected != b[i].fSeq { return Some(FSeqMismatch), total, files; }
      expected := expected + 1;
      if b[i].File? {
        if checkFiles && !FileFieldsSet(b[i]) { return Some(FieldsUnset), total, files; }
        assert Files(b[i..])[1..] == Files(b[i + 1..]);
        total := total + b[i].size;
        files := files + [b[i]];
      }
    }
    error := None;
  }

  /** Leaving a scope guarded by an AutoRollback object other than by the commit. */
  method RollBackAndGiveBack(c: Conn)
    modifies c
    ensures c.published == old(c.published)
  {
    c.Rollback();
    c.GiveBack();
  }

  lemma LogRowsGrow(archive: map<nat, ArchiveRow>, tapeFiles: map<Pos, TapeRow>, done: set<Pos>, p: Pos)
    requires forall q :: q in done + {p} ==> q in tapeFiles && tapeFiles[q].archiveId in archive
    requires p !in done
    ensures multiset(LogRows(archive, tapeFiles, done + {p}))
            == multiset(LogRows(archive, tapeFiles, done))
               + multiset{LogOf(p, tapeFiles[p], archive[tapeFiles[p].archiveId])}
  {
    var r := LogOf(p, tapeFiles[p], archive[tapeFiles[p].archiveId]);
    assert LogRows(archive, tapeFiles, done + {p}) == LogRows(archive, tapeFiles, done) + {r};
    assert r !in LogRows(archive, tapeFiles, done);
  }

  /** One INSERT INTO FILE_RECYCLE_LOG per copy, in whatever order the query returned them. */
  method LogCopies(c: Conn, ps: set<Pos>) returns (ok: bool)
    requires c.InTransaction(c.published)
    requires forall p :: p in ps ==> p in c.working.tapeFiles && c.working.tapeFiles[p].archiveId in c.working.archive
    modifies c
    ensures c.published == old(c.published)
    ensures !old(c.armed) ==> ok && !c.armed
    ensures ok ==> c.InTransaction(c.published)
    ensures ok ==> c.working == old(c.working).(log := old(c.working.log)
                     + multiset(LogRows(old(c.working.archive), old(c.working.tapeFiles), ps)))
  {
    ghost var db := c.working;
    var archive, tapeFiles := c.working.archive, c.working.tapeFiles;
    var todo, done := ps, {};
    assert LogRows(archive, tapeFiles, {}) == {};
    assert db.log + multiset({}) == db.log;
    while todo != {}
      invariant done + todo == ps && done !! todo
      invariant c.InTransaction(old(c.published))
      invariant c.working == db.(log := db.log + multiset(LogRows(archive, tapeFiles, done)))
      invariant !old(c.armed) ==> !c.armed
      decreases todo
    {
      var p :| p in todo;
      LogRowsGrow(archive, tapeFiles, done, p);
      var row := LogOf(p, tapeFiles[p], archive[tapeFiles[p].archiveId]);
      ok := c.Exec(c.working.(log := c.working.log + multiset{row}));
      if !ok { return; }
      todo, done := todo - {p}, done + {p};
    }
    assert done == ps;
    ok := true;
  }

  /** One DELETE FROM TAPE_FILE per copy. */
  method DeleteCopies(c: Conn, ps: set<Pos>) returns (ok: bool)
    requires c.InTransaction(c.published)
    modifies c
    ensures c.published == old(c.published)
    ensures !old(c.armed) ==> ok && !c.armed
    ensures ok ==> c.InTransaction(c.published)
    ensures ok ==> c.working == old(c.working).(tapeFiles := old(c.working.tapeFiles) - ps)
  {
    ghost var db := c.working;
    var todo, done := ps, {};
    assert db.tapeFiles - {} == db.tapeFiles;
    while todo != {}
      invariant done + todo == ps
      invariant c.InTransaction(old(c.published))
      invariant c.working == db.(tapeFiles := db.tapeFiles - done)
      invariant !old(c.armed) ==> !c.armed
      decreases todo
    {
      var p :| p in todo;
      ok := c.Exec(c.working.(tapeFiles := c.working.tapeFiles - {p}));
      if !ok { return; }
      assert db.tapeFiles - done - {p} == db.tapeFiles - (done + {p});
      todo, done := todo - {p}, done + {p};
    }
    assert done == ps;
    ok := true;
  }

  /** How a call ends: normally, with an error of its own, or by the fault.  Oracle reports a failed
      commit as such, whether or not the connection has been lost. */
  datatype Status = Accepted | Rejected(error: Error) | StatementFailed | ConnectionLost | CommitFailed

  function FaultStatus(c: Conn): Status {
    if c.lossy then ConnectionLost else StatementFailed
  }

  /** The statements between the update of the tape and the commit. */
  method RecordInTransaction(c: Conn, files: seq<FileEvent>, now: nat) returns (s: Status)
    requires c.InTransaction(c.published)
    modifies c
    ensures c.published == old(c.published)
    ensures s.Accepted? ==>
              c.InTransaction(c.published) && Record(c.postgres, old(c.working), files, now) == Done(c.working)
    ensures s.Rejected? ==> Record(c.postgres, old(c.working), files, now) == Refused(s.error)
    ensures s.Accepted? || s.Rejected? || (old(c.armed) && s == FaultStatus(c))
    ensures !old(c.armed) ==> !c.armed
  {
    var archive := if c.postgres then InsertArchiveRows(c.working.archive, c.working.storageClasses, files)
                   else InsertArchiveRowsSkipping(c.working.archive, c.working.storageClasses, files);
    ghost var db := c.working;
    var ok := c.Exec(c.working.(archive := archive));
    if !ok { return FaultStatus(c); }
    s := MoveInTransaction(c, archive, files, now, db);
    if s.Accepted? && c.postgres && !UniqueDisk(archive) { s := Rejected(ConstraintViolated); }
  }

  /** The same, after the insertion of the archive files. */
  method MoveInTransaction(c: Conn, archive: map<nat, ArchiveRow>, files: seq<FileEvent>, now: nat, ghost db: Db)
    returns (s: Status)
    requires c.InTransaction(c.published) && c.working == db.(archive := archive)
    modifies c
    ensures c.published == old(c.published)
    ensures s.Accepted? ==> c.InTransaction(c.published) && RecordWith(db, archive, files, now) == Done(c.working)
    ensures s.Rejected? ==> RecordWith(db, archive, files, now) == Refused(s.error)
    ensures s.Accepted? || s.Rejected? || (old(c.armed) && s == FaultStatus(c))
    ensures !old(c.armed) ==> !c.armed
  {
    VerifyErrorExact(archive, files);
    if FoundTwice(archive, files) { return Rejected(DuplicateArchiveId); }
    var error := VerifyError(archive, files);
    if error.Some? { return Rejected(error.value); }
    var tapeFiles := c.working.tapeFiles;
    var gone := Displaced(tapeFiles, files);
    var ok := LogCopies(c, gone);
    if !ok { return FaultStatus(c); }
    var rows := BatchRows(files, now);
    if !Insertable(tapeFiles, rows) { return Rejected(ConstraintViolated); }
    ok := c.Exec(c.working.(tapeFiles := tapeFiles + rows));
    if ok { ok := DeleteCopies(c, gone); }
    s := if ok then Accepted else FaultStatus(c);
  }

  /** The statements up to the update of the tape, and the loop over the items. */
  method UpdateTapeInTransaction(c: Conn, b: Batch) returns (s: Status, files: seq<FileEvent>)
    requires c.InTransaction(c.published) && b != [] && ItemFieldsSet(b[0])
    modifies c
    ensures c.published == old(c.published)
    ensures s.Accepted? ==> c.InTransaction(c.published) && HeaderError(old(c.working), b, true).None?
    ensures s.Accepted? ==>
              b[0].vid in old(c.working).tapes && c.working == UpdateTape(old(c.working), b) && files == Files(b)
    ensures s.Rejected? ==> HeaderError(old(c.working), b, true) == Some(s.error)
    ensures s.Accepted? || s.Rejected? || (old(c.armed) && s == FaultStatus(c))
    ensures !old(c.armed) ==> !c.armed
  {
    files := [];
    var ok := c.Exec(c.working);
    if !ok { return FaultStatus(c), files; }
    if b[0].vid !in c.working.tapes { return Rejected(TapeMissing), files; }
    var tape, last := c.working.tapes[b[0].vid], b[|b| - 1];
    var error, total;
    error, total, files := CheckItems(b, b[0].vid, tape.lastFSeq, true);
    if error.Some? { return Rejected(error.value), files; }
    ok := c.Exec(c.working.(tapes := c.working.tapes[b[0].vid := Tape(last.fSeq, tape.bytes + total, last.drive)]));
    s := if ok then Accepted else FaultStatus(c);
  }

  /** Everything between the opening of the transaction and its commit. */
  method WriteInTransaction(c: Conn, b: Batch, now: nat) returns (s: Status)
    requires c.InTransaction(c.published) && b != [] && ItemFieldsSet(b[0])
    modifies c
    ensures c.published == old(c.published)
    ensures s.Accepted? ==>
              c.open && !c.aborted && WriteOn(c.postgres, old(c.working), b, now) == Done(c.working)
    ensures s.Rejected? ==> WriteOn(c.postgres, old(c.working), b, now) == Refused(s.error)
    ensures s.Accepted? || s.Rejected? || (old(c.armed) && s == FaultStatus(c))
    ensures !old(c.armed) ==> !c.armed
  {
    var files;
    s, files := UpdateTapeInTransaction(c, b);
    if s.Accepted? && files != [] {
      s := RecordInTransaction(c, files, now);
      if s.Accepted? && !c.postgres { c.SetAutocommit(true); }
    }
  }

  /** The final commit. */
  method CommitWrite(c: Conn) returns (s: Status)
    requires c.open && !c.aborted
    modifies c
    ensures c.published == if s.Accepted? || (c.lossy && c.ackLost) then old(c.working) else old(c.published)
    ensures s == Accepted || (old(c.armed) && s == if c.postgres then FaultStatus(c) else CommitFailed)
  {
    var ok := c.Commit();
    RollBackAndGiveBack(c);
    s := if ok then Accepted else if c.postgres then FaultStatus(c) else CommitFailed;
  }

  /** filesWrittenToTape on PostgreSQL and Oracle: whichever request fails, others see the old
      state or the complete new one; the new one unannounced only if the connection was lost
      after the server had executed the commit. */
  method FilesWrittenToTape(c: Conn, b: Batch, now: nat) returns (s: Status)
    requires c.Idle()
    modifies c
    ensures s.Accepted? ==> WriteOn(c.postgres, old(c.published), b, now) == Done(c.published)
    ensures s.Rejected? ==> WriteOn(c.postgres, old(c.published), b, now) == Refused(s.error)
    ensures s.Rejected? || s.StatementFailed? ==> c.published == old(c.published)
    ensures s.ConnectionLost? ==>
              || c.published == old(c.published)
              || (c.postgres && c.ackLost && WriteOn(c.postgres, old(c.published), b, now) == Done(c.published))
    ensures s.CommitFailed? ==>
              || c.published == old(c.published)
              || (c.lossy && c.ackLost && WriteOn(c.postgres, old(c.published), b, now) == Done(c.published))
    ensures s.StatementFailed? || s.ConnectionLost? || s.CommitFailed? ==> old(c.armed) && b != []
    ensures s.CommitFailed? ==> !c.postgres
  {
    if b == [] { return Accepted; }
    if !ItemFieldsSet(b[0]) { return Rejected(FieldsUnset); }
    var ok := c.OpenTransaction();
    if !ok { RollBackAndGiveBack(c); return FaultStatus(c); }
    s := WriteInTransaction(c, b, now);
    if !s.Accepted? { RollBackAndGiveBack(c); return; }
    s := CommitWrite(c);
  }

  /** The log row has been published while the copy it describes is still live. */
  predicate LoggedButLive(db: Db, db': Db, vid: string, archiveId: nat) {
    exists p :: p in db.tapeFiles && p.vid == vid && db.tapeFiles[p].archiveId == archiveId && archiveId in db.archive
                && db' == db.(log := db.log + multiset{LogOf(p, db.tapeFiles[p], db.archive[archiveId])})
  }

  /** deleteTapeFileCopy, which has no AutoRollback: giving the connection back commits what
      has been done.  PostgreSQL is saved by the aborted transaction.  On Oracle a failure of
      the third or fourth statement publishes the log row without the deletion. */
  method DeleteTapeFileCopy(c: Conn, vid: string, archiveId: nat) returns (ok: bool)
    requires c.Idle()
    modifies c
    ensures ok ==> DeleteCopy(old(c.published), vid, archiveId) == Done(c.published)
    ensures DeleteCopy(old(c.published), vid, archiveId).Refused? ==> c.published == old(c.published)
    ensures !old(c.armed) ==> (ok <==> DeleteCopy(old(c.published), vid, archiveId).Done?)
    ensures c.published != old(c.published) && DeleteCopy(old(c.published), vid, archiveId) != Done(c.published) <==>
            && DeleteCopy(old(c.published), vid, archiveId).Done?
            && !c.postgres && !c.lossy && old(c.armed) && old(c.fuse) in {2, 3}
    ensures c.published != old(c.published) && DeleteCopy(old(c.published), vid, archiveId) != Done(c.published) ==>
              LoggedButLive(old(c.published), c.published, vid, archiveId)
  {
    ghost var db := c.published;
    var found := DeleteCopy(c.published, vid, archiveId);
    if found.Refused? { return false; }
    ghost var p := DeletedCopy(db, vid, archiveId);
    ghost var e := LogOf(p, db.tapeFiles[p], db.archive[archiveId]);
    MovedLog(db, p, e);
    ghost var half := db.(log := db.log + multiset{e});
    assert half.log != db.log by { assert half.log[e] == db.log[e] + 1; }
    assert p in half.tapeFiles && p !in found.db.tapeFiles;
    ok := c.OpenTransaction();
    if ok { ok := c.Exec(c.working); }
    if ok { ok := c.Exec(c.working.(log := found.db.log)); }
    if !ok { c.GiveBack(); return; }
    assert c.working == half;
    ok := c.Exec(c.working);
    if ok { ok := c.Exec(c.working.(tapeFiles := found.db.tapeFiles)); }
    if !ok { c.GiveBack(); return; }
    assert c.working == found.db;
    if !c.postgres { c.SetAutocommit(true); }
    ok := c.Commit();
    c.GiveBack();
  }

  /** One INSERT per copy in the snapshot. */
  method LogSnapshot(c: Conn, rows: seq<LogRow>) returns (ok: bool)
    requires c.InTransaction(c.published)
    modifies c
    ensures c.published == old(c.published)
    ensures !old(c.armed) ==> ok && !c.armed
    ensures ok ==> c.InTransaction(c.published)
    ensures ok ==> c.working == old(c.working).(log := old(c.working.log) + multiset(rows))
  {
    ghost var db := c.working;
    for i := 0 to |rows|
      invariant c.InTransaction(old(c.published))
      invariant c.working == db.(log := db.log + multiset(rows[..i]))
      invariant !old(c.armed) ==> !c.armed
    {
      ok := c.Exec(c.working.(log := c.working.log + multiset{rows[i]}));
      if !ok { return; }
      assert rows[..i + 1] == rows[..i] + [rows[i]];
    }
    assert rows[..|rows|] == rows;
    ok := true;
  }

  /** moveArchiveFileToRecycleLog: all or nothing on both back ends.  On Oracle autocommit is
      switched on before the last statement, which thereby publishes everything. */
  method MoveArchiveFileToRecycleLog(c: Conn, req: DeleteRequest) returns (ok: bool)
    requires c.Idle()
    modifies c
    ensures ok ==> DeleteFile(old(c.published), req) == Done(c.published)
    ensures !ok ==> || c.published == old(c.published)
                    || (c.lossy && c.ackLost && DeleteFile(old(c.published), req) == Done(c.published))
    ensures !old(c.armed) ==> (ok <==> DeleteFile(old(c.published), req).Done?)
  {
    if req.file.None? { return true; }
    var snap := req.file.value;
    if req.diskInstance != snap.diskInstance || req.diskFilePath == "" { return false; }
    ghost var db := c.published;
    ok := c.OpenTransaction();
    if !ok { RollBackAndGiveBack(c); return; }
    var rows := SnapshotRows(c.working.archive, snap);
    if exists i :: 0 <= i < |rows| && rows[i].pos.vid !in c.working.tapes { RollBackAndGiveBack(c); return false; }
    ok := LogSnapshot(c, rows);
    if ok { ok := c.Exec(c.working); }
    if ok { ok := c.Exec(c.working.(tapeFiles := c.working.tapeFiles - CopiesOf(c.working.tapeFiles, req.archiveId))); }
    if !ok { RollBackAndGiveBack(c); return; }
    if !c.postgres { c.SetAutocommit(true); }
    ghost var done := c.working.(archive := c.working.archive - {req.archiveId});
    assert DeleteFile(db, req) == Done(done);
    ok := c.Exec(c.working.(archive := c.working.archive - {req.archiveId}));
    if ok && c.postgres { ok := c.Commit(); }
    RollBackAndGiveBack(c);
  }

  // An input on which Oracle publishes a position twice

  const COPY_1 := Pos("V", 1)
  const TWO_COPIES := Db(map["V" := Tape(1, 5, "d"), "W" := Tape(1, 5, "d")],
                         map[1 := ArchiveRow("i", "f", 1, 1, 5, map[], "c")],
                         map[COPY_1 := TapeRow(1, 5, 1, 0, 1), Pos("W", 1) := TapeRow(1, 5, 2, 0, 1)],
                         multiset{}, {"c"})

  lemma TwoCopiesDeletable()
    ensures DeleteCopy(TWO_COPIES, "V", 1).Done?
  {
    var copies := CopiesOf(TWO_COPIES.tapeFiles, 1);
    assert copies == {COPY_1, Pos("W", 1)};
    assert (set p | p in copies && p.vid == "V") == {COPY_1} by { assert "V"[0] != "W"[0]; }
    assert COPY_1 != Pos("W", 1) by { assert "V"[0] != "W"[0]; }
  }

  /** setTapeDirty fails, the connection survives and goes back to the pool. */
  method OracleDeletePublishesHalf() returns (c: Conn)
    ensures COPY_1 in c.published.tapeFiles && COPY_1 in Logged(c.published.log)
  {
    TwoCopiesDeletable();
    c := new Conn(TWO_COPIES, false, false, false, true, 2);
    var ok := DeleteTapeFileCopy(c, "V", 1);
    ghost var p :| p in TWO_COPIES.tapeFiles && p.vid == "V" && TWO_COPIES.tapeFiles[p].archiveId == 1
                   && c.published == TWO_COPIES.(log := multiset{LogOf(p, TWO_COPIES.tapeFiles[p],
                                                                      TWO_COPIES.archive[1])});
    assert p == COPY_1 by { assert "V"[0] != "W"[0]; }
    assert LogOf(p, TWO_COPIES.tapeFiles[p], TWO_COPIES.archive[1]) in c.published.log;
  }
}

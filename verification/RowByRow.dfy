/** filesWrittenToTape of the row-by-row back ends, statement by statement.  Neither is
    all-or-nothing: what does a refused batch leave behind for others to see?
 */
module RowByRow {
  import opened Options
  import opened Tables
  import opened Writes
  import opened WriteInvariant
  import Transactions
  import WriteEquivalence

  class Session {
    /** MySQL: statements belong to a transaction.  Otherwise SQLite: no transaction is open
        and every statement publishes its effect. */
    const mysql: bool
    var published: Db
    var working: Db

    constructor (db: Db, mysql: bool)
      ensures working == db && published == db && this.mysql == mysql
    {
      this.mysql, published, working := mysql, db, db;
    }

    predicate Valid()
      reads this
    {
      mysql || working == published
    }

    method Exec(next: Db)
      requires Valid()
      modifies this
      ensures Valid() && working == next && published == if mysql then old(published) else next
    {
      working := next;
      if !mysql { published := next; }
    }

    /** COMMIT; START TRANSACTION does the same to a transaction that is already open. */
    method Commit()
      modifies this`published
      ensures published == working
    {
      published := working;
    }

    /** ROLLBACK, which on SQLite has nothing to undo. */
    method Rollback()
      requires Valid()
      modifies this`working
      ensures working == published
    {
      working := published;
    }
  }

  /** The tables after insertArchiveFile, its duplicate-key errors ignored. */
  function Entered(db: Db, f: FileEvent): Db {
    if ArchiveKeyTaken(db.archive, f) then db else db.(archive := db.archive[f.archiveId := ArchiveRowOf(f)])
  }

  /** The tables after logging the copies at `ps`, which stay live. */
  function WithLog(db: Db, ps: set<Pos>): Db
    requires Loggable(db, ps)
  {
    db.(log := db.log + multiset(LogRows(db.archive, db.tapeFiles, ps)))
  }

  /** insertArchiveFile.  MySQL reports any duplicate key as one of the primary key, SQLite
      tells a clash of disk files apart. */
  method InsertArchiveFile(s: Session, f: FileEvent) returns (e: Option<Error>)
    requires s.Valid()
    modifies s
    ensures s.Valid() && s.working == if e.Some? then old(s.working) else Entered(old(s.working), f)
    ensures s.published == if s.mysql then old(s.published) else s.working
    ensures f.storageClass !in old(s.working).storageClasses <==> e == Some(StorageClassMissing)
    ensures e == Some(ConstraintViolated) <==>
            && f.storageClass in old(s.working).storageClasses && !s.mysql
            && f.archiveId !in Entered(old(s.working), f).archive
    ensures e.Some? ==> e.value == StorageClassMissing || e.value == ConstraintViolated
  {
    if f.storageClass !in s.working.storageClasses { return Some(StorageClassMissing); }
    if !ArchiveKeyTaken(s.working.archive, f) {
      s.Exec(s.working.(archive := s.working.archive[f.archiveId := ArchiveRowOf(f)]));
    } else if f.archiveId !in s.working.archive && !s.mysql {
      return Some(ConstraintViolated);
    }
    e := None;
  }

  lemma WithLogGrows(db: Db, done: set<Pos>, p: Pos)
    requires Loggable(db, done + {p}) && p !in done
    ensures WithLog(db, done + {p}) == WithLog(db, done).(log :=
              WithLog(db, done).log + multiset{LogOf(p, db.tapeFiles[p], db.archive[db.tapeFiles[p].archiveId])})
  {
    Transactions.LogRowsGrow(db.archive, db.tapeFiles, done, p);
  }

  lemma WithEmptyLog(db: Db)
    ensures WithLog(db, {}) == db
  {
    assert LogRows(db.archive, db.tapeFiles, {}) == {};
    assert db.log + multiset({}) == db.log;
  }

  predicate Loggable(db: Db, ps: set<Pos>) {
    forall p :: p in ps ==> p in db.tapeFiles && db.tapeFiles[p].archiveId in db.archive
  }

  /** The copies at `done` have been logged since `db`, that at `last` most recently. */
  ghost predicate Logging(s: Session, before: Db, db: Db, done: set<Pos>, last: Pos)
    requires Loggable(db, done)
    reads s
  {
    && s.Valid() && s.working == WithLog(db, done)
    && (s.mysql ==> if done == {} then s.published == before
                    else last in done && s.published == WithLog(db, done - {last}))
  }

  /** insertFileInFileRecycleLog.  On MySQL drawing the identifier of the log row publishes all
      that was done before. */
  method LogCopy(s: Session, p: Pos, ghost before: Db, ghost db: Db, ghost done: set<Pos>, ghost last: Pos)
    requires Loggable(db, done + {p}) && p !in done && Logging(s, before, db, done, last)
    modifies s
    ensures Logging(s, before, db, done + {p}, p)
  {
    WithLogGrows(db, done, p);
    assert done + {p} - {p} == done;
    var row := s.working.tapeFiles[p];
    if s.mysql { s.Commit(); }
    s.Exec(s.working.(log := s.working.log + multiset{LogOf(p, row, s.working.archive[row.archiveId])}));
  }

  /** One log row per copy, in whatever order the query returned them. */
  method LogCopies(s: Session, ps: set<Pos>) returns (ghost last: Pos)
    requires s.Valid() && Loggable(s.working, ps)
    modifies s
    ensures Logging(s, old(s.published), old(s.working), ps, last)
  {
    ghost var before, db := s.published, s.working;
    var todo, done := ps, {};
    last := Pos("", 0);
    WithEmptyLog(db);
    while todo != {}
      invariant todo <= ps && done == ps - todo
      invariant Loggable(db, done) && Logging(s, before, db, done, last)
      decreases todo
    {
      var p :| p in todo;
      assert done + {p} == ps - (todo - {p});
      LogCopy(s, p, before, db, done, last);
      last, todo, done := p, todo - {p}, done + {p};
    }
    assert done == ps;
  }

  /** insertOldCopiesOfFilesIfAnyOnFileRecycleLog */
  method LogOldCopies(s: Session, f: FileEvent) returns (gone: set<Pos>)
    requires s.Valid() && f.archiveId in s.working.archive
    modifies s
    ensures s.Valid() && gone == Displaced(old(s.working.tapeFiles), [f])
    ensures s.working == WithLog(old(s.working), gone)
    ensures s.mysql && gone == {} ==> s.published == old(s.published)
    ensures s.mysql && gone != {} ==> exists p :: p in gone && s.published == WithLog(old(s.working), gone - {p})
  {
    gone := Displaced(s.working.tapeFiles, [f]);
    ghost var last := LogCopies(s, gone);
  }

  method DeleteOldCopies(s: Session, ps: set<Pos>)
    requires s.Valid()
    modifies s
    ensures s.Valid() && s.working == old(s.working).(tapeFiles := old(s.working.tapeFiles) - ps)
  {
    ghost var db := s.working;
    var todo, done := ps, {};
    assert db.tapeFiles - {} == db.tapeFiles;
    while todo != {}
      invariant done + todo == ps && s.Valid()
      invariant s.working == db.(tapeFiles := db.tapeFiles - done)
      decreases todo
    {
      var p :| p in todo;
      s.Exec(s.working.(tapeFiles := s.working.tapeFiles - {p}));
      assert db.tapeFiles - done - {p} == db.tapeFiles - (done + {p});
      todo, done := todo - {p}, done + {p};
    }
    assert done == ps;
  }

  /** What others see after a tape file could not be inserted, where `before` is what they saw
      before and `db` what the session had done by then. */
  predicate LeftByInsert(mysql: bool, before: Db, db: Db, f: FileEvent, left: Db)
    requires f.archiveId in db.archive
  {
    var gone := Displaced(db.tapeFiles, [f]);
    if !mysql then left == WithLog(db, gone)
    else if gone == {} then left == before
    else exists p :: p in gone && left == WithLog(db, gone - {p})
  }

  /** insertTapeFile, which commits or rolls back by itself. */
  method InsertTapeFile(s: Session, f: FileEvent, now: nat) returns (ok: bool)
    requires s.Valid() && f.archiveId in s.working.archive
    modifies s
    ensures s.working == s.published
    ensures ok <==> Insertable(old(s.working.tapeFiles), map[PosOf(f) := TapeRowOf(f, now)])
    ensures ok ==> var db := old(s.working);
                   var gone := Displaced(db.tapeFiles, [f]);
                   var rows := map[PosOf(f) := TapeRowOf(f, now)];
                   s.published == WithLog(db, gone).(tapeFiles := db.tapeFiles + rows - gone)
    ensures !ok ==> LeftByInsert(s.mysql, old(s.published), old(s.working), f, s.published)
  {
    var gone := LogOldCopies(s, f);
    var rows := map[PosOf(f) := TapeRowOf(f, now)];
    ok := Insertable(s.working.tapeFiles, rows);
    if ok {
      s.Exec(s.working.(tapeFiles := s.working.tapeFiles + rows));
      DeleteOldCopies(s, gone);
      s.Commit();
    } else {
      s.Rollback();
    }
  }

  /** What others see after a file event was refused. */
  predicate LeftByRow(mysql: bool, before: Db, db: Db, f: FileEvent, left: Db) {
    var db' := Entered(db, f);
    if !FileFieldsSet(f) || f.storageClass !in db.storageClasses then left == before
    else if Agrees(db'.archive, f) then LeftByInsert(mysql, before, db', f, left)
    else left == if mysql then before else db'
  }

  /** The error that is reported: SQLite tells a clash of disk files when it happens, MySQL finds the
      archive file missing afterwards. */
  function Reported(mysql: bool, error: Error): Error {
    if !mysql && error == ArchiveFileMissing then ConstraintViolated else error
  }

  predicate Reports(mysql: bool, o: Outcome, error: Error) {
    o.Refused? && error == Reported(mysql, o.error)
  }

  method FileWrittenToTape(s: Session, f: FileEvent, now: nat) returns (e: Option<Error>)
    requires s.Valid()
    modifies s
    ensures s.Valid()
    ensures e.None? <==> WriteRow(old(s.working), f, now).Done?
    ensures e.None? ==> s.working == s.published && WriteRow(old(s.working), f, now) == Done(s.published)
    ensures e.Some? ==> Reports(s.mysql, WriteRow(old(s.working), f, now), e.value)
    ensures e.Some? ==> LeftByRow(s.mysql, old(s.published), old(s.working), f, s.published)
  {
    if !FileFieldsSet(f) { return Some(FieldsUnset); }
    e := InsertArchiveFile(s, f);
    if e.Some? { return; }
    var archive := s.working.archive;
    if f.archiveId !in archive { return Some(ArchiveFileMissing); }
    if archive[f.archiveId].size != f.size { return Some(SizeMismatch); }
    if archive[f.archiveId].checksum != f.checksum { return Some(ChecksumMismatch); }
    var ok := InsertTapeFile(s, f, now);
    e := if ok then None else Some(ConstraintViolated);
  }

  lemma {:induction false} RefusalStays(db: Db, fs: seq<FileEvent>, k: nat, now: nat)
    requires k <= |fs| && WriteRows(db, fs[..k], now).Refused?
    ensures WriteRows(db, fs, now) == WriteRows(db, fs[..k], now)
  {
    if k == |fs| {
      assert fs[..k] == fs;
    } else {
      var init := fs[..|fs| - 1];
      assert init[..k] == fs[..k];
      RefusalStays(db, init, k, now);
    }
  }

  lemma RowsThen(db: Db, fs: seq<FileEvent>, f: FileEvent, now: nat)
    requires WriteRows(db, fs, now).Done?
    ensures WriteRows(db, fs + [f], now) == WriteRow(WriteRows(db, fs, now).db, f, now)
  {
    assert (fs + [f])[..|fs + [f]| - 1] == fs;
  }

  /** The batch was refused at its `k`-th file event and left `left` behind. */
  predicate StoppedAt(mysql: bool, db: Db, b: Batch, now: nat, k: nat, left: Db)
    requires b != [] && b[0].vid in db.tapes
  {
    k < |Files(b)| &&
    var rows := WriteRows(UpdateTape(db, b), Files(b)[..k], now);
    && rows.Done? && WriteRow(rows.db, Files(b)[k], now).Refused?
    && LeftByRow(mysql, if mysql && k == 0 then db else rows.db, rows.db, Files(b)[k], left)
  }

  lemma StopRefuses(db: Db, fs: seq<FileEvent>, k: nat, now: nat)
    requires k < |fs| && WriteRows(db, fs[..k], now).Done?
    requires WriteRow(WriteRows(db, fs[..k], now).db, fs[k], now).Refused?
    ensures WriteRows(db, fs, now) == WriteRow(WriteRows(db, fs[..k], now).db, fs[k], now)
  {
    RowsThen(db, fs[..k], fs[k], now);
    assert fs[..k] + [fs[k]] == fs[..k + 1];
    RefusalStays(db, fs, k + 1, now);
  }

  /** The next item of the loop over a batch, `done` being the file events before it. */
  lemma NextItem(b: seq<Event>, j: nat, done: seq<FileEvent>)
    requires j < |b| && done + Files(b[j..]) == Files(b)
    ensures b[j].File? ==> |done| < |Files(b)| && Files(b)[|done|] == b[j] && Files(b)[..|done|] == done
    ensures (if b[j].File? then done + [b[j]] else done) + Files(b[j + 1..]) == Files(b)
  {
    assert b[j..][0] == b[j] && b[j..][1..] == b[j + 1..];
  }

  /** What the loop over the file events has done: `done` is recorded. */
  ghost predicate Recorded(s: Session, db: Db, db1: Db, done: seq<FileEvent>, now: nat)
    reads s
  {
    && s.Valid() && WriteRows(db1, done, now) == Done(s.working)
    && s.published == if s.mysql && done == [] then db else s.working
  }

  lemma StopsThere(mysql: bool, db: Db, b: Batch, now: nat, k: nat, mid: Db, left: Db)
    requires b != [] && b[0].vid in db.tapes && k < |Files(b)|
    requires WriteRows(UpdateTape(db, b), Files(b)[..k], now) == Done(mid)
    requires WriteRow(mid, Files(b)[k], now).Refused?
    requires LeftByRow(mysql, if mysql && k == 0 then db else mid, mid, Files(b)[k], left)
    ensures StoppedAt(mysql, db, b, now, k, left)
    ensures WriteRows(UpdateTape(db, b), Files(b), now) == WriteRow(mid, Files(b)[k], now)
  {
    StopRefuses(UpdateTape(db, b), Files(b), k, now);
  }

  /** One turn of the loop that finds a file event. */
  method WriteNext(s: Session, f: FileEvent, now: nat, ghost db: Db, ghost db1: Db, ghost done: seq<FileEvent>)
    returns (e: Option<Error>)
    requires Recorded(s, db, db1, done, now)
    modifies s
    ensures s.Valid() && (e.None? ==> Recorded(s, db, db1, done + [f], now))
    ensures e.Some? ==> Reports(s.mysql, WriteRow(old(s.working), f, now), e.value)
    ensures e.Some? ==> LeftByRow(s.mysql, old(s.published), old(s.working), f, s.published)
  {
    e := FileWrittenToTape(s, f, now);
    RowsThen(db1, done, f, now);
  }

  /** The second loop over the items: their files, one after the other. */
  method WriteFiles(s: Session, b: Batch, now: nat, ghost db: Db, ghost db1: Db)
    returns (e: Option<Error>, ghost k: nat, ghost mid: Db)
    requires Recorded(s, db, db1, [], now)
    modifies s
    ensures s.Valid() && k <= |Files(b)|
    ensures e.None? ==> WriteRows(db1, Files(b), now) == Done(s.working)
    ensures e.Some? ==>
              && k < |Files(b)| && WriteRows(db1, Files(b)[..k], now) == Done(mid)
              && Reports(s.mysql, WriteRow(mid, Files(b)[k], now), e.value)
              && LeftByRow(s.mysql, if s.mysql && k == 0 then db else mid, mid, Files(b)[k], s.published)
  {
    ghost var done: seq<FileEvent> := [];
    k, mid := 0, s.working;
    assert b[0..] == b;
    for j := 0 to |b|
      invariant done + Files(b[j..]) == Files(b) && k == |done|
      invariant Recorded(s, db, db1, done, now)
    {
      NextItem(b, j, done);
      if b[j].File? {
        mid := s.working;
        e := WriteNext(s, b[j], now, db, db1, done);
        if e.Some? { return; }
        done, k := done + [b[j]], k + 1;
      }
    }
    assert b[|b|..] == [] && done == Files(b);
    e := None;
  }

  /** The first loop over the items, and the update of the tape. */
  method CheckAndUpdateTape(s: Session, b: Batch) returns (e: Option<Error>)
    requires s.working == s.published && b != []
    modifies s
    ensures e == HeaderError(old(s.published), b, false)
    ensures e.Some? ==> s.working == old(s.working) && s.published == old(s.published)
    ensures e.None? ==> b[0].vid in old(s.working.tapes) && s.working == UpdateTape(old(s.working), b)
    ensures e.None? ==> s.published == if s.mysql then old(s.published) else s.working
  {
    if !ItemFieldsSet(b[0]) { return Some(FieldsUnset); }
    if b[0].vid !in s.working.tapes { return Some(TapeMissing); }
    var tape, last := s.working.tapes[b[0].vid], b[|b| - 1];
    var total, files;
    e, total, files := Transactions.CheckItems(b, b[0].vid, tape.lastFSeq, false);
    if e.Some? { return; }
    s.Exec(s.working.(tapes := s.working.tapes[b[0].vid := Tape(last.fSeq, tape.bytes + total, last.drive)]));
  }

  lemma RowWiseIsRows(db: Db, b: Batch, now: nat)
    requires b != []
    ensures HeaderError(db, b, false).Some? ==> WriteRowWise(db, b, now) == Refused(HeaderError(db, b, false).value)
    ensures HeaderError(db, b, false) != Some(ArchiveFileMissing)
    ensures HeaderError(db, b, false).None? ==>
              b[0].vid in db.tapes && WriteRowWise(db, b, now) == WriteRows(UpdateTape(db, b), Files(b), now)
  {
    if b[0].vid in db.tapes { ItemsDoNotMiss(b, b[0].vid, db.tapes[b[0].vid].lastFSeq + 1); }
  }

  lemma {:induction false} ItemsDoNotMiss(b: seq<Event>, vid: string, expected: nat)
    ensures ItemsError(b, vid, expected, false) != Some(ArchiveFileMissing)
  {
    if b != [] { ItemsDoNotMiss(b[1..], vid, expected + 1); }
  }

  /** Accepted exactly when the row-wise write is, with its result; a refusal of the header
      leaves nothing, and any other refusal leaves what StoppedAt says. */
  method FilesWrittenToTape(s: Session, b: Batch, now: nat) returns (e: Option<Error>, ghost k: nat)
    requires s.working == s.published
    modifies s
    ensures s.working == s.published
    ensures e.None? ==> WriteRowWise(old(s.published), b, now) == Done(s.published)
    ensures e.Some? ==> b != [] && Reports(s.mysql, WriteRowWise(old(s.published), b, now), e.value)
    ensures b != [] && HeaderError(old(s.published), b, false).Some? ==> s.published == old(s.published)
    ensures e.Some? && HeaderError(old(s.published), b, false).None? ==>
              b[0].vid in old(s.published).tapes && StoppedAt(s.mysql, old(s.published), b, now, k, s.published)
  {
    e, k := None, 0;
    if b == [] { return; }
    ghost var db := s.published;
    RowWiseIsRows(db, b, now);
    e := CheckAndUpdateTape(s, b);
    if e.Some? { return; }
    ghost var mid;
    e, k, mid := WriteFiles(s, b, now, db, s.working);
    if e.Some? {
      StopsThere(s.mysql, db, b, now, k, mid, s.published);
      s.Rollback();
    } else {
      s.Commit();
    }
  }

  /** The refused event had come as far as logging copies that it would have displaced. */
  predicate CopiesLogged(db: Db, f: FileEvent) {
    && FileFieldsSet(f) && f.storageClass in db.storageClasses && Agrees(Entered(db, f).archive, f)
    && Displaced(db.tapeFiles, [f]) != {}
  }

  lemma {:induction false} RowsKeepTapes(db: Db, fs: seq<FileEvent>, now: nat)
    requires WriteRows(db, fs, now).Done?
    ensures WriteRows(db, fs, now).db.tapes == db.tapes
  {
    if fs != [] {
      WriteRowsUnfold(db, fs, now);
      RowsKeepTapes(db, fs[..|fs| - 1], now);
    }
  }

  /** A batch refused after the header check changes nothing exactly when the back end is MySQL
      and it is the first file event that fails, before any copy is logged. */
  lemma RefusalChangesNothingExactly(mysql: bool, db: Db, b: Batch, now: nat, k: nat, left: Db)
    requires b != [] && HeaderError(db, b, false).None? && b[0].vid in db.tapes
    requires StoppedAt(mysql, db, b, now, k, left)
    ensures left == db <==> mysql && k == 0 && !CopiesLogged(UpdateTape(db, b), Files(b)[0])
  {
    HeaderExact(db, b, false);
    var db1 := UpdateTape(db, b);
    assert db1.tapes[b[0].vid].lastFSeq == b[|b| - 1].fSeq > db.tapes[b[0].vid].lastFSeq;
    RowsKeepTapes(db1, Files(b)[..k], now);
    assert k == 0 ==> Files(b)[..k] == [];
  }

  lemma AddKeepsSizes(archive: map<nat, ArchiveRow>, tapeFiles: map<Pos, TapeRow>, a: nat, row: ArchiveRow)
    requires SizesAgree(archive, tapeFiles) && a !in archive
    ensures SizesAgree(archive[a := row], tapeFiles)
  {
  }

  lemma AddKeepsLogSizes(archive: map<nat, ArchiveRow>, log: multiset<LogRow>, a: nat, row: ArchiveRow)
    requires LogSizesAgree(archive, log) && a !in archive
    requires forall r :: r in log && r.archiveId == a ==> r.size == row.size
    ensures LogSizesAgree(archive[a := row], log)
  {
  }

  lemma EnteredKeepsInv(db: Db, f: FileEvent)
    requires Inv(db) && SizesKnown(db, [f])
    ensures Inv(Entered(db, f))
  {
    if !ArchiveKeyTaken(db.archive, f) {
      var row := ArchiveRowOf(f);
      assert [f][0] == f;
      AddKeepsSizes(db.archive, db.tapeFiles, f.archiveId, row);
      AddKeepsLogSizes(db.archive, db.log, f.archiveId, row);
      WriteEquivalence.AddKeepsUniqueDisk(db.archive, f);
    }
  }

  lemma LoggingBreaksInv(db: Db, ps: set<Pos>, p: Pos)
    requires Loggable(db, ps) && p in ps
    ensures !Inv(WithLog(db, ps))
  {
    LogRowsOneEach(db.archive, db.tapeFiles, ps);
    var r :| r in LogRows(db.archive, db.tapeFiles, ps) && r.pos == p;
    assert r in WithLog(db, ps).log;
  }

  lemma OneOldCopy(db: Db, f: FileEvent, p: Pos)
    requires OneCopy(db.tapeFiles) && p in Displaced(db.tapeFiles, [f])
    ensures Displaced(db.tapeFiles, [f]) - {p} == {}
  {
    forall q | q in Displaced(db.tapeFiles, [f]) ensures q == p {
      assert SameCopy(db.tapeFiles[p], db.tapeFiles[q]);
    }
  }

  lemma RowLeavesInvExactly(mysql: bool, before: Db, db: Db, f: FileEvent, left: Db)
    requires Inv(before) && Inv(db) && SizesKnown(db, [f]) && (!mysql ==> before == db)
    requires LeftByRow(mysql, before, db, f, left)
    ensures Inv(left) <==> mysql || !CopiesLogged(db, f)
  {
    EnteredKeepsInv(db, f);
    var db' := Entered(db, f);
    var gone := Displaced(db.tapeFiles, [f]);
    WithEmptyLog(db');
    if CopiesLogged(db, f) {
      if mysql {
        var p :| p in gone && left == WithLog(db', gone - {p});
        OneOldCopy(db, f, p);
      } else {
        var p :| p in gone;
        LoggingBreaksInv(db', gone, p);
      }
    }
  }

  /** A refused batch leaves a valid catalogue exactly when the back end is MySQL or no copy had
      been logged: on SQLite such a copy is live and logged at once. */
  lemma RefusalKeepsInvExactly(mysql: bool, db: Db, b: Batch, now: nat, k: nat, left: Db)
    requires Inv(db) && b != [] && HeaderError(db, b, false).None? && b[0].vid in db.tapes
    requires SizesKnown(db, Files(b)) && StoppedAt(mysql, db, b, now, k, left)
    ensures Inv(left) <==>
            mysql || !CopiesLogged(WriteRows(UpdateTape(db, b), Files(b)[..k], now).db, Files(b)[k])
  {
    var db1, fs := UpdateTape(db, b), Files(b);
    UpdateTapeKeepsInv(db, b, false);
    HeaderPlaces(db, b, false);
    PlacedPart(db1, fs, k);
    WriteRowsKeepInv(db1, fs[..k], now);
    var mid := WriteRows(db1, fs[..k], now).db;
    SizesStayKnown(db1, mid, fs, k);
    RowLeavesInvExactly(mysql, if mysql && k == 0 then db else mid, mid, fs[k], left);
  }

  lemma PlacedPart(db: Db, fs: seq<FileEvent>, k: nat)
    requires k <= |fs| && Placed(db, fs) && SizesKnown(db, fs)
    ensures Placed(db, fs[..k]) && SizesKnown(db, fs[..k])
  {
    assert forall i :: 0 <= i < k ==> fs[..k][i] == fs[i];
  }
}

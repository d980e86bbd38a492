/** Serial runs: any number of catalogue operations in any order on one database, each as the back
    end of that database performs it.
 */
module Runs {
  import opened Options
  import opened Tables
  import opened Writes
  import opened WriteInvariant
  import opened WriteEquivalence
  import WriteEffects
  import opened Recycle
  import opened Restore
  import opened RestoreFaults
  import opened RestoreInvariant
  import opened RowByRow
  import RestoreTransaction

  datatype BackEnd = PostgreSQL | Oracle | MySQL | SQLite {
    predicate SetWise() { PostgreSQL? || Oracle? }

    /** A statement after a commit publishes its effect: PostgreSQL and SQLite have left the
        transaction, Oracle and MySQL are in the next one, having autocommit switched off. */
    predicate PublishesAfterCommit() { PostgreSQL? || SQLite? }

    function NoFault(): Fault { Fault(PublishesAfterCommit(), false, false, false, 0) }
  }

  datatype Step =
    | AddStorageClass(name: string)
    | AddTape(vid: string)
    | WriteBatch(batch: Batch, now: nat, k: nat, left: Db)   // by row, left by a refusal at file k
    | RemoveCopy(vid: string, archiveId: nat)
    | RemoveFile(request: DeleteRequest)
    | RestoreCopies(entries: seq<LogRow>, now: nat)
    | ChangeDiskFile(archiveId: nat, diskInstance: string, diskFileId: string)
    | ReclaimTape(vid: string, isFull: bool)

  function CreateTape(db: Db, vid: string): Outcome {
    if vid == "" then Refused(FieldsUnset)
    else if vid in db.tapes then Refused(TapeExists)
    else Done(db.(tapes := db.tapes[vid := Tape(0, 0, "")]))
  }

  /** updateDiskFileId */
  function UpdateDiskFileId(db: Db, archiveId: nat, diskInstance: string, diskFileId: string): Outcome {
    if archiveId !in db.archive then Refused(NoSuchFile)
    else
      var row := db.archive[archiveId].(diskInstance := diskInstance, diskFileId := diskFileId);
      var archive := db.archive[archiveId := row];
      if !UniqueDisk(archive) then Refused(ConstraintViolated) else Done(db.(archive := archive))
  }

  /** reclaimTape: a full tape without live copies loses its log rows and starts again at zero. */
  ghost function Reclaim(db: Db, vid: string, isFull: bool): Outcome {
    if vid !in db.tapes then Refused(TapeMissing)
    else if !isFull then Refused(TapeNotFull)
    else if exists p :: p in db.tapeFiles && p.vid == vid then Refused(TapeNotEmpty)
    else
      Done(db.(log := Purge(db.log, set r | r in db.log && r.pos.vid == vid),
               tapes := db.tapes[vid := Tape(0, 0, db.tapes[vid].lastDrive)]))
  }

  function After(db: Db, o: Outcome): Db {
    if o.Done? then o.db else db
  }

  /** The batch passes the header check and is refused at one of its files. */
  predicate RefusedMidway(db: Db, b: Batch, now: nat)
    ensures RefusedMidway(db, b, now) ==> b != [] && b[0].vid in db.tapes
  {
    b != [] && HeaderError(db, b, false).None? && WriteRowWise(db, b, now).Refused?
  }

  /** The database after a step.  A refused step changes nothing, except that a restore keeps what
      it had already restored and a write by row what it had already written. */
  ghost function Apply(on: BackEnd, db: Db, s: Step): Db {
    match s
    case AddStorageClass(name) => db.(storageClasses := db.storageClasses + {name})
    case AddTape(vid) => After(db, CreateTape(db, vid))
    case WriteBatch(batch, now, k, left) =>
      if on.SetWise() then After(db, WriteOn(on.PostgreSQL?, db, batch, now))
      else if RefusedMidway(db, batch, now) && StoppedAt(on.MySQL?, db, batch, now, k, left) then left
      else After(db, WriteRowWise(db, batch, now))
    case RemoveCopy(vid, archiveId) => After(db, DeleteCopy(db, vid, archiveId))
    case RemoveFile(request) => After(db, DeleteFile(db, request))
    case RestoreCopies(entries, now) => Left(db, entries, now, on.NoFault())
    case ChangeDiskFile(archiveId, diskInstance, diskFileId) =>
      After(db, UpdateDiskFileId(db, archiveId, diskInstance, diskFileId))
    case ReclaimTape(vid, isFull) => After(db, Reclaim(db, vid, isFull))
  }

  /** A write by row has been refused, leaving what such a write can leave.  On SQLite it must not
      have logged a copy that it would have displaced. */
  predicate RowRefusal(on: BackEnd, db: Db, b: Batch, now: nat, k: nat, left: Db)
    requires b != [] && b[0].vid in db.tapes
  {
    && StoppedAt(on.MySQL?, db, b, now, k, left)
    && (on.SQLite? ==> !CopiesLogged(WriteRows(UpdateTape(db, b), Files(b)[..k], now).db, Files(b)[k]))
  }

  /** What the callers owe: identifiers in use in the log are not taken up with another size, the
      snapshot in a deletion request is current, and entries to restore were read from the log.
      On Oracle and MySQL the list to restore is not stopped by a block in use after an entry has
      been restored. */
  ghost predicate Dutiful(on: BackEnd, db: Db, s: Step) {
    match s
    case WriteBatch(batch, now, k, left) =>
      && SizesKnown(db, Files(batch))
      && (!on.SetWise() && RefusedMidway(db, batch, now) ==> RowRefusal(on, db, batch, now, k, left))
    case RemoveFile(request) => request.file.Some? ==> FreshSnapshot(db, request)
    case RestoreCopies(entries, _) =>
      multiset(entries) <= db.log && (on.PublishesAfterCommit() || !StoppedLate(db, entries))
    case _ => true
  }

  ghost function Run(on: BackEnd, db: Db, steps: seq<Step>): Db
    decreases |steps|
  {
    if steps == [] then db else Run(on, Apply(on, db, steps[0]), steps[1..])
  }

  ghost predicate DutifulRun(on: BackEnd, db: Db, steps: seq<Step>)
    decreases |steps|
  {
    steps == [] || (Dutiful(on, db, steps[0]) && DutifulRun(on, Apply(on, db, steps[0]), steps[1..]))
  }

  lemma CreateTapeKeepsInv(db: Db, vid: string)
    requires Inv(db)
    ensures Inv(After(db, CreateTape(db, vid)))
  {
    var db' := After(db, CreateTape(db, vid));
    assert forall p :: OnTape(db.tapes, p) ==> OnTape(db'.tapes, p);
  }

  /** A storage class that has been added is not missed by a write; nothing else changes. */
  lemma AddedClassIsKnown(on: BackEnd, db: Db, f: FileEvent, now: nat)
    ensures var db' := Apply(on, db, AddStorageClass(f.storageClass));
            && WriteRow(db', f, now) != Refused(StorageClassMissing)
            && db' == db.(storageClasses := db'.storageClasses)
            && forall c :: c in db'.storageClasses <==> c in db.storageClasses || c == f.storageClass
  {
  }

  /** A tape is created exactly when it is named and new; it starts empty, and nothing else changes. */
  lemma CreateTapeExact(db: Db, vid: string)
    ensures CreateTape(db, vid).Done? <==> vid != "" && vid !in db.tapes
    ensures CreateTape(db, vid) == Refused(TapeExists) <==> vid != "" && vid in db.tapes
    ensures CreateTape(db, vid).Done? ==>
              var db' := CreateTape(db, vid).db;
              && db'.tapes.Keys == db.tapes.Keys + {vid} && db'.tapes[vid].lastFSeq == db'.tapes[vid].bytes == 0
              && (forall v :: v in db.tapes ==> db'.tapes[v] == db.tapes[v])
              && db'.archive == db.archive && db'.tapeFiles == db.tapeFiles && db'.log == db.log
              && db'.storageClasses == db.storageClasses
  {
  }

  lemma UpdateDiskFileIdKeepsInv(db: Db, archiveId: nat, diskInstance: string, diskFileId: string)
    requires Inv(db)
    ensures Inv(After(db, UpdateDiskFileId(db, archiveId, diskInstance, diskFileId)))
  {
  }

  /** It changes the disk identity of one archive file and is refused exactly when there is no such
      file or another one has that identity. */
  lemma UpdateDiskFileIdExact(db: Db, archiveId: nat, diskInstance: string, diskFileId: string)
    requires Inv(db)
    ensures UpdateDiskFileId(db, archiveId, diskInstance, diskFileId).Done? <==>
            && archiveId in db.archive
            && forall a :: a in db.archive && a != archiveId ==>
                 db.archive[a].diskInstance != diskInstance || db.archive[a].diskFileId != diskFileId
    ensures UpdateDiskFileId(db, archiveId, diskInstance, diskFileId) == Refused(NoSuchFile) <==>
            archiveId !in db.archive
    ensures UpdateDiskFileId(db, archiveId, diskInstance, diskFileId).Done? ==>
              var db' := UpdateDiskFileId(db, archiveId, diskInstance, diskFileId).db;
              && db'.archive.Keys == db.archive.Keys
              && db'.archive[archiveId].diskInstance == diskInstance && db'.archive[archiveId].diskFileId == diskFileId
              && SameContents(db'.archive[archiveId], db.archive[archiveId])
              && (forall a :: a in db.archive && a != archiveId ==> db'.archive[a] == db.archive[a])
              && db'.tapes == db.tapes && db'.tapeFiles == db.tapeFiles && db'.log == db.log
              && db'.storageClasses == db.storageClasses
  {
    if archiveId in db.archive {
      var row := db.archive[archiveId].(diskInstance := diskInstance, diskFileId := diskFileId);
      var archive := db.archive[archiveId := row];
      if UniqueDisk(archive) {
        forall a | a in db.archive && a != archiveId
          ensures db.archive[a].diskInstance != diskInstance || db.archive[a].diskFileId != diskFileId
        {
          assert !SameDiskFile(archive[a], archive[archiveId]);
        }
      }
    }
  }

  /** The columns other than the disk identity. */
  predicate SameContents(a: ArchiveRow, b: ArchiveRow) {
    a.uid == b.uid && a.gid == b.gid && a.size == b.size && a.checksum == b.checksum && a.storageClass == b.storageClass
  }

  lemma PartOfLogKeeps(archive: map<nat, ArchiveRow>, tapeFiles: map<Pos, TapeRow>, log: multiset<LogRow>,
                       log': multiset<LogRow>)
    requires HeldOnce(tapeFiles, log) && LogSizesAgree(archive, log)
    requires forall r :: r in log' ==> r in log && log'[r] == log[r]
    ensures HeldOnce(tapeFiles, log') && LogSizesAgree(archive, log')
  {
  }

  lemma OtherTapesKeep(tapes: map<string, Tape>, tapes': map<string, Tape>, vid: string, p: Pos)
    requires OnTape(tapes, p) && p.vid != vid && vid in tapes' && tapes' == tapes[vid := tapes'[vid]]
    ensures OnTape(tapes', p)
  {
  }

  lemma ReclaimKeepsInv(db: Db, vid: string, isFull: bool)
    requires Inv(db)
    ensures Inv(After(db, Reclaim(db, vid, isFull)))
  {
    var db' := After(db, Reclaim(db, vid, isFull));
    if Reclaim(db, vid, isFull).Done? {
      assert forall r :: r in db'.log ==> r in db.log && r.pos.vid != vid && db'.log[r] == db.log[r];
      PartOfLogKeeps(db.archive, db.tapeFiles, db.log, db'.log);
      assert InRange(db') by {
        forall p | p in db'.tapeFiles ensures OnTape(db'.tapes, p) { OtherTapesKeep(db.tapes, db'.tapes, vid, p); }
        forall r | r in db'.log ensures OnTape(db'.tapes, r.pos) { OtherTapesKeep(db.tapes, db'.tapes, vid, r.pos); }
      }
    }
  }

  /** When a tape can be reclaimed, and what happens then: its log rows go and its counters start at
      zero; everything else stays, the log rows of other tapes included. */
  lemma ReclaimExact(db: Db, vid: string, isFull: bool)
    ensures Reclaim(db, vid, isFull).Done? <==>
            vid in db.tapes && isFull && forall p :: p in db.tapeFiles ==> p.vid != vid
    ensures Reclaim(db, vid, isFull).Done? ==>
              var db' := Reclaim(db, vid, isFull).db;
              && (forall r :: db'.log[r] == if r.pos.vid == vid then 0 else db.log[r])
              && db'.tapes.Keys == db.tapes.Keys
              && db'.tapes[vid].lastFSeq == db'.tapes[vid].bytes == 0
              && db'.tapes[vid].lastDrive == db.tapes[vid].lastDrive
              && (forall v :: v in db.tapes && v != vid ==> db'.tapes[v] == db.tapes[v])
              && db'.tapeFiles == db.tapeFiles && db'.archive == db.archive && db'.storageClasses == db.storageClasses
  {
  }

  /** The catalogue forgets exactly the positions of that tape. */
  lemma ReclaimForgets(db: Db, vid: string, isFull: bool)
    requires Reclaim(db, vid, isFull).Done?
    ensures Held(Reclaim(db, vid, isFull).db) == set p | p in Held(db) && p.vid != vid
  {
    ReclaimExact(db, vid, isFull);
    var db' := Reclaim(db, vid, isFull).db;
    forall p | p in Held(db) && p.vid != vid ensures p in Held(db') {
      if p !in db.tapeFiles {
        var r :| r in db.log && r.pos == p;
        assert r in db'.log;
      }
    }
    forall p | p in Held(db') ensures p in Held(db) && p.vid != vid {
      if p !in db'.tapeFiles {
        var r :| r in db'.log && r.pos == p;
        assert r in db.log;
      }
    }
  }

  lemma WriteStepKeepsInv(on: BackEnd, db: Db, b: Batch, now: nat, k: nat, left: Db)
    requires Inv(db) && Dutiful(on, db, WriteBatch(b, now, k, left))
    ensures Inv(Apply(on, db, WriteBatch(b, now, k, left)))
  {
    if on.SetWise() {
      SetWiseWritesAgree(db, b, now);
      if WriteSetWise(db, b, now).Done? { WriteKeepsInv(db, b, now); }
    } else if RefusedMidway(db, b, now) {
      RefusalKeepsInvExactly(on.MySQL?, db, b, now, k, left);
    } else if WriteRowWise(db, b, now).Done? {
      WriteRowWiseKeepsInv(db, b, now);
    }
  }

  /** What a write does on each back end: an accepted batch has its full effect, and both back ends of
      a kind do the same.  A refused one changes nothing on PostgreSQL and Oracle; on MySQL and SQLite
      it changes nothing if its header is refused, and otherwise leaves what a stop at one of its files
      can leave. */
  lemma WriteStepExact(on: BackEnd, db: Db, b: Batch, now: nat, k: nat, left: Db)
    requires Inv(db)
    ensures var db' := Apply(on, db, WriteBatch(b, now, k, left));
            if on.PostgreSQL? || on.Oracle? then
              if WriteSetWise(db, b, now).Done? then WriteEffects.Effect(db, db', b, now) else db' == db
            else if WriteRowWise(db, b, now).Done? then WriteEffects.Effect(db, db', b, now)
            else if b != [] && HeaderError(db, b, false).Some? then db' == db
            else b != [] && b[0].vid in db.tapes && (StoppedAt(on.MySQL?, db, b, now, k, left) ==> db' == left)
  {
    if on.SetWise() {
      SetWiseWritesAgree(db, b, now);
      if WriteSetWise(db, b, now).Done? { WriteEffects.SetWiseEffect(on.PostgreSQL?, db, b, now); }
    } else if WriteRowWise(db, b, now).Done? {
      WriteEffects.RowWiseEffect(db, b, now);
    }
  }

  lemma StepKeepsInv(on: BackEnd, db: Db, s: Step)
    requires Inv(db) && Dutiful(on, db, s)
    ensures Inv(Apply(on, db, s))
  {
    match s
    case AddStorageClass(name) =>
    case AddTape(vid) => CreateTapeKeepsInv(db, vid);
    case WriteBatch(batch, now, k, left) => WriteStepKeepsInv(on, db, batch, now, k, left);
    case RemoveCopy(vid, archiveId) =>
      if DeleteCopy(db, vid, archiveId).Done? { DeleteCopyKeepsInv(db, vid, archiveId); }
    case RemoveFile(request) =>
      if DeleteFile(db, request).Done? { DeleteFileKeepsInv(db, request); }
    case RestoreCopies(entries, now) => UndisturbedKeepsInvExactly(db, entries, now, on.NoFault());
    case ChangeDiskFile(archiveId, diskInstance, diskFileId) =>
      UpdateDiskFileIdKeepsInv(db, archiveId, diskInstance, diskFileId);
    case ReclaimTape(vid, isFull) => ReclaimKeepsInv(db, vid, isFull);
  }

  /** The duty of a restore and that of a refused write by row are needed: a step that neglects
      only them breaks the invariant. */
  lemma NeglectBreaksInv(on: BackEnd, db: Db, s: Step)
    requires Inv(db) && !Dutiful(on, db, s)
    requires match s
             case WriteBatch(batch, now, k, left) =>
               && SizesKnown(db, Files(batch)) && !on.SetWise() && RefusedMidway(db, batch, now)
               && StoppedAt(on.MySQL?, db, batch, now, k, left)
             case RestoreCopies(entries, _) => multiset(entries) <= db.log
             case _ => false
    ensures !Inv(Apply(on, db, s))
  {
    match s
    case WriteBatch(batch, now, k, left) => RefusalKeepsInvExactly(on.MySQL?, db, batch, now, k, left);
    case RestoreCopies(entries, now) => UndisturbedKeepsInvExactly(db, entries, now, on.NoFault());
  }

  /** Every run that starts from a state satisfying the invariant stays within it. */
  lemma {:induction false} RunKeepsInv(on: BackEnd, db: Db, steps: seq<Step>)
    requires Inv(db) && DutifulRun(on, db, steps)
    ensures Inv(Run(on, db, steps))
    decreases |steps|
  {
    if steps != [] {
      StepKeepsInv(on, db, steps[0]);
      RunKeepsInv(on, Apply(on, db, steps[0]), steps[1..]);
    }
  }

  // The ledger of a tape: everything recorded on it since it was created or last reclaimed

  /** The items on tape `vid` after a step, given those before: a batch counts as soon as its update
      of the tape has been published. */
  ghost function Recorded(on: BackEnd, db: Db, s: Step, vid: string, items: seq<Event>): seq<Event> {
    match s
    case AddTape(v) => if v == vid && CreateTape(db, v).Done? then [] else items
    case WriteBatch(batch, now, k, left) =>
      if batch != [] && batch[0].vid == vid && Apply(on, db, s).tapes != db.tapes then items + batch else items
    case ReclaimTape(v, isFull) => if v == vid && Reclaim(db, v, isFull).Done? then [] else items
    case _ => items
  }

  ghost function History(on: BackEnd, db: Db, steps: seq<Step>, vid: string, items: seq<Event>): seq<Event>
    decreases |steps|
  {
    if steps == [] then items
    else History(on, Apply(on, db, steps[0]), steps[1..], vid, Recorded(on, db, steps[0], vid, items))
  }

  /** The items occupy exactly the positions 1..lastFSeq in order, and the byte counter is the
      sum of the sizes of the files among them. */
  ghost predicate Balanced(db: Db, vid: string, items: seq<Event>) {
    vid in db.tapes ==>
      && |items| == db.tapes[vid].lastFSeq
      && (forall k :: 0 <= k < |items| ==> items[k].vid == vid && items[k].fSeq == k + 1)
      && db.tapes[vid].bytes == TotalBytes(Files(items))
  }

  lemma UpdateKeepsBalance(db: Db, db': Db, b: Batch, checkFiles: bool, vid: string, items: seq<Event>)
    requires Balanced(db, vid, items) && b != [] && HeaderError(db, b, checkFiles).None?
    requires b[0].vid in db.tapes && db'.tapes == UpdateTape(db, b).tapes
    ensures Balanced(db', vid, if b[0].vid == vid then items + b else items)
    ensures db'.tapes != db.tapes
  {
    HeaderExact(db, b, checkFiles);
    assert db'.tapes[b[0].vid].lastFSeq == b[|b| - 1].fSeq > db.tapes[b[0].vid].lastFSeq;
    if b[0].vid == vid {
      BytesAdd(items, b);
      assert b[|b| - 1].fSeq == db.tapes[vid].lastFSeq + |b|;
      forall k | 0 <= k < |items + b| ensures (items + b)[k].vid == vid && (items + b)[k].fSeq == k + 1 {
        if k >= |items| { assert (items + b)[k] == b[k - |items|]; }
      }
    }
  }

  /** A refused write by row has either updated the tape or changed no tape. */
  lemma StoppedTapes(mysql: bool, db: Db, b: Batch, now: nat, k: nat, left: Db)
    requires b != [] && b[0].vid in db.tapes && StoppedAt(mysql, db, b, now, k, left)
    ensures left.tapes == db.tapes || left.tapes == UpdateTape(db, b).tapes
  {
    RowsKeepTapes(UpdateTape(db, b), Files(b)[..k], now);
  }

  lemma WriteMovesTape(on: BackEnd, db: Db, b: Batch, now: nat, k: nat, left: Db)
    requires b != []
    ensures var db' := Apply(on, db, WriteBatch(b, now, k, left));
            || db'.tapes == db.tapes
            || (HeaderError(db, b, on.SetWise()).None? && b[0].vid in db.tapes && db'.tapes == UpdateTape(db, b).tapes)
  {
    if !on.SetWise() && HeaderError(db, b, false).None? {
      if RefusedMidway(db, b, now) && StoppedAt(on.MySQL?, db, b, now, k, left) {
        StoppedTapes(on.MySQL?, db, b, now, k, left);
      } else if WriteRowWise(db, b, now).Done? {
        RowsKeepTapes(UpdateTape(db, b), Files(b), now);
      }
    }
  }

  lemma WriteStepKeepsBalance(on: BackEnd, db: Db, b: Batch, now: nat, k: nat, left: Db, vid: string, items: seq<Event>)
    requires Balanced(db, vid, items)
    ensures var s := WriteBatch(b, now, k, left);
            Balanced(Apply(on, db, s), vid, Recorded(on, db, s, vid, items))
  {
    var db' := Apply(on, db, WriteBatch(b, now, k, left));
    if b != [] {
      WriteMovesTape(on, db, b, now, k, left);
      if db'.tapes != db.tapes { UpdateKeepsBalance(db, db', b, on.SetWise(), vid, items); }
    }
  }

  lemma RestoreKeepsTapes(db: Db, es: seq<LogRow>, now: nat)
    ensures RestoreAll(db, es, now).db.tapes == db.tapes
    decreases |es|
  {
    if es != [] {
      RestoreAllStep(db, es, now);
      if RestoreOne(db, es[0], now).Done? {
        RestoreKeepsTapes(RestoreOne(db, es[0], now).db, es[1..], now);
      }
    }
  }

  lemma LeftKeepsTapes(db: Db, es: seq<LogRow>, now: nat, f: Fault)
    ensures Left(db, es, now, f).tapes == db.tapes
  {
    var k := LeftReachedFromStart(db, es, now, f);
    RestoreKeepsTapes(db, es[..k], now);
  }

  lemma StepKeepsBalance(on: BackEnd, db: Db, s: Step, vid: string, items: seq<Event>)
    requires Balanced(db, vid, items)
    ensures Balanced(Apply(on, db, s), vid, Recorded(on, db, s, vid, items))
  {
    match s
    case WriteBatch(batch, now, k, left) => WriteStepKeepsBalance(on, db, batch, now, k, left, vid, items);
    case RestoreCopies(entries, now) => LeftKeepsTapes(db, entries, now, on.NoFault());
    case _ =>
  }

  /** Over any history on any number of tapes, starting from an empty catalogue: no gap, no
      position assigned twice, and an exact byte count, for each tape independently. */
  lemma {:induction false} HistoryIsBalanced(on: BackEnd, db: Db, steps: seq<Step>, vid: string, items: seq<Event>)
    requires Balanced(db, vid, items)
    ensures Balanced(Run(on, db, steps), vid, History(on, db, steps, vid, items))
    decreases |steps|
  {
    if steps != [] {
      StepKeepsBalance(on, db, steps[0], vid, items);
      HistoryIsBalanced(on, Apply(on, db, steps[0]), steps[1..], vid, Recorded(on, db, steps[0], vid, items));
    }
  }

  /** The two results together, from the empty catalogue. */
  lemma CatalogueHistory(on: BackEnd, steps: seq<Step>, vid: string)
    requires DutifulRun(on, EMPTY_DB, steps)
    ensures Inv(Run(on, EMPTY_DB, steps))
    ensures Balanced(Run(on, EMPTY_DB, steps), vid, History(on, EMPTY_DB, steps, vid, []))
  {
    RunKeepsInv(on, EMPTY_DB, steps);
    HistoryIsBalanced(on, EMPTY_DB, steps, vid, []);
  }

  /** A valid catalogue and a list read from its log that break the invariant on Oracle and MySQL, and
      keep it on PostgreSQL and SQLite. */
  lemma LateBlockBreaksInv(on: BackEnd, now: nat)
    ensures var s := RestoreCopies([RestoreTransaction.FIRST, RestoreTransaction.SECOND], now);
            && Inv(RestoreTransaction.TWO_LOGGED) && multiset(s.entries) <= RestoreTransaction.TWO_LOGGED.log
            && (Inv(Apply(on, RestoreTransaction.TWO_LOGGED, s)) <==> on.PostgreSQL? || on.SQLite?)
  {
    RestoreTransaction.TwoLoggedStoppedLate();
    LateBlockBreaks(on, RestoreTransaction.TWO_LOGGED, [RestoreTransaction.FIRST, RestoreTransaction.SECOND], now);
  }

  lemma LateBlockBreaks(on: BackEnd, db: Db, es: seq<LogRow>, now: nat)
    requires Inv(db) && multiset(es) <= db.log && StoppedLate(db, es)
    ensures !on.PublishesAfterCommit() ==> !Inv(Apply(on, db, RestoreCopies(es, now)))
    ensures on.PublishesAfterCommit() ==> Inv(Apply(on, db, RestoreCopies(es, now)))
  {
    if on.PublishesAfterCommit() {
      StepKeepsInv(on, db, RestoreCopies(es, now));
    } else {
      NeglectBreaksInv(on, db, RestoreCopies(es, now));
    }
  }

  /** A copy that was logged before its archive file got another disk identity is not restored. */
  lemma MovedFileIsPassedOver(on: BackEnd, db: Db, vid: string, archiveId: nat, diskInstance: string,
                              diskFileId: string, now: nat) returns (p: Pos)
    requires Inv(db) && DeleteCopy(db, vid, archiveId).Done?
    requires archiveId in db.archive ==>
               db.archive[archiveId].diskInstance != diskInstance || db.archive[archiveId].diskFileId != diskFileId
    requires UpdateDiskFileId(DeleteCopy(db, vid, archiveId).db, archiveId, diskInstance, diskFileId).Done?
    ensures p in db.tapeFiles && p.vid == vid && db.tapeFiles[p].archiveId == archiveId && archiveId in db.archive
    ensures var db1 := Apply(on, db, RemoveCopy(vid, archiveId));
            var db2 := Apply(on, db1, ChangeDiskFile(archiveId, diskInstance, diskFileId));
            var e := LogOf(p, db.tapeFiles[p], db.archive[archiveId]);
            e in db2.log && Apply(on, db2, RestoreCopies([e], now)) == db2
  {
    p := DeletedIsLogged(db, vid, archiveId);
    RemoveCopyApplies(on, db, vid, archiveId);
    DeleteCopyKeepsInv(db, vid, archiveId);
    var db1, e := Apply(on, db, RemoveCopy(vid, archiveId)), LogOf(p, db.tapeFiles[p], db.archive[archiveId]);
    ChangedIsPassedOver(on, db1, e, diskInstance, diskFileId, now);
  }

  lemma RemoveCopyApplies(on: BackEnd, db: Db, vid: string, archiveId: nat)
    requires DeleteCopy(db, vid, archiveId).Done?
    ensures Apply(on, db, RemoveCopy(vid, archiveId)) == DeleteCopy(db, vid, archiveId).db
  {
  }

  lemma ChangedIsPassedOver(on: BackEnd, db: Db, e: LogRow, diskInstance: string, diskFileId: string, now: nat)
    requires Inv(db) && e in db.log && (e.diskInstance != diskInstance || e.diskFileId != diskFileId)
    requires UpdateDiskFileId(db, e.archiveId, diskInstance, diskFileId).Done?
    ensures var db2 := Apply(on, db, ChangeDiskFile(e.archiveId, diskInstance, diskFileId));
            e in db2.log && Apply(on, db2, RestoreCopies([e], now)) == db2
  {
    UpdateDiskFileIdExact(db, e.archiveId, diskInstance, diskFileId);
    UpdateDiskFileIdKeepsInv(db, e.archiveId, diskInstance, diskFileId);
    PassedOverStays(on, UpdateDiskFileId(db, e.archiveId, diskInstance, diskFileId).db, e, now);
  }

  lemma PassedOverStays(on: BackEnd, db: Db, e: LogRow, now: nat)
    requires Inv(db) && e in db.log && e.archiveId in db.archive
    requires var file := db.archive[e.archiveId];
             file.diskInstance != e.diskInstance || file.diskFileId != e.diskFileId
    ensures Apply(on, db, RestoreCopies([e], now)) == db
  {
    var es := [e];
    assert es[0] == e && es[1..] == [];
    RestoreOneCases(db, e, now);
    RestoreAllStep(db, es, now);
    assert RestoreAll(db, es, now).db == db;
    UndisturbedKeepsInvExactly(db, es, now, on.NoFault());
  }

  /** Restoring an entry keeps sizes in agreement exactly when the entry is passed over or its
      archive file still has the logged size. */
  lemma RestoreSizesExact(db: Db, e: LogRow, now: nat)
    requires SizesAgree(db.archive, db.tapeFiles) && RestoreOne(db, e, now).Done?
    ensures SizesAgree(RestoreOne(db, e, now).db.archive, RestoreOne(db, e, now).db.tapeFiles) <==>
            (Findable(db, e) ==> db.archive[e.archiveId].size == e.size)
  {
    if Findable(db, e) {
      var db' := RestoreOne(db, e, now).db;
      assert db'.tapeFiles[e.pos] == RestoredRow(e, now);
    }
  }

  const ONE_COPY := Db(map["V" := Tape(1, 5, "d")], map[1 := ArchiveRow("i", "f", 1, 1, 5, map[], "c")],
                       map[Pos("V", 1) := TapeRow(1, 5, 1, 0, 1)], multiset{}, {"c"})

  /** A request whose snapshot was taken before the copy was written loses its position. */
  lemma StaleSnapshotLosesPosition()
    ensures var req := DeleteRequest(1, "i", "/path", Some(Snapshot(1, "i", [])));
            && Inv(ONE_COPY) && DeleteFile(ONE_COPY, req).Done?
            && Pos("V", 1) in Held(ONE_COPY) && Pos("V", 1) !in Held(DeleteFile(ONE_COPY, req).db)
  {
    var req := DeleteRequest(1, "i", "/path", Some(Snapshot(1, "i", [])));
    assert Pos("V", 1) in ONE_COPY.tapeFiles;
    assert SnapshotRows(ONE_COPY.archive, req.file.value) == [];
    var db' := DeleteFile(ONE_COPY, req).db;
    assert Pos("V", 1) in CopiesOf(ONE_COPY.tapeFiles, 1);
  }

  /** Archive file 1 of size 5 has been deleted, its copy 1 is logged; an event uses the
      identifier again for a file of size 9 and copy 2. */
  const LOGGED := LogRow(Pos("V", 1), 1, 1, 0, 1, "i", "f", 5)
  const DELETED_FILE := Db(map["V" := Tape(1, 5, "d")], map[], map[], multiset{LOGGED}, {"c"})
  const REUSING: FileEvent := File("V", 2, "d", 1, "i", "f", 1, 1, 9, map[1 := "x"], "c", 2, 2)
  const REUSED_ID := Db(map["V" := Tape(2, 14, "d")], map[1 := ArchiveRowOf(REUSING)],
                        map[Pos("V", 2) := TapeRowOf(REUSING, 0)], multiset{LOGGED}, {"c"})

  lemma ReuseIsAccepted(b: Batch)
    requires b == [REUSING]
    ensures Inv(DELETED_FILE) && WriteSetWise(DELETED_FILE, b, 0) == Done(REUSED_ID)
  {
    var db := DELETED_FILE;
    assert FileFieldsSet(REUSING) by { assert 1 in REUSING.checksum; }
    HeaderExact(db, b, true);
    var fs: seq<FileEvent> := [REUSING];
    assert b[1..] == [] && fs[1..] == [];
    assert Files(b) == fs && TotalBytes(fs) == 9;
    var db1 := UpdateTape(db, b);
    assert db1 == db.(tapes := map["V" := Tape(2, 14, "d")]);
    InsertOneArchiveRow(db1.archive, db1.storageClasses, REUSING);
    OneBatchRow(REUSING, 0);
    RecordExact(db1, fs, 0);
    assert Displaced(db1.tapeFiles, fs) == {};
    assert LogRows(REUSED_ID.archive, db1.tapeFiles, {}) == {};
    assert db1.log + multiset({}) == db1.log;
  }

  /** Restoring the old copy then gives the archive file copies of two sizes. */
  lemma ReusedIdBreaksSizes(now: nat)
    ensures var b: Batch := [REUSING];
            && Inv(DELETED_FILE) && Apply(PostgreSQL, DELETED_FILE, WriteBatch(b, 0, 0, DELETED_FILE)) == REUSED_ID
            && SizesAgree(REUSED_ID.archive, REUSED_ID.tapeFiles)
            && var o := RestoreOne(REUSED_ID, LOGGED, now);
            o.Done? && !SizesAgree(o.db.archive, o.db.tapeFiles)
  {
    var b: Batch := [REUSING];
    ReuseIsAccepted(b);
    assert Pos("V", 2) in CopiesOf(REUSED_ID.tapeFiles, 1);
    assert Findable(REUSED_ID, LOGGED);
    InsertOneExact(REUSED_ID.tapeFiles, LOGGED.pos, RestoredRow(LOGGED, now));
    RestoreSizesExact(REUSED_ID, LOGGED, now);
  }
}

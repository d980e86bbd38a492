/** Restoring copies from the recycle log, entry by entry. */
module Restore {
  import opened Options
  import opened Tables
  import opened Recycle

  /** The query made before restoring returns the archive file: same identifier, disk instance
      and disk file identifier, and at least one live copy. */
  predicate Findable(db: Db, e: LogRow) {
    && e.archiveId in db.archive
    && db.archive[e.archiveId].diskInstance == e.diskInstance
    && db.archive[e.archiveId].diskFileId == e.diskFileId
    && CopiesOf(db.tapeFiles, e.archiveId) != {}
  }

  predicate CopyLive(tapeFiles: map<Pos, TapeRow>, archiveId: nat, copyNb: nat) {
    exists p :: p in tapeFiles && tapeFiles[p].archiveId == archiveId && tapeFiles[p].copyNb == copyNb
  }

  predicate BlockLive(tapeFiles: map<Pos, TapeRow>, vid: string, blockId: nat) {
    exists p :: p in tapeFiles && p.vid == vid && tapeFiles[p].blockId == blockId
  }

  /** insertTapeFile stamps the row with the current time, not with the logged one. */
  function RestoredRow(e: LogRow, now: nat): TapeRow {
    TapeRow(e.blockId, e.size, e.copyNb, now, e.archiveId)
  }

  /** The key by which a restored entry is deleted from the log. */
  predicate MatchesEntry(r: LogRow, e: LogRow) {
    r.archiveId == e.archiveId && r.pos == e.pos && r.copyNb == e.copyNb && r.diskInstance == e.diskInstance
  }

  ghost function Purge(log: multiset<LogRow>, rows: set<LogRow>): (m: multiset<LogRow>)
    ensures forall r :: m[r] == if r in rows then 0 else log[r]
  {
    if rows == {} then log
    else
      var r :| r in rows;
      Purge(log, rows - {r})[r := 0]
  }

  ghost function WithoutEntry(log: multiset<LogRow>, e: LogRow): (m: multiset<LogRow>)
    ensures forall r :: m[r] == if && r.archiveId == e.archiveId && r.pos.vid == e.pos.vid && r.pos.fSeq == e.pos.fSeq
                                   && r.copyNb == e.copyNb && r.diskInstance == e.diskInstance then 0 else log[r]
  {
    Purge(log, set r | r in log && MatchesEntry(r, e))
  }

  /** One turn of restoreFileCopiesInRecycleLog.  An entry whose archive file is gone is an
      error; one whose archive file has another disk identity is passed over. */
  ghost function RestoreOne(db: Db, e: LogRow, now: nat): Outcome {
    if e.archiveId !in db.archive then Refused(NoSuchFile)
    else if !Findable(db, e) then Done(db)
    else if CopyLive(db.tapeFiles, e.archiveId, e.copyNb) then Refused(CopyExists)
    else if e.pos.vid !in db.tapes || !Insertable(db.tapeFiles, map[e.pos := RestoredRow(e, now)])
    then Refused(ConstraintViolated)
    else Done(db.(tapeFiles := db.tapeFiles[e.pos := RestoredRow(e, now)], log := WithoutEntry(db.log, e)))
  }

  datatype RestoreResult = RestoreResult(db: Db, error: Option<Error>)

  /** Entries before the first failing one stay restored. */
  ghost function RestoreAll(db: Db, es: seq<LogRow>, now: nat): RestoreResult
    decreases |es|
  {
    if es == [] then RestoreResult(db, None)
    else
      var first := RestoreOne(db, es[0], now);
      if first.Refused? then RestoreResult(db, Some(first.error)) else RestoreAll(first.db, es[1..], now)
  }

  /** In a log that holds every position once, the deletion key picks out the entry. */
  lemma WithoutEntryExact(tapeFiles: map<Pos, TapeRow>, log: multiset<LogRow>, e: LogRow)
    requires HeldOnce(tapeFiles, log) && e in log
    ensures WithoutEntry(log, e) == log - multiset{e}
  {
    assert (set r | r in log && MatchesEntry(r, e)) == {e};
  }

  predicate IsRestored(db: Db, db': Db, e: LogRow, now: nat) {
    db' == db.(tapeFiles := db.tapeFiles[e.pos := RestoredRow(e, now)], log := db.log - multiset{e})
  }

  /** The three ways one entry can go. */
  lemma RestoreOneExact(db: Db, e: LogRow, now: nat)
    requires Inv(db) && e in db.log
    ensures RestoreOne(db, e, now).Done? <==>
            && e.archiveId in db.archive
            && (Findable(db, e) ==>
                !CopyLive(db.tapeFiles, e.archiveId, e.copyNb) && !BlockLive(db.tapeFiles, e.pos.vid, e.blockId))
    ensures RestoreOne(db, e, now).Done? ==>
              if Findable(db, e) then IsRestored(db, RestoreOne(db, e, now).db, e, now)
              else RestoreOne(db, e, now).db == db
  {
    WithoutEntryExact(db.tapeFiles, db.log, e);
    InsertOneExact(db.tapeFiles, e.pos, RestoredRow(e, now));
  }

  /** Which way it is, told by the columns of the entry and of the tables. */
  lemma RestoreOneCases(db: Db, e: LogRow, now: nat)
    requires Inv(db) && e in db.log
    ensures RestoreOne(db, e, now) == Refused(NoSuchFile) <==> e.archiveId !in db.archive
    ensures e.archiveId in db.archive ==>
              var file := db.archive[e.archiveId];
              var found := && file.diskInstance == e.diskInstance && file.diskFileId == e.diskFileId
                           && exists p :: p in db.tapeFiles && db.tapeFiles[p].archiveId == e.archiveId;
              var copyLive := exists p :: && p in db.tapeFiles && db.tapeFiles[p].archiveId == e.archiveId
                                          && db.tapeFiles[p].copyNb == e.copyNb;
              var blockLive := exists p :: && p in db.tapeFiles && p.vid == e.pos.vid
                                           && db.tapeFiles[p].blockId == e.blockId;
              && (RestoreOne(db, e, now) == Done(db) <==> !found)
              && (RestoreOne(db, e, now) == Refused(CopyExists) <==> found && copyLive)
              && (RestoreOne(db, e, now) == Refused(ConstraintViolated) <==> found && !copyLive && blockLive)
  {
    RestoreOneExact(db, e, now);
    InsertOneExact(db.tapeFiles, e.pos, RestoredRow(e, now));
    assert (exists p :: p in db.tapeFiles && db.tapeFiles[p].archiveId == e.archiveId) <==>
           CopiesOf(db.tapeFiles, e.archiveId) != {} by {
      if p :| p in db.tapeFiles && db.tapeFiles[p].archiveId == e.archiveId {
        assert p in CopiesOf(db.tapeFiles, e.archiveId);
      }
    }
    if RestoreOne(db, e, now).Done? && Findable(db, e) { assert e.pos in RestoreOne(db, e, now).db.tapeFiles; }
  }

  lemma InsertOneExact(tapeFiles: map<Pos, TapeRow>, q: Pos, row: TapeRow)
    requires UniqueBlocks(tapeFiles) && q !in tapeFiles
    ensures Insertable(tapeFiles, map[q := row]) <==> !BlockLive(tapeFiles, q.vid, row.blockId)
  {
    var after := tapeFiles + map[q := row];
    if BlockLive(tapeFiles, q.vid, row.blockId) {
      var p :| p in tapeFiles && p.vid == q.vid && tapeFiles[p].blockId == row.blockId;
      assert SameBlock(p, after[p], q, after[q]);
    } else {
      forall p, p' | p in after && p' in after && SameBlock(p, after[p], p', after[p']) ensures p == p' {
        if p in tapeFiles && p' in tapeFiles { assert SameBlock(p, tapeFiles[p], p', tapeFiles[p']); }
      }
    }
  }

  lemma RestoredConserves(db: Db, db': Db, e: LogRow, now: nat)
    requires HeldOnce(db.tapeFiles, db.log) && e in db.log && IsRestored(db, db', e, now)
    ensures HeldOnce(db'.tapeFiles, db'.log) && Held(db') == Held(db)
  {
    forall r | r in db'.log ensures db'.log[r] == 1 && r.pos !in db'.tapeFiles {
      assert r in db.log && r != e;
    }
    forall p | p in Held(db) ensures p in Held(db') {
      if p !in db.tapeFiles && p != e.pos {
        var r :| r in db.log && r.pos == p;
        assert r in db'.log;
      }
    }
    forall p | p in Held(db') ensures p in Held(db) {
      if p !in db'.tapeFiles {
        var r :| r in db'.log && r.pos == p;
        assert r in db.log;
      } else if p == e.pos {
        assert e in db.log;
      }
    }
  }

  /** Restoring one entry keeps the invariant; the size agrees because the log's does. */
  lemma RestoreOneKeepsInv(db: Db, e: LogRow, now: nat)
    requires Inv(db) && e in db.log && RestoreOne(db, e, now).Done?
    ensures Inv(RestoreOne(db, e, now).db) && Held(RestoreOne(db, e, now).db) == Held(db)
  {
    RestoreOneExact(db, e, now);
    var db' := RestoreOne(db, e, now).db;
    if Findable(db, e) {
      RestoredConserves(db, db', e, now);
      RestoredKeeps(db, db', e, now);
    }
  }

  lemma AddKeepsOneCopy(tapeFiles: map<Pos, TapeRow>, q: Pos, row: TapeRow)
    requires OneCopy(tapeFiles) && q !in tapeFiles && !CopyLive(tapeFiles, row.archiveId, row.copyNb)
    ensures OneCopy(tapeFiles[q := row])
  {
    var after := tapeFiles[q := row];
    forall p, p' | p in after && p' in after && SameCopy(after[p], after[p']) ensures p == p' {
      if p in tapeFiles && p' in tapeFiles { assert SameCopy(tapeFiles[p], tapeFiles[p']); }
    }
  }

  lemma RestoredSizes(db: Db, db': Db, e: LogRow, now: nat)
    requires InRange(db) && SizesAgree(db.archive, db.tapeFiles) && LogSizesAgree(db.archive, db.log)
    requires e in db.log && IsRestored(db, db', e, now) && e.archiveId in db.archive
    ensures InRange(db') && SizesAgree(db'.archive, db'.tapeFiles) && LogSizesAgree(db'.archive, db'.log)
  {
    assert forall r :: r in db'.log ==> r in db.log;
  }

  lemma RestoredBlocks(tapeFiles: map<Pos, TapeRow>, e: LogRow, now: nat)
    requires OneCopy(tapeFiles) && UniqueBlocks(tapeFiles) && e.pos !in tapeFiles
    requires !CopyLive(tapeFiles, e.archiveId, e.copyNb) && !BlockLive(tapeFiles, e.pos.vid, e.blockId)
    ensures OneCopy(tapeFiles[e.pos := RestoredRow(e, now)]) && UniqueBlocks(tapeFiles[e.pos := RestoredRow(e, now)])
  {
    var row := RestoredRow(e, now);
    assert tapeFiles[e.pos := row] == tapeFiles + map[e.pos := row];
    InsertOneExact(tapeFiles, e.pos, row);
    AddKeepsOneCopy(tapeFiles, e.pos, row);
  }

  lemma RestoredKeeps(db: Db, db': Db, e: LogRow, now: nat)
    requires Inv(db) && e in db.log && IsRestored(db, db', e, now) && e.archiveId in db.archive
    requires !CopyLive(db.tapeFiles, e.archiveId, e.copyNb) && !BlockLive(db.tapeFiles, e.pos.vid, e.blockId)
    ensures InRange(db') && OneCopy(db'.tapeFiles) && UniqueBlocks(db'.tapeFiles)
    ensures SizesAgree(db'.archive, db'.tapeFiles) && LogSizesAgree(db'.archive, db'.log)
  {
    RestoredBlocks(db.tapeFiles, e, now);
    RestoredSizes(db, db', e, now);
  }

  // Lists of entries

  /** The entry's copy number or its block is taken by a live copy. */
  predicate Blocked(tapeFiles: map<Pos, TapeRow>, e: LogRow) {
    CopyLive(tapeFiles, e.archiveId, e.copyNb) || BlockLive(tapeFiles, e.pos.vid, e.blockId)
  }

  predicate Clashes(e: LogRow, f: LogRow) {
    || (e.archiveId == f.archiveId && e.copyNb == f.copyNb)
    || (e.pos.vid == f.pos.vid && e.blockId == f.blockId)
  }

  /** Every archive file exists, and no entry that would be restored meets a live copy or an
      earlier such entry of the list. */
  predicate Clear(db: Db, es: seq<LogRow>) {
    && (forall k :: 0 <= k < |es| ==> es[k].archiveId in db.archive)
    && (forall k :: 0 <= k < |es| && Findable(db, es[k]) ==> !Blocked(db.tapeFiles, es[k]))
    && (forall j, k :: 0 <= j < k < |es| && Findable(db, es[j]) && Findable(db, es[k]) ==> !Clashes(es[j], es[k]))
  }

  /** The entries that are restored, the others being passed over. */
  function Restorable(db: Db, es: seq<LogRow>): seq<LogRow> {
    if es == [] then []
    else if Findable(db, es[0]) then [es[0]] + Restorable(db, es[1..])
    else Restorable(db, es[1..])
  }

  function RestoredRows(es: seq<LogRow>, now: nat): map<Pos, TapeRow> {
    if es == [] then map[]
    else map[es[0].pos := RestoredRow(es[0], now)] + RestoredRows(es[1..], now)
  }

  /** Whether an entry is findable does not change while others are restored. */
  lemma FindableStable(db: Db, db1: Db, e: LogRow, now: nat)
    requires Findable(db, e) && e.pos !in db.tapeFiles && IsRestored(db, db1, e, now)
    ensures forall f :: Findable(db1, f) <==> Findable(db, f)
  {
    forall f: LogRow ensures Findable(db1, f) <==> Findable(db, f) {
      var before, after := CopiesOf(db.tapeFiles, f.archiveId), CopiesOf(db1.tapeFiles, f.archiveId);
      assert forall p :: p in before ==> p in after;
      assert forall p :: p in after ==> p in before || f.archiveId == e.archiveId;
      if before == {} && f.archiveId != e.archiveId { assert after == {}; }
    }
  }

  lemma BlockedAfter(db: Db, db1: Db, e: LogRow, now: nat)
    requires e.pos !in db.tapeFiles && IsRestored(db, db1, e, now)
    ensures forall f :: Blocked(db1.tapeFiles, f) <==> Blocked(db.tapeFiles, f) || Clashes(e, f)
  {
    forall f: LogRow ensures Blocked(db1.tapeFiles, f) <==> Blocked(db.tapeFiles, f) || Clashes(e, f) {
      assert db1.tapeFiles[e.pos] == RestoredRow(e, now);
      assert forall p :: p in db.tapeFiles ==> p in db1.tapeFiles && db1.tapeFiles[p] == db.tapeFiles[p];
    }
  }

  lemma ClearStep(db: Db, es: seq<LogRow>, now: nat)
    requires Inv(db) && es != [] && es[0] in db.log
    ensures Clear(db, es) <==>
            RestoreOne(db, es[0], now).Done? && Clear(RestoreOne(db, es[0], now).db, es[1..])
  {
    var e := es[0];
    RestoreOneExact(db, e, now);
    assert forall k :: 0 < k < |es| ==> es[k] == es[1..][k - 1];
    assert forall k :: 0 <= k < |es[1..]| ==> es[1..][k] == es[k + 1];
    if RestoreOne(db, e, now).Done? {
      var db1 := RestoreOne(db, e, now).db;
      if Findable(db, e) {
        FindableStable(db, db1, e, now);
        BlockedAfter(db, db1, e, now);
        ClearAfter(db, db1, es);
      } else {
        ClearPassed(db, es);
      }
    }
  }

  lemma ClearAfter(db: Db, db1: Db, es: seq<LogRow>)
    requires es != [] && Findable(db, es[0]) && !Blocked(db.tapeFiles, es[0]) && db1.archive == db.archive
    requires forall f :: Findable(db1, f) <==> Findable(db, f)
    requires forall f :: Blocked(db1.tapeFiles, f) <==> Blocked(db.tapeFiles, f) || Clashes(es[0], f)
    ensures Clear(db, es) <==> Clear(db1, es[1..])
  {
    assert forall k :: 0 <= k < |es[1..]| ==> es[1..][k] == es[k + 1];
    if Clear(db1, es[1..]) {
      forall k | 0 <= k < |es|
        ensures es[k].archiveId in db.archive && (Findable(db, es[k]) ==> !Blocked(db.tapeFiles, es[k]))
      {
        if k > 0 { assert es[k] == es[1..][k - 1]; }
      }
      forall j, k | 0 <= j < k < |es| && Findable(db, es[j]) && Findable(db, es[k]) ensures !Clashes(es[j], es[k]) {
        assert es[k] == es[1..][k - 1];
        if j > 0 { assert es[j] == es[1..][j - 1]; }
      }
    }
  }

  lemma ClearPassed(db: Db, es: seq<LogRow>)
    requires es != [] && !Findable(db, es[0]) && es[0].archiveId in db.archive
    ensures Clear(db, es) <==> Clear(db, es[1..])
  {
    assert forall k :: 0 <= k < |es[1..]| ==> es[1..][k] == es[k + 1];
    if Clear(db, es[1..]) {
      forall k | 0 <= k < |es|
        ensures es[k].archiveId in db.archive && (Findable(db, es[k]) ==> !Blocked(db.tapeFiles, es[k]))
      {
        if k > 0 { assert es[k] == es[1..][k - 1]; }
      }
      forall j, k | 0 <= j < k < |es| && Findable(db, es[j]) && Findable(db, es[k]) ensures !Clashes(es[j], es[k]) {
        assert es[k] == es[1..][k - 1] && es[j] == es[1..][j - 1];
      }
    }
  }

  /** The rest of the list is still in the log after its first entry has been dealt with. */
  lemma RestStaysLogged(db: Db, es: seq<LogRow>, now: nat)
    requires Inv(db) && es != [] && multiset(es) <= db.log && RestoreOne(db, es[0], now).Done?
    ensures es[0] in db.log && multiset(es[1..]) <= RestoreOne(db, es[0], now).db.log
  {
    assert es == [es[0]] + es[1..];
    RestoreOneExact(db, es[0], now);
  }

  lemma RestoreAllStep(db: Db, es: seq<LogRow>, now: nat)
    requires es != []
    ensures RestoreOne(db, es[0], now).Done? ==>
              && RestoreAll(db, es, now) == RestoreAll(RestoreOne(db, es[0], now).db, es[1..], now)
              && RestoreOne(db, es[0], now).db.tapes == db.tapes
              && RestoreOne(db, es[0], now).db.archive == db.archive
    ensures RestoreOne(db, es[0], now).Refused? ==>
              RestoreAll(db, es, now) == RestoreResult(db, Some(RestoreOne(db, es[0], now).error))
  {
  }

  /** Restoring a list keeps the invariant whether it runs to the end or stops on the way. */
  lemma {:induction false} RestoreAllKeepsInv(db: Db, es: seq<LogRow>, now: nat)
    requires Inv(db) && multiset(es) <= db.log
    ensures Inv(RestoreAll(db, es, now).db) && Held(RestoreAll(db, es, now).db) == Held(db)
    ensures RestoreAll(db, es, now).db.tapes == db.tapes && RestoreAll(db, es, now).db.archive == db.archive
    decreases |es|
  {
    if es != [] {
      RestoreAllStep(db, es, now);
      var first := RestoreOne(db, es[0], now);
      if first.Done? {
        RestStaysLogged(db, es, now);
        RestoreOneKeepsInv(db, es[0], now);
        RestoreAllKeepsInv(first.db, es[1..], now);
      }
    }
  }

  /** A list of log entries can be restored exactly when it is clear. */
  lemma {:induction false} RestoreAllExact(db: Db, es: seq<LogRow>, now: nat)
    requires Inv(db) && multiset(es) <= db.log
    ensures RestoreAll(db, es, now).error.None? <==> Clear(db, es)
    decreases |es|
  {
    if es != [] {
      assert es == [es[0]] + es[1..];
      ClearStep(db, es, now);
      if RestoreOne(db, es[0], now).Done? {
        RestStaysLogged(db, es, now);
        RestoreOneKeepsInv(db, es[0], now);
        RestoreAllExact(RestoreOne(db, es[0], now).db, es[1..], now);
      }
    }
  }

  lemma RestorableStable(db: Db, db1: Db, es: seq<LogRow>)
    requires forall f :: Findable(db1, f) <==> Findable(db, f)
    ensures Restorable(db1, es) == Restorable(db, es)
  {
  }

  /** A successful restore moves precisely the restorable entries from the log to TAPE_FILE,
      displaces no live copy, and brings back no archive file. */
  lemma {:induction false} RestoreAllMoves(db: Db, es: seq<LogRow>, now: nat)
    requires Inv(db) && multiset(es) <= db.log && RestoreAll(db, es, now).error.None?
    ensures RestoreAll(db, es, now).db ==
            db.(tapeFiles := db.tapeFiles + RestoredRows(Restorable(db, es), now),
                log := db.log - multiset(Restorable(db, es)))
    decreases |es|
  {
    if es == [] {
      assert db.tapeFiles + map[] == db.tapeFiles;
      assert db.log - multiset([]) == db.log;
    } else {
      var e := es[0];
      RestoreAllStep(db, es, now);
      RestStaysLogged(db, es, now);
      RestoreOneKeepsInv(db, e, now);
      RestoreOneExact(db, e, now);
      var db1 := RestoreOne(db, e, now).db;
      RestoreAllMoves(db1, es[1..], now);
      if Findable(db, e) {
        FindableStable(db, db1, e, now);
        RestorableStable(db, db1, es[1..]);
        MovesCompose(db, db1, e, Restorable(db, es[1..]), now);
      }
    }
  }

  lemma AddThenMerge(tapeFiles: map<Pos, TapeRow>, rows: map<Pos, TapeRow>, q: Pos, row: TapeRow)
    ensures tapeFiles[q := row] + rows == tapeFiles + (map[q := row] + rows)
  {
  }

  lemma TakeOneThenRest(log: multiset<LogRow>, e: LogRow, rest: seq<LogRow>)
    ensures log - multiset{e} - multiset(rest) == log - multiset([e] + rest)
  {
    assert multiset([e] + rest) == multiset{e} + multiset(rest);
  }

  lemma MovesCompose(db: Db, db1: Db, e: LogRow, rest: seq<LogRow>, now: nat)
    requires IsRestored(db, db1, e, now)
    ensures db1.(tapeFiles := db1.tapeFiles + RestoredRows(rest, now), log := db1.log - multiset(rest))
            == db.(tapeFiles := db.tapeFiles + RestoredRows([e] + rest, now), log := db.log - multiset([e] + rest))
  {
    assert ([e] + rest)[1..] == rest;
    AddThenMerge(db.tapeFiles, RestoredRows(rest, now), e.pos, RestoredRow(e, now));
    TakeOneThenRest(db.log, e, rest);
  }

  /** Deleting one copy and restoring its log entry gives the catalogue back, except that the
      copy's creation time is now that of the restoration. */
  lemma DeleteThenRestore(db: Db, vid: string, archiveId: nat, now: nat) returns (p: Pos, e: LogRow)
    requires Inv(db) && DeleteCopy(db, vid, archiveId).Done?
    ensures p in db.tapeFiles && p.vid == vid && db.tapeFiles[p].archiveId == archiveId
    ensures var deleted := DeleteCopy(db, vid, archiveId).db;
            && deleted.log == db.log + multiset{e}
            && RestoreAll(deleted, [e], now).error.None?
            && RestoreAll(deleted, [e], now).db ==
               db.(tapeFiles := db.tapeFiles[p := db.tapeFiles[p].(created := now)])
  {
    p := DeletedCopy(db, vid, archiveId);
    DeleteCopyKeepsInv(db, vid, archiveId);
    e := LogOf(p, db.tapeFiles[p], db.archive[archiveId]);
    MovedIsRestored(db, p, e, now);
  }

  lemma MovedIsRestored(db: Db, p: Pos, e: LogRow, now: nat)
    requires Inv(db) && p in db.tapeFiles && db.tapeFiles[p].archiveId in db.archive
    requires exists q :: q in db.tapeFiles && q != p && db.tapeFiles[q].archiveId == db.tapeFiles[p].archiveId
    requires e == LogOf(p, db.tapeFiles[p], db.archive[db.tapeFiles[p].archiveId])
    requires Inv(MoveToLog(db, {p}))
    ensures var deleted := MoveToLog(db, {p});
            && deleted.log == db.log + multiset{e}
            && RestoreAll(deleted, [e], now) ==
               RestoreResult(db.(tapeFiles := db.tapeFiles[p := db.tapeFiles[p].(created := now)]), None)
  {
    var deleted := MoveToLog(db, {p});
    MovedLog(db, p, e);
    RestoreOfMoved(db, deleted, p, e, now);
  }

  lemma RestoreOfMoved(db: Db, deleted: Db, p: Pos, e: LogRow, now: nat)
    requires Inv(db) && Inv(deleted) && p in db.tapeFiles && db.tapeFiles[p].archiveId in db.archive
    requires exists q :: q in db.tapeFiles && q != p && db.tapeFiles[q].archiveId == db.tapeFiles[p].archiveId
    requires e == LogOf(p, db.tapeFiles[p], db.archive[db.tapeFiles[p].archiveId])
    requires deleted == db.(log := db.log + multiset{e}, tapeFiles := db.tapeFiles - {p})
    ensures RestoreAll(deleted, [e], now) ==
            RestoreResult(db.(tapeFiles := db.tapeFiles[p := db.tapeFiles[p].(created := now)]), None)
  {
    DeletedIsRestorable(db, deleted, p, e);
    RestoreOneExact(deleted, e, now);
    var back := RestoreOne(deleted, e, now).db;
    MovedBack(db, deleted, back, p, e, now);
    RestoreSingle(deleted, e, now);
  }

  lemma MovedLog(db: Db, p: Pos, e: LogRow)
    requires p in db.tapeFiles && db.tapeFiles[p].archiveId in db.archive
    requires e == LogOf(p, db.tapeFiles[p], db.archive[db.tapeFiles[p].archiveId])
    ensures MoveToLog(db, {p}) == db.(log := db.log + multiset{e}, tapeFiles := db.tapeFiles - {p})
  {
    assert LogRows(db.archive, db.tapeFiles, {p}) == {e};
  }

  lemma MovedBack(db: Db, deleted: Db, back: Db, p: Pos, e: LogRow, now: nat)
    requires p in db.tapeFiles && e.pos == p && RestoredRow(e, now) == db.tapeFiles[p].(created := now)
    requires deleted == db.(log := db.log + multiset{e}, tapeFiles := db.tapeFiles - {p})
    requires IsRestored(deleted, back, e, now)
    ensures back == db.(tapeFiles := db.tapeFiles[p := db.tapeFiles[p].(created := now)])
  {
    assert back.log == db.log;
    assert back.tapeFiles == db.tapeFiles[p := db.tapeFiles[p].(created := now)];
  }

  lemma RestoreNothing(db: Db, now: nat)
    ensures RestoreAll(db, [], now) == RestoreResult(db, None)
  {
  }

  lemma DeletedIsRestorable(db: Db, deleted: Db, p: Pos, e: LogRow)
    requires Inv(db) && p in db.tapeFiles && db.tapeFiles[p].archiveId in db.archive
    requires exists q :: q in db.tapeFiles && q != p && db.tapeFiles[q].archiveId == db.tapeFiles[p].archiveId
    requires e == LogOf(p, db.tapeFiles[p], db.archive[db.tapeFiles[p].archiveId])
    requires deleted.archive == db.archive && deleted.tapeFiles == db.tapeFiles - {p}
    ensures Findable(deleted, e) && !Blocked(deleted.tapeFiles, e) && e.size == db.tapeFiles[p].size
  {
    var q :| q in db.tapeFiles && q != p && db.tapeFiles[q].archiveId == db.tapeFiles[p].archiveId;
    assert q in CopiesOf(deleted.tapeFiles, e.archiveId);
    forall r | r in deleted.tapeFiles
      ensures !SameCopy(db.tapeFiles[r], db.tapeFiles[p]) && !SameBlock(r, db.tapeFiles[r], p, db.tapeFiles[p])
    {
    }
  }

  // Prefixes of a list of entries

  lemma {:induction false} RestoreAllAppend(db: Db, es: seq<LogRow>, e: LogRow, now: nat)
    requires RestoreAll(db, es, now).error.None?
    ensures RestoreAll(db, es + [e], now) == RestoreAll(RestoreAll(db, es, now).db, [e], now)
    decreases |es|
  {
    if es == [] {
      assert [] + [e] == [e];
    } else {
      RestoreAllStep(db, es, now);
      RestoreAllStep(db, es + [e], now);
      assert (es + [e])[0] == es[0] && (es + [e])[1..] == es[1..] + [e];
      RestoreAllAppend(RestoreOne(db, es[0], now).db, es[1..], e, now);
    }
  }

  lemma RestoreSingle(db: Db, e: LogRow, now: nat)
    ensures RestoreAll(db, [e], now) ==
            if RestoreOne(db, e, now).Done? then RestoreResult(RestoreOne(db, e, now).db, None)
            else RestoreResult(db, Some(RestoreOne(db, e, now).error))
  {
    RestoreAllStep(db, [e], now);
    assert [e][1..] == [];
    if RestoreOne(db, e, now).Done? { RestoreNothing(RestoreOne(db, e, now).db, now); }
  }

  /** Once an entry fails, the rest of the list does not matter. */
  lemma {:induction false} RestoreStops(db: Db, es: seq<LogRow>, rest: seq<LogRow>, now: nat)
    requires RestoreAll(db, es, now).error.Some?
    ensures RestoreAll(db, es + rest, now) == RestoreAll(db, es, now)
    decreases |es|
  {
    RestoreAllStep(db, es, now);
    RestoreAllStep(db, es + rest, now);
    assert (es + rest)[0] == es[0] && (es + rest)[1..] == es[1..] + rest;
    if RestoreOne(db, es[0], now).Done? {
      RestoreStops(RestoreOne(db, es[0], now).db, es[1..], rest, now);
    }
  }

  lemma {:induction false} RestorableIsPart(db: Db, es: seq<LogRow>)
    ensures multiset(Restorable(db, es)) <= multiset(es)
  {
    if es != [] {
      RestorableIsPart(db, es[1..]);
      assert es == [es[0]] + es[1..];
    }
  }

  /** The entries not yet reached are still in the log. */
  lemma RestStillLogged(db: Db, es: seq<LogRow>, k: nat, now: nat)
    requires Inv(db) && multiset(es) <= db.log && k <= |es| && RestoreAll(db, es[..k], now).error.None?
    ensures Inv(RestoreAll(db, es[..k], now).db) && multiset(es[k..]) <= RestoreAll(db, es[..k], now).db.log
  {
    assert es == es[..k] + es[k..];
    RestoreAllKeepsInv(db, es[..k], now);
    RestoreAllMoves(db, es[..k], now);
    RestorableIsPart(db, es[..k]);
  }
}

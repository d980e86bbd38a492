/** restoreFileCopiesInRecycleLog on a pooled connection, statement by statement. */
module RestoreTransaction {
  import opened Options
  import opened Tables
  import opened Recycle
  import opened Restore
  import opened Transactions
  import opened RestoreFaults
  import opened RestoreInvariant

  method PurgeRows(log: multiset<LogRow>, rows: set<LogRow>) returns (m: multiset<LogRow>)
    ensures m == Purge(log, rows)
  {
    m := log;
    var todo := rows;
    while todo != {}
      invariant todo <= rows
      invariant forall r :: m[r] == if r in rows - todo then 0 else log[r]
      decreases todo
    {
      var r :| r in todo;
      m, todo := m[r := 0], todo - {r};
    }
  }

  function FaultOf(c: Conn): Fault
    reads c
  {
    Fault(c.postgres, c.lossy, c.ackLost, c.armed, if c.armed then c.fuse else 0)
  }

  /** Between two entries: on Oracle the deletion of the last log row may not be published yet. */
  predicate BetweenEntries(c: Conn)
    reads c
  {
    && c.open && !c.aborted && c.published.(log := c.working.log) == c.working
    && if c.postgres then c.published == c.working else !c.auto
  }

  /** insertTapeFile for an entry that meets no constraint. */
  method InsertAndCommit(c: Conn, e: LogRow, now: nat) returns (ok: bool)
    requires BetweenEntries(c)
    modifies c
    ensures var f, half := old(FaultOf(c)), HalfRestored(old(c.working), e, now);
            && (ok <==> !(f.armed && f.fuse < 3))
            && (ok ==> && c.open && !c.aborted && c.auto == (old(c.auto) || c.postgres) && FaultOf(c) == f.After(3)
                       && c.working == half && c.published == half)
            && (!ok ==> c.published == if (f.fuse == 1 && old(c.auto) && f.Executed())
                                          || (f.fuse == 2 && (old(c.auto) || f.Executed()))
                                       then half else old(c.published))
  {
    ok := c.Exec(c.working);
    if ok { ok := c.Exec(c.working.(tapeFiles := c.working.tapeFiles[e.pos := RestoredRow(e, now)])); }
    if ok { ok := c.Commit(); }
    if !ok { RollBackAndGiveBack(c); }
  }

  /** deleteTapeFileCopyFromRecycleBin */
  method DeleteLogRow(c: Conn, e: LogRow) returns (ok: bool)
    requires c.open && !c.aborted && c.auto == c.postgres && c.working == c.published
    modifies c
    ensures var f, deleted := old(FaultOf(c)), old(c.working).(log := WithoutEntry(old(c.working.log), e));
            && (ok <==> !f.Now())
            && (ok ==> && BetweenEntries(c) && FaultOf(c) == f.After(1) && c.auto == c.postgres
                       && c.working == deleted && c.published == if f.postgres then deleted else old(c.published))
            && (!ok ==> c.published == if f.postgres && f.Executed() then deleted else old(c.published))
  {
    var log := PurgeRows(c.working.log, set r | r in c.working.log && MatchesEntry(r, e));
    ok := c.Exec(c.working.(log := log));
    if !ok { c.GiveBack(); }
  }

  /** restoreFileCopyInRecycleLog */
  method RestoreFileCopy(c: Conn, e: LogRow, now: nat, ghost restored: Db) returns (ok: bool)
    requires BetweenEntries(c)
    requires restored == HalfRestored(c.working, e, now).(log := WithoutEntry(c.working.log, e))
    modifies c
    ensures Restoring(old(c.published), HalfRestored(old(c.working), e, now), restored, old(c.auto), old(FaultOf(c)))
            == if ok then Next(c.published, c.working) else Stop(c.published)
    ensures ok ==> BetweenEntries(c) && FaultOf(c) == old(FaultOf(c)).After(4) && c.auto == (old(c.auto) || c.postgres)
  {
    ok := InsertAndCommit(c, e, now);
    if ok { ok := DeleteLogRow(c, e); }
  }

  /** The entry's archive file has been found under its logged disk identity. */
  method RestoreFound(c: Conn, e: LogRow, now: nat) returns (more: bool)
    requires BetweenEntries(c) && Findable(c.working, e)
    modifies c
    ensures FoundTurn(old(c.published), old(c.working), old(c.auto), e, now, old(FaultOf(c)))
            == if more then Next(c.published, c.working) else Stop(c.published)
    ensures more ==> BetweenEntries(c) && FaultOf(c) == old(FaultOf(c)).After(4)
    ensures more ==> c.auto == (old(c.auto) || c.postgres)
    ensures more ==> RestoreOne(old(c.working), e, now).Done?
  {
    if CopyLive(c.published.tapeFiles, e.archiveId, e.copyNb) { c.GiveBack(); return false; }
    if e.pos.vid !in c.working.tapes || !Insertable(c.working.tapeFiles, map[e.pos := RestoredRow(e, now)]) {
      RollBackAndGiveBack(c);
      return false;
    }
    more := RestoreFileCopy(c, e, now, RestoreOne(c.working, e, now).db);
  }

  /** One turn of the loop.  `more` is false once the connection has been given back. */
  method RestoreEntry(c: Conn, e: LogRow, now: nat) returns (more: bool)
    requires BetweenEntries(c)
    modifies c
    ensures TurnOf(old(c.published), old(c.working), old(c.auto), e, now, old(FaultOf(c)))
            == if more then Next(c.published, c.working) else Stop(c.published)
    ensures more ==> BetweenEntries(c) && FaultOf(c) == old(FaultOf(c)).After(Requests(old(c.working), e))
    ensures more ==> c.auto == (old(c.auto) || (c.postgres && Findable(old(c.working), e)))
    ensures more ==> RestoreOne(old(c.working), e, now).Done?
  {
    more := c.Exec(c.working);
    if !more || e.archiveId !in c.working.archive { c.GiveBack(); return false; }
    // The archive file is looked up on another connection, which sees what is published.
    if !Findable(c.published, e) { return; }
    more := RestoreFound(c, e, now);
  }

  /** The commit after the last entry. */
  method FinishRestore(c: Conn) returns (ok: bool)
    requires BetweenEntries(c)
    modifies c
    ensures c.published == if old(FaultOf(c)).Now() && !old(FaultOf(c)).Executed() then old(c.published)
                           else old(c.working)
    ensures ok <==> !old(FaultOf(c)).Now()
  {
    if !c.postgres { c.SetAutocommit(true); }
    ok := c.Commit();
    c.GiveBack();
  }

  /** What the connection will leave behind from here on. */
  ghost predicate Leaves(c: Conn, left: Db, rest: RestoreResult, es: seq<LogRow>, now: nat)
    reads c
  {
    && BetweenEntries(c) && left == LeftAfter(c.published, c.working, c.auto, es, now, FaultOf(c))
    && rest == RestoreAll(c.working, es, now)
  }

  method RestoreNext(c: Conn, es: seq<LogRow>, i: nat, now: nat, ghost left: Db, ghost rest: RestoreResult)
    returns (more: bool)
    requires i < |es| && Leaves(c, left, rest, es[i..], now)
    modifies c
    ensures more ==> Leaves(c, left, rest, es[i + 1..], now) && c.armed == old(c.armed)
    ensures !more ==> c.published == left && (!old(c.armed) ==> rest.error.Some?)
  {
    assert es[i..][0] == es[i] && es[i..][1..] == es[i + 1..];
    LeftUnfold(c.published, c.working, c.auto, es, i, now, FaultOf(c));
    RestoreAllStep(c.working, es[i..], now);
    more := RestoreEntry(c, es[i], now);
  }

  method RestoreList(c: Conn, es: seq<LogRow>, now: nat) returns (ok: bool)
    requires c.Idle()
    modifies c
    ensures c.published == Left(old(c.published), es, now, old(FaultOf(c)))
    ensures ok ==> RestoreAll(old(c.published), es, now) == RestoreResult(c.published, None)
    ensures !old(c.armed) ==> (ok <==> RestoreAll(old(c.published), es, now).error.None?)
  {
    ghost var left := Left(c.published, es, now, FaultOf(c));
    ghost var rest := RestoreAll(c.published, es, now);
    ok := c.OpenTransaction();
    if !ok { c.GiveBack(); return; }
    assert es[0..] == es;
    for i := 0 to |es|
      invariant Leaves(c, left, rest, es[i..], now) && c.armed == old(c.armed)
    {
      ok := RestoreNext(c, es, i, now, left, rest);
      if !ok { return; }
    }
    assert es[|es|..] == [];
    RestoreNothing(c.working, now);
    ok := FinishRestore(c);
  }

  /** restoreFileCopiesInRecycleLog.  What it leaves behind is given exactly for every list and
      every fault.  Without a fault PostgreSQL stops cleanly before the failing entry, and so does
      Oracle unless a table constraint stops it after an entry has been restored: the rollback of
      the failing entry then also undoes the deletion of the previous entry's log row. */
  method RestoreFileCopies(c: Conn, es: seq<LogRow>, now: nat) returns (ok: bool, ghost k: nat)
    requires c.Idle() && Inv(c.published) && multiset(es) <= c.published.log
    modifies c
    ensures c.published == Left(old(c.published), es, now, old(FaultOf(c)))
    ensures AllOrNothing(old(c.published), es, now, c.published) <==>
            Harmless(PointOf(old(c.published), es, now, old(FaultOf(c))), Clear(old(c.published), es), old(FaultOf(c)))
    ensures k <= |es| && Reached(old(c.published), es, now, k, c.published)
    ensures ok ==> RestoreAll(old(c.published), es, now) == RestoreResult(c.published, None)
    ensures !old(c.armed) ==> (ok <==> Clear(old(c.published), es))
    ensures !old(c.armed) ==>
              CleanlyStopped(old(c.published), RestoreAll(old(c.published), es, now), c.published, c.postgres)
    ensures !old(c.armed) ==> (AllOrNothing(old(c.published), es, now, c.published) <==>
                               Clear(old(c.published), es) || RefusedFirst(old(c.published), es))
    ensures !old(c.armed) ==> (Inv(c.published) <==> c.postgres || !StoppedLate(old(c.published), es))
  {
    if !c.armed { UndisturbedKeepsInvExactly(c.published, es, now, FaultOf(c)); }
    k := LeftProperties(c.published, es, now, FaultOf(c));
    ok := RestoreList(c, es, now);
  }

  // Lists that are restored by half

  const FIRST := LogRow(Pos("V", 1), 1, 1, 0, 1, "i", "f", 5)
  const SECOND := LogRow(Pos("V", 2), 4, 1, 0, 2, "i", "g", 5)
  const TWO_LOGGED := Db(map["V" := Tape(4, 20, "d")],
                         map[1 := ArchiveRow("i", "f", 1, 1, 5, map[], "c"),
                             2 := ArchiveRow("i", "g", 1, 1, 5, map[], "c")],
                         map[Pos("V", 3) := TapeRow(3, 5, 2, 0, 1), Pos("V", 4) := TapeRow(4, 5, 2, 0, 2)],
                         multiset{FIRST, SECOND}, {"c"})

  lemma TwoLoggedHeldOnce()
    ensures InRange(TWO_LOGGED) && HeldOnce(TWO_LOGGED.tapeFiles, TWO_LOGGED.log)
  {
    assert forall r :: r in TWO_LOGGED.log <==> r == FIRST || r == SECOND;
  }

  lemma TwoLoggedAgrees()
    ensures SizesAgree(TWO_LOGGED.archive, TWO_LOGGED.tapeFiles) && LogSizesAgree(TWO_LOGGED.archive, TWO_LOGGED.log)
    ensures OneCopy(TWO_LOGGED.tapeFiles) && UniqueBlocks(TWO_LOGGED.tapeFiles) && UniqueDisk(TWO_LOGGED.archive)
  {
    assert forall r :: r in TWO_LOGGED.log <==> r == FIRST || r == SECOND;
    assert forall p :: p in TWO_LOGGED.tapeFiles <==> p == Pos("V", 3) || p == Pos("V", 4);
    assert "f"[0] != "g"[0];
  }

  lemma TwoLoggedIsValid()
    ensures Inv(TWO_LOGGED)
  {
    TwoLoggedHeldOnce();
    TwoLoggedAgrees();
  }

  lemma FirstIsClear()
    ensures Findable(TWO_LOGGED, FIRST) && 1 in TWO_LOGGED.archive && FIRST in TWO_LOGGED.log
    ensures !CopyLive(TWO_LOGGED.tapeFiles, 1, 1) && !BlockLive(TWO_LOGGED.tapeFiles, "V", 1)
  {
    assert Pos("V", 3) in CopiesOf(TWO_LOGGED.tapeFiles, 1);
  }

  lemma FirstIsRestored(now: nat)
    ensures RestoreOne(TWO_LOGGED, FIRST, now).Done?
    ensures IsRestored(TWO_LOGGED, RestoreOne(TWO_LOGGED, FIRST, now).db, FIRST, now)
  {
    TwoLoggedIsValid();
    FirstIsClear();
    RestoreOneExact(TWO_LOGGED, FIRST, now);
  }

  /** The block of the second entry is in use again. */
  lemma SecondIsBlocked(db: Db, now: nat)
    requires db.archive == TWO_LOGGED.archive && db.tapes == TWO_LOGGED.tapes
    requires db.tapeFiles == TWO_LOGGED.tapeFiles[FIRST.pos := RestoredRow(FIRST, now)]
    ensures RestoreOne(db, SECOND, now) == Refused(ConstraintViolated)
  {
    var q, row := Pos("V", 4), RestoredRow(SECOND, now);
    assert q in CopiesOf(db.tapeFiles, 2);
    assert !CopyLive(db.tapeFiles, 2, 1);
    var after := db.tapeFiles + map[SECOND.pos := row];
    assert SameBlock(q, after[q], SECOND.pos, after[SECOND.pos]);
  }

  lemma SecondEntryIsBlocked(now: nat)
    ensures Inv(TWO_LOGGED) && multiset([FIRST, SECOND]) <= TWO_LOGGED.log
    ensures RestoreAll(TWO_LOGGED, [FIRST, SECOND], now).error == Some(ConstraintViolated)
    ensures RestoreAll(TWO_LOGGED, [FIRST, SECOND], now).db != TWO_LOGGED
  {
    TwoLoggedIsValid();
    FirstIsRestored(now);
    var mid := RestoreOne(TWO_LOGGED, FIRST, now).db;
    SecondIsBlocked(mid, now);
    RestoreAllStep(TWO_LOGGED, [FIRST, SECOND], now);
    assert [FIRST, SECOND][1..] == [SECOND];
    RestoreAllStep(mid, [SECOND], now);
    assert FIRST.pos in mid.tapeFiles && FIRST.pos !in TWO_LOGGED.tapeFiles;
  }

  lemma TwoLoggedStoppedLate()
    ensures Inv(TWO_LOGGED) && multiset([FIRST, SECOND]) <= TWO_LOGGED.log && StoppedLate(TWO_LOGGED, [FIRST, SECOND])
  {
    SecondEntryIsBlocked(0);
    StoppedLateExactly(TWO_LOGGED, [FIRST, SECOND], 0);
  }

  method OracleRestorePublishesHalf(now: nat) returns (c: Conn)
    ensures !HeldOnce(c.published.tapeFiles, c.published.log)
  {
    SecondEntryIsBlocked(now);
    c := new Conn(TWO_LOGGED, false, false, false, false, 0);
    var ok, _ := RestoreFileCopies(c, [FIRST, SECOND], now);
  }

  /** PostgreSQL refuses the list and keeps its first entry restored. */
  method PostgresRestoreStopsHalfway(now: nat) returns (c: Conn)
    ensures FIRST.pos in c.published.tapeFiles && FIRST !in c.published.log
    ensures SECOND.pos !in c.published.tapeFiles && SECOND in c.published.log
    ensures !AllOrNothing(TWO_LOGGED, [FIRST, SECOND], now, c.published)
  {
    SecondEntryIsBlocked(now);
    FirstAloneIsRestored(now);
    c := new Conn(TWO_LOGGED, true, false, false, false, 0);
    var ok, _ := RestoreFileCopies(c, [FIRST, SECOND], now);
  }

  lemma FirstAloneIsRestored(now: nat)
    ensures var seen := RestoreAll(TWO_LOGGED, [FIRST, SECOND], now).db;
            FIRST.pos in seen.tapeFiles && FIRST !in seen.log && SECOND.pos !in seen.tapeFiles && SECOND in seen.log
  {
    FirstIsRestored(now);
    var mid := RestoreOne(TWO_LOGGED, FIRST, now).db;
    SecondIsBlocked(mid, now);
    RestoreAllStep(TWO_LOGGED, [FIRST, SECOND], now);
    assert [FIRST, SECOND][1..] == [SECOND];
    RestoreAllStep(mid, [SECOND], now);
    assert mid.log == multiset{SECOND};
  }
}

/** What a refused list of log entries leaves behind where statements after a commit still belong
    to a transaction, as on Oracle and MySQL: when does it keep the catalogue valid?
 */
module RestoreInvariant {
  import opened Options
  import opened Tables
  import opened Recycle
  import opened Restore
  import opened RestoreFaults

  predicate SameNumber(e: LogRow, f: LogRow) {
    e.archiveId == f.archiveId && e.copyNb == f.copyNb
  }

  predicate SamePlace(e: LogRow, f: LogRow) {
    e.pos.vid == f.pos.vid && e.blockId == f.blockId
  }

  /** `e` has the copy number of a live copy or of a findable entry among `es`. */
  predicate NumberTaken(db: Db, es: seq<LogRow>, e: LogRow) {
    || CopyLive(db.tapeFiles, e.archiveId, e.copyNb)
    || exists j :: 0 <= j < |es| && Findable(db, es[j]) && SameNumber(es[j], e)
  }

  /** `e` has the block of a live copy or of a findable entry among `es`. */
  predicate BlockTaken(db: Db, es: seq<LogRow>, e: LogRow) {
    || BlockLive(db.tapeFiles, e.pos.vid, e.blockId)
    || exists j :: 0 <= j < |es| && Findable(db, es[j]) && SamePlace(es[j], e)
  }

  /** The entries before `n` are clear, and entry `n` can be found, has a free copy number, and
      meets a block in use. */
  predicate StoppedByBlock(db: Db, es: seq<LogRow>, n: nat) {
    && n < |es| && Clear(db, es[..n]) && Findable(db, es[n])
    && !NumberTaken(db, es[..n], es[n]) && BlockTaken(db, es[..n], es[n])
  }

  /** ... after some other entry has been restored. */
  ghost predicate StoppedLate(db: Db, es: seq<LogRow>) {
    exists n: nat :: StoppedByBlock(db, es, n) && exists j :: 0 <= j < n && Findable(db, es[j])
  }

  // What the entries before the refused one have changed

  lemma TakenNext(db: Db, es: seq<LogRow>, e: LogRow, f: LogRow)
    ensures NumberTaken(db, es + [e], f) <==> NumberTaken(db, es, f) || (Findable(db, e) && SameNumber(e, f))
    ensures BlockTaken(db, es + [e], f) <==> BlockTaken(db, es, f) || (Findable(db, e) && SamePlace(e, f))
  {
    var more := es + [e];
    assert more[|es|] == e && forall j :: 0 <= j < |es| ==> more[j] == es[j];
    if j :| 0 <= j < |more| && Findable(db, more[j]) && SameNumber(more[j], f) && j < |es| {
      assert Findable(db, es[j]) && SameNumber(es[j], f);
    }
    if j :| 0 <= j < |more| && Findable(db, more[j]) && SamePlace(more[j], f) && j < |es| {
      assert Findable(db, es[j]) && SamePlace(es[j], f);
    }
  }

  lemma RestoredTakes(db: Db, db1: Db, e: LogRow, now: nat, f: LogRow)
    requires e.pos !in db.tapeFiles && IsRestored(db, db1, e, now)
    ensures CopyLive(db1.tapeFiles, f.archiveId, f.copyNb)
            <==> CopyLive(db.tapeFiles, f.archiveId, f.copyNb) || SameNumber(e, f)
    ensures BlockLive(db1.tapeFiles, f.pos.vid, f.blockId)
            <==> BlockLive(db.tapeFiles, f.pos.vid, f.blockId) || SamePlace(e, f)
  {
    assert db1.tapeFiles[e.pos] == RestoredRow(e, now);
    assert forall p :: p in db.tapeFiles ==> p in db1.tapeFiles && db1.tapeFiles[p] == db.tapeFiles[p];
  }

  /** `mid` differs from `db` by the entries `es` having been restored. */
  ghost predicate Behind(db: Db, es: seq<LogRow>, mid: Db, f: LogRow) {
    && (Findable(mid, f) <==> Findable(db, f))
    && (CopyLive(mid.tapeFiles, f.archiveId, f.copyNb) <==> NumberTaken(db, es, f))
    && (BlockLive(mid.tapeFiles, f.pos.vid, f.blockId) <==> BlockTaken(db, es, f))
  }

  lemma BehindNext(db: Db, es: seq<LogRow>, mid: Db, e: LogRow, next: Db, now: nat, f: LogRow)
    requires Inv(mid) && e in mid.log && RestoreOne(mid, e, now) == Done(next)
    requires Behind(db, es, mid, e) && Behind(db, es, mid, f)
    ensures Behind(db, es + [e], next, f)
  {
    TakenNext(db, es, e, f);
    RestoreOneExact(mid, e, now);
    if Findable(mid, e) {
      FindableStable(mid, next, e, now);
      RestoredTakes(mid, next, e, now, f);
    }
  }

  lemma {:induction false} BehindPrefix(db: Db, es: seq<LogRow>, n: nat, now: nat, f: LogRow)
    requires Inv(db) && multiset(es) <= db.log && n <= |es| && RestoreAll(db, es[..n], now).error.None?
    ensures Behind(db, es[..n], RestoreAll(db, es[..n], now).db, f)
  {
    if n == 0 {
      assert es[..0] == [];
      RestoreNothing(db, now);
    } else {
      var k := n - 1;
      assert es[..n] == es[..k] + [es[k]] && es[..n][..k] == es[..k];
      PrefixSucceeds(db, es, k, now);
      BehindPrefix(db, es, k, now, es[k]);
      BehindPrefix(db, es, k, now, f);
      EntryLogged(db, es, k, now);
      PrefixStep(db, es, k, now);
      BehindNext(db, es[..k], RestoreAll(db, es[..k], now).db, es[k], RestoreAll(db, es[..n], now).db, now, f);
    }
  }

  /** A list that succeeds does so at every entry. */
  lemma PrefixSucceeds(db: Db, es: seq<LogRow>, k: nat, now: nat)
    requires k < |es| && RestoreAll(db, es[..k + 1], now).error.None?
    ensures RestoreAll(db, es[..k], now).error.None?
    ensures RestoreOne(RestoreAll(db, es[..k], now).db, es[k], now).Done?
  {
    assert es[..k + 1] == es[..k] + [es[k]];
    if RestoreAll(db, es[..k], now).error.Some? {
      RestoreStops(db, es[..k], [es[k]], now);
    } else {
      RestoreAllAppend(db, es[..k], es[k], now);
      RestoreSingle(RestoreAll(db, es[..k], now).db, es[k], now);
    }
  }

  // The refused entry

  /** The constraint that refuses an entry can only be that of its block. */
  lemma ConstraintIsBlock(db: Db, e: LogRow, now: nat)
    requires Inv(db) && e in db.log
    ensures RestoreOne(db, e, now) == Refused(ConstraintViolated) <==>
            && Findable(db, e) && !CopyLive(db.tapeFiles, e.archiveId, e.copyNb)
            && BlockLive(db.tapeFiles, e.pos.vid, e.blockId)
  {
    InsertOneExact(db.tapeFiles, e.pos, RestoredRow(e, now));
    assert OnTape(db.tapes, e.pos);
  }

  lemma StoppedAtEntry(db: Db, es: seq<LogRow>, n: nat, now: nat)
    requires Inv(db) && multiset(es) <= db.log && n < |es| && RestoreAll(db, es[..n], now).error.None?
    ensures RestoreOne(RestoreAll(db, es[..n], now).db, es[n], now) == Refused(ConstraintViolated)
            <==> StoppedByBlock(db, es, n)
  {
    EntryLogged(db, es, n, now);
    ConstraintIsBlock(RestoreAll(db, es[..n], now).db, es[n], now);
    BehindPrefix(db, es, n, now, es[n]);
    PrefixIsClear(db, es, n, now);
  }

  lemma PrefixIsClear(db: Db, es: seq<LogRow>, n: nat, now: nat)
    requires Inv(db) && multiset(es) <= db.log && n <= |es|
    ensures Clear(db, es[..n]) <==> RestoreAll(db, es[..n], now).error.None?
  {
    PrefixLogged(db.log, es, n);
    RestoreAllExact(db, es[..n], now);
  }

  lemma PrefixLogged(log: multiset<LogRow>, es: seq<LogRow>, n: nat)
    requires multiset(es) <= log && n <= |es|
    ensures multiset(es[..n]) <= log
  {
    assert es == es[..n] + es[n..];
  }

  /** The entry at which a refused list stops. */
  lemma {:induction false} FirstRefused(db: Db, es: seq<LogRow>, i: nat, now: nat) returns (n: nat)
    requires i <= |es| && RestoreAll(db, es[..i], now).error.None? && RestoreAll(db, es, now).error.Some?
    ensures n < |es| && RestoreAll(db, es[..n], now).error.None?
    ensures RestoreOne(RestoreAll(db, es[..n], now).db, es[n], now).Refused?
    decreases |es| - i
  {
    assert es[..|es|] == es;
    PrefixStep(db, es, i, now);
    if RestoreOne(RestoreAll(db, es[..i], now).db, es[i], now).Refused? {
      n := i;
    } else {
      n := FirstRefused(db, es, i + 1, now);
    }
  }

  /** A list fails by a table constraint exactly when some entry is stopped by its block. */
  lemma ConstraintExactly(db: Db, es: seq<LogRow>, now: nat)
    requires Inv(db) && multiset(es) <= db.log
    ensures RestoreAll(db, es, now).error == Some(ConstraintViolated) <==> exists n: nat :: StoppedByBlock(db, es, n)
  {
    if n: nat :| StoppedByBlock(db, es, n) {
      PrefixIsClear(db, es, n, now);
      StoppedAtEntry(db, es, n, now);
      PrefixStep(db, es, n, now);
    }
    if RestoreAll(db, es, now).error == Some(ConstraintViolated) {
      assert es[..0] == [];
      RestoreNothing(db, now);
      var n := FirstRefused(db, es, 0, now);
      PrefixStep(db, es, n, now);
      StoppedAtEntry(db, es, n, now);
    }
  }

  /** The entries before the refused one have changed nothing exactly when none can be found. */
  lemma StoppedUnchanged(db: Db, es: seq<LogRow>, n: nat, now: nat)
    requires Inv(db) && multiset(es) <= db.log && StoppedByBlock(db, es, n)
    ensures RestoreAll(db, es, now) == RestoreResult(RestoreAll(db, es[..n], now).db, Some(ConstraintViolated))
    ensures RestoreAll(db, es, now).db == db <==> forall j :: 0 <= j < n ==> !Findable(db, es[j])
  {
    PrefixIsClear(db, es, n, now);
    StoppedAtEntry(db, es, n, now);
    PrefixStep(db, es, n, now);
    PrefixLogged(db.log, es, n);
    NothingToRestore(db, es[..n], now);
    NoneRestorable(db, es[..n]);
    assert forall j :: 0 <= j < n ==> es[..n][j] == es[j];
  }

  lemma {:induction false} NoneRestorable(db: Db, es: seq<LogRow>)
    ensures Restorable(db, es) == [] <==> forall j :: 0 <= j < |es| ==> !Findable(db, es[j])
  {
    if es != [] {
      NoneRestorable(db, es[1..]);
      assert forall j :: 0 < j < |es| ==> es[j] == es[1..][j - 1];
      assert forall j :: 0 <= j < |es[1..]| ==> es[1..][j] == es[j + 1];
    }
  }

  lemma StoppedLateExactly(db: Db, es: seq<LogRow>, now: nat)
    requires Inv(db) && multiset(es) <= db.log
    ensures RestoreAll(db, es, now).error == Some(ConstraintViolated) && RestoreAll(db, es, now).db != db
            <==> StoppedLate(db, es)
  {
    ConstraintExactly(db, es, now);
    if n: nat :| StoppedByBlock(db, es, n) && exists j :: 0 <= j < n && Findable(db, es[j]) {
      StoppedUnchanged(db, es, n, now);
    }
    if RestoreAll(db, es, now).error == Some(ConstraintViolated) && RestoreAll(db, es, now).db != db {
      var n: nat :| StoppedByBlock(db, es, n);
      StoppedUnchanged(db, es, n, now);
    }
  }

  /** Without a fault a list leaves a valid catalogue exactly when the back end publishes each
      statement after a commit, or the list is not stopped by a block after an entry was restored. */
  lemma UndisturbedKeepsInvExactly(db: Db, es: seq<LogRow>, now: nat, f: Fault)
    requires Inv(db) && multiset(es) <= db.log && !f.armed
    ensures Inv(Left(db, es, now, f)) <==> f.postgres || !StoppedLate(db, es)
    ensures Inv(Left(db, es, now, f)) ==> Left(db, es, now, f) == RestoreAll(db, es, now).db
  {
    var _ := LeftProperties(db, es, now, f);
    RestoreAllKeepsInv(db, es, now);
    StoppedLateExactly(db, es, now);
  }
}

/** Restoring a list of log entries is announced as one transaction, but insertTapeFile commits on
    its own: what becomes visible when a fault strikes, and when is it all or nothing?
 */
module RestoreFaults {
  import opened Options
  import opened Tables
  import opened Restore

  /** The entry's copy is live again while its log row is still there. */
  function HalfRestored(db: Db, e: LogRow, now: nat): Db {
    db.(tapeFiles := db.tapeFiles[e.pos := RestoredRow(e, now)])
  }

  // What a restore leaves behind, as a function of the fault that strikes it

  /** The back end, and the fault still to come: see the fields of a connection. */
  datatype Fault = Fault(postgres: bool, lossy: bool, ackLost: bool, armed: bool, fuse: nat) {
    predicate Now() { armed && fuse == 0 }
    /** The connection is lost, but only after the server has executed the request. */
    predicate Executed() { lossy && ackLost }
    function After(requests: nat): Fault {
      if armed && requests <= fuse then this.(fuse := fuse - requests) else this
    }
  }

  /** Requests made for one entry that succeeds: the lookup, and for a restored entry the query
      for older copies, the insertion, its commit and the deletion from the log. */
  function Requests(db: Db, e: LogRow): nat {
    if Findable(db, e) then 5 else 1
  }

  /** The effect of one entry on what others see and on what the session sees. */
  datatype Turn = Next(published: Db, working: Db) | Stop(published: Db)

  /** restoreFileCopyInRecycleLog for an entry that meets no constraint and ends in `restored`.
      `auto` says that statements publish by themselves, as on PostgreSQL after the first restored
      entry, whose commit has ended the transaction. */
  function Restoring(published: Db, half: Db, restored: Db, auto: bool, f: Fault): Turn {
    if !f.armed || f.fuse >= 4 then Next(if f.postgres then restored else half, restored)
    else if f.fuse == 0 then Stop(published)
    else if f.fuse == 1 then Stop(if auto && f.Executed() then half else published)
    else if f.fuse == 2 then Stop(if auto || f.Executed() then half else published)
    else Stop(if f.postgres && f.Executed() then restored else half)
  }

  /** What follows the lookup unless it makes the restore pass over the entry. */
  ghost function FoundTurn(published: Db, working: Db, auto: bool, e: LogRow, now: nat, f: Fault): Turn {
    var o := RestoreOne(working, e, now);
    if o.Refused? then Stop(if o.error == ConstraintViolated || (f.Now() && !f.Executed()) then published else working)
    else Restoring(published, HalfRestored(working, e, now), o.db, auto, f)
  }

  ghost function TurnOf(published: Db, working: Db, auto: bool, e: LogRow, now: nat, f: Fault): Turn {
    if f.Now() then Stop(if f.lossy then published else working)
    else if RestoreOne(working, e, now).Done? && !Findable(working, e) then Next(published, working)
    else FoundTurn(published, working, auto, e, now, f.After(1))
  }

  ghost function LeftAfter(published: Db, working: Db, auto: bool, es: seq<LogRow>, now: nat, f: Fault): Db
    decreases |es|
  {
    if es == [] then if f.Now() && !f.Executed() then published else working
    else
      var t := TurnOf(published, working, auto, es[0], now, f);
      if t.Stop? then t.published
      else LeftAfter(t.published, t.working, auto || (f.postgres && Findable(working, es[0])), es[1..], now,
                     f.After(Requests(working, es[0])))
  }

  /** PostgreSQL opens its transaction with a request of its own. */
  ghost function Left(db: Db, es: seq<LogRow>, now: nat, f: Fault): Db {
    if !f.postgres then LeftAfter(db, db, false, es, now, f)
    else if f.Now() then db
    else LeftAfter(db, db, false, es, now, f.After(1))
  }

  // Where the fault strikes, and when the restore is all or nothing

  /** `seen` is nothing or all, where `rest` is the result of the rest of the list. */
  predicate Whole(db: Db, rest: RestoreResult, seen: Db) {
    seen == db || rest == RestoreResult(seen, None)
  }

  /** All of the list, or nothing of it. */
  ghost predicate AllOrNothing(db: Db, es: seq<LogRow>, now: nat, seen: Db) {
    Whole(db, RestoreAll(db, es, now), seen)
  }

  /** The request that fails: `done` entries have been restored before it and `left` are to be
      restored after it.  A refused or completed list meets no fault. */
  datatype Point =
    | Opening | Lookup(done: nat, left: nat) | Displacing(done: nat) | Inserting(done: nat) | Committing(done: nat)
    | Deleting(left: nat) | Closing(done: nat) | RefusedAfter(done: nat) | Completed

  ghost function PointFrom(db: Db, es: seq<LogRow>, now: nat, f: Fault, done: nat): Point
    decreases |es|
  {
    if es == [] then if f.Now() then Closing(done) else Completed
    else if f.Now() then Lookup(done, |Restorable(db, es)|)
    else
      var o := RestoreOne(db, es[0], now);
      if o.Refused? then RefusedAfter(done)
      else if !Findable(db, es[0]) then PointFrom(db, es[1..], now, f.After(1), done)
      else if !f.armed || f.fuse >= 5 then PointFrom(o.db, es[1..], now, f.After(5), done + 1)
      else if f.fuse == 1 then Displacing(done)
      else if f.fuse == 2 then Inserting(done)
      else if f.fuse == 3 then Committing(done)
      else Deleting(|Restorable(db, es[1..])|)
  }

  ghost function PointOf(db: Db, es: seq<LogRow>, now: nat, f: Fault): Point {
    if !f.postgres then PointFrom(db, es, now, f, 0)
    else if f.Now() then Opening
    else PointFrom(db, es, now, f.After(1), 0)
  }

  /** The points at which the restore is all or nothing; `clear` says that the list is not refused. */
  predicate Harmless(p: Point, clear: bool, f: Fault) {
    match p
    case Opening => true
    case Lookup(done, left) => done == 0 || (clear && left == 0 && (f.postgres || !f.lossy))
    case Displacing(done) => done == 0
    case Inserting(done) => done == 0
    case Committing(done) => done == 0 && !f.Executed()
    case Deleting(left) => clear && left == 0 && f.postgres && f.Executed()
    case Closing(done) => done == 0 || f.postgres || f.Executed()
    case RefusedAfter(done) => done == 0
    case Completed => true
  }

  /** Where the restore stands after `done` entries: either nothing has happened, or some position
      has become live and, on Oracle, the last deletion from the log is still unpublished. */
  ghost predicate Standing(db: Db, published: Db, working: Db, postgres: bool, done: nat) {
    && (forall p :: p in db.tapeFiles ==> p in working.tapeFiles)
    && if done == 0 then published == db && working == db
       else && (exists p :: p in working.tapeFiles && p !in db.tapeFiles)
            && if postgres then published == working else !HeldOnce(published.tapeFiles, published.log)
  }

  lemma PrefixStep(db: Db, es: seq<LogRow>, k: nat, now: nat)
    requires k < |es| && RestoreAll(db, es[..k], now).error.None?
    ensures var mid := RestoreAll(db, es[..k], now).db;
            && (RestoreOne(mid, es[k], now).Done? ==>
                RestoreAll(db, es[..k + 1], now) == RestoreResult(RestoreOne(mid, es[k], now).db, None))
            && (RestoreOne(mid, es[k], now).Refused? ==>
                RestoreAll(db, es, now) == RestoreResult(mid, Some(RestoreOne(mid, es[k], now).error)))
  {
    var mid := RestoreAll(db, es[..k], now).db;
    assert es[..k + 1] == es[..k] + [es[k]] && es == es[..k + 1] + es[k + 1..];
    RestoreAllAppend(db, es[..k], es[k], now);
    RestoreSingle(mid, es[k], now);
    if RestoreOne(mid, es[k], now).Refused? {
      RestoreStops(db, es[..k + 1], es[k + 1..], now);
    }
  }

  /** A half restored entry is held twice, a restored one is not. */
  lemma HalfDiffers(db: Db, e: LogRow, now: nat)
    requires Inv(db) && e in db.log && Findable(db, e) && RestoreOne(db, e, now).Done?
    ensures e.pos !in db.tapeFiles && e.pos in RestoreOne(db, e, now).db.tapeFiles
    ensures forall p :: p in db.tapeFiles ==> p in RestoreOne(db, e, now).db.tapeFiles
    ensures !HeldOnce(HalfRestored(db, e, now).tapeFiles, HalfRestored(db, e, now).log)
  {
    RestoreOneExact(db, e, now);
  }

  lemma StandingStep(db: Db, published: Db, working: Db, postgres: bool, done: nat, e: LogRow, now: nat)
    requires Standing(db, published, working, postgres, done) && Inv(working) && e in working.log
    requires Findable(working, e) && RestoreOne(working, e, now).Done?
    ensures var next := RestoreOne(working, e, now).db;
            Standing(db, if postgres then next else HalfRestored(working, e, now), next, postgres, done + 1)
  {
    HalfDiffers(working, e, now);
  }

  lemma FirstRestorable(db: Db, es: seq<LogRow>)
    requires Inv(db) && multiset(es) <= db.log && Restorable(db, es) != []
    ensures Restorable(db, es)[0] in db.log && Restorable(db, es)[0].pos !in db.tapeFiles
  {
    RestorableIsPart(db, es);
    var e := Restorable(db, es)[0];
    assert multiset(Restorable(db, es))[e] > 0;
    assert multiset(es)[e] > 0;
  }

  lemma RestoredRowsAdd(tapeFiles: map<Pos, TapeRow>, rows: seq<LogRow>, now: nat)
    requires rows != [] ==> rows[0].pos !in tapeFiles
    ensures tapeFiles + RestoredRows(rows, now) == tapeFiles <==> rows == []
  {
    if rows != [] {
      assert rows[0].pos in RestoredRows(rows, now);
      assert rows[0].pos in tapeFiles + RestoredRows(rows, now);
    }
  }

  /** A list changes the catalogue exactly when it has an entry to restore. */
  lemma NothingToRestore(db: Db, es: seq<LogRow>, now: nat)
    requires Inv(db) && multiset(es) <= db.log && RestoreAll(db, es, now).error.None?
    ensures RestoreAll(db, es, now).db == db <==> Restorable(db, es) == []
  {
    RestoreAllMoves(db, es, now);
    var rows := Restorable(db, es);
    if rows != [] { FirstRestorable(db, es); }
    RestoredRowsAdd(db.tapeFiles, rows, now);
    assert db.log - multiset([]) == db.log;
  }

  /** What is visible in the end is all or nothing exactly when the fault strikes at a harmless point. */
  ghost predicate Exact(db: Db, published: Db, working: Db, auto: bool, es: seq<LogRow>, now: nat, f: Fault, done: nat)
  {
    var rest := RestoreAll(working, es, now);
    Whole(db, rest, LeftAfter(published, working, auto, es, now, f))
    <==> Harmless(PointFrom(working, es, now, f, done), rest.error.None?, f)
  }

  /** A half restored state, held twice, is neither. */
  lemma HeldTwiceIsPartial(db: Db, working: Db, es: seq<LogRow>, now: nat, seen: Db)
    requires Inv(db) && Inv(working) && multiset(es) <= working.log && !HeldOnce(seen.tapeFiles, seen.log)
    ensures !Whole(db, RestoreAll(working, es, now), seen)
  {
    RestoreAllKeepsInv(working, es, now);
  }

  lemma HeldOnceDiffers(db: Db, db': Db)
    requires Inv(db) && !HeldOnce(db'.tapeFiles, db'.log)
    ensures db != db'
  {
  }

  lemma PublishedAtEnd(db: Db, published: Db, working: Db, postgres: bool, done: nat)
    requires Inv(db) && Inv(working) && Standing(db, published, working, postgres, done)
    ensures published == db || published == working <==> done == 0 || postgres
  {
    if done > 0 && !postgres {
      HeldOnceDiffers(db, published);
      HeldOnceDiffers(working, published);
    }
  }

  lemma WholeAtEnd(db: Db, published: Db, working: Db, auto: bool, now: nat, f: Fault, done: nat)
    requires published == db || published == working <==> done == 0 || f.postgres
    ensures Exact(db, published, working, auto, [], now, f, done)
  {
    RestoreNothing(working, now);
  }

  lemma WholeAtLookup(db: Db, published: Db, working: Db, auto: bool, es: seq<LogRow>, now: nat, f: Fault, done: nat)
    requires Inv(db) && Inv(working) && Standing(db, published, working, f.postgres, done)
    requires es != [] && multiset(es) <= working.log && f.Now()
    ensures Exact(db, published, working, auto, es, now, f, done)
  {
    if RestoreAll(working, es, now).error.None? { NothingToRestore(working, es, now); }
    if done > 0 && !f.postgres { HeldTwiceIsPartial(db, working, es, now, published); }
  }

  lemma WholeAtRefusal(db: Db, published: Db, working: Db, auto: bool, es: seq<LogRow>, now: nat, f: Fault, done: nat)
    requires Inv(db) && Inv(working) && Standing(db, published, working, f.postgres, done)
    requires es != [] && multiset(es) <= working.log && !f.Now() && RestoreOne(working, es[0], now).Refused?
    ensures Exact(db, published, working, auto, es, now, f, done)
  {
    RestoreAllStep(working, es, now);
    if done > 0 && !f.postgres { HeldTwiceIsPartial(db, working, es, now, published); }
  }

  /** The fault strikes a request of the first entry after its lookup. */
  lemma LeftWithin(published: Db, working: Db, auto: bool, es: seq<LogRow>, now: nat, f: Fault, done: nat)
    requires es != [] && f.armed && 0 < f.fuse < 5 && Findable(working, es[0]) && RestoreOne(working, es[0], now).Done?
    ensures LeftAfter(published, working, auto, es, now, f)
            == Restoring(published, HalfRestored(working, es[0], now), RestoreOne(working, es[0], now).db, auto,
                         f.After(1)).published
    ensures PointFrom(working, es, now, f, done)
            == if f.fuse == 1 then Displacing(done) else if f.fuse == 2 then Inserting(done)
               else if f.fuse == 3 then Committing(done) else Deleting(|Restorable(working, es[1..])|)
  {
  }

  lemma HalfIsPartial(db: Db, working: Db, es: seq<LogRow>, now: nat)
    requires Inv(db) && Inv(working) && es != [] && multiset(es) <= working.log
    requires Findable(working, es[0]) && RestoreOne(working, es[0], now).Done?
    ensures !Whole(db, RestoreAll(working, es, now), HalfRestored(working, es[0], now))
  {
    RestStaysLogged(working, es, now);
    HalfDiffers(working, es[0], now);
    HeldTwiceIsPartial(db, working, es, now, HalfRestored(working, es[0], now));
  }

  /** One entry more makes the list complete exactly when it was the last one to be restored. */
  lemma LastRestored(db: Db, working: Db, es: seq<LogRow>, now: nat, restored: Db)
    requires Inv(working) && es != [] && multiset(es) <= working.log
    requires forall p :: p in db.tapeFiles ==> p in working.tapeFiles
    requires Findable(working, es[0]) && RestoreOne(working, es[0], now) == Done(restored)
    ensures Whole(db, RestoreAll(working, es, now), restored) <==>
            RestoreAll(working, es, now).error.None? && Restorable(working, es[1..]) == []
  {
    RestStaysLogged(working, es, now);
    RestoreOneKeepsInv(working, es[0], now);
    RestoreAllStep(working, es, now);
    RestorableAfter(working, es, now);
    if RestoreAll(working, es, now).error.None? { NothingToRestore(restored, es[1..], now); }
    HalfDiffers(working, es[0], now);
  }

  /** The five requests of an entry, given which of the states at hand are all or nothing. */
  lemma HarmlessWithin(db: Db, rest: RestoreResult, published: Db, half: Db, restored: Db, auto: bool, f: Fault,
                       done: nat, left: nat)
    requires f.armed && 0 < f.fuse < 5 && auto == (f.postgres && done > 0)
    requires !Whole(db, rest, half) && (Whole(db, rest, published) <==> done == 0)
    requires Whole(db, rest, restored) <==> rest.error.None? && left == 0
    ensures Whole(db, rest, Restoring(published, half, restored, auto, f.After(1)).published)
            <==> Harmless(if f.fuse == 1 then Displacing(done) else if f.fuse == 2 then Inserting(done)
                          else if f.fuse == 3 then Committing(done) else Deleting(left), rest.error.None?, f)
  {
  }

  lemma WholeWithin(db: Db, published: Db, working: Db, auto: bool, es: seq<LogRow>, now: nat, f: Fault, done: nat)
    requires Inv(db) && Inv(working) && Standing(db, published, working, f.postgres, done)
    requires auto == (f.postgres && done > 0) && es != [] && multiset(es) <= working.log && f.armed && 0 < f.fuse < 5
    requires Findable(working, es[0]) && RestoreOne(working, es[0], now).Done?
    ensures Exact(db, published, working, auto, es, now, f, done)
  {
    var half, restored := HalfRestored(working, es[0], now), RestoreOne(working, es[0], now).db;
    LeftWithin(published, working, auto, es, now, f, done);
    HalfIsPartial(db, working, es, now);
    LastRestored(db, working, es, now, restored);
    if done > 0 { PublishedIsPartial(db, published, working, es, now, f.postgres, done); }
    HarmlessWithin(db, RestoreAll(working, es, now), published, half, restored, auto, f, done,
                   |Restorable(working, es[1..])|);
  }

  /** What others see between two entries is partial if an entry is still to be restored. */
  lemma PublishedIsPartial(db: Db, published: Db, working: Db, es: seq<LogRow>, now: nat, postgres: bool, done: nat)
    requires Inv(db) && Inv(working) && Standing(db, published, working, postgres, done) && done > 0
    requires es != [] && multiset(es) <= working.log && Findable(working, es[0])
    ensures !Whole(db, RestoreAll(working, es, now), published)
  {
    if !postgres {
      HeldTwiceIsPartial(db, working, es, now, published);
    } else if RestoreAll(working, es, now).error.None? {
      NothingToRestore(working, es, now);
    }
  }

  lemma RestorableAfter(db: Db, es: seq<LogRow>, now: nat)
    requires Inv(db) && es != [] && es[0] in db.log && Findable(db, es[0]) && RestoreOne(db, es[0], now).Done?
    ensures Restorable(RestoreOne(db, es[0], now).db, es[1..]) == Restorable(db, es[1..])
  {
    RestoreOneExact(db, es[0], now);
    FindableStable(db, RestoreOne(db, es[0], now).db, es[0], now);
    RestorableStable(db, RestoreOne(db, es[0], now).db, es[1..]);
  }

  lemma LeftPassed(published: Db, working: Db, auto: bool, es: seq<LogRow>, now: nat, f: Fault, done: nat)
    requires es != [] && !f.Now() && RestoreOne(working, es[0], now).Done? && !Findable(working, es[0])
    ensures RestoreAll(working, es, now) == RestoreAll(working, es[1..], now)
    ensures LeftAfter(published, working, auto, es, now, f)
            == LeftAfter(published, working, auto, es[1..], now, f.After(1))
    ensures PointFrom(working, es, now, f, done) == PointFrom(working, es[1..], now, f.After(1), done)
  {
  }

  lemma LeftRestored(published: Db, working: Db, auto: bool, es: seq<LogRow>, now: nat, f: Fault, done: nat,
                     published': Db, next: Db)
    requires es != [] && !f.Now() && RestoreOne(working, es[0], now) == Done(next) && Findable(working, es[0])
    requires (!f.armed || f.fuse >= 5) && published' == if f.postgres then next else HalfRestored(working, es[0], now)
    requires auto ==> f.postgres
    ensures RestoreAll(working, es, now) == RestoreAll(next, es[1..], now)
    ensures LeftAfter(published, working, auto, es, now, f)
            == LeftAfter(published', next, f.postgres, es[1..], now, f.After(5))
    ensures PointFrom(working, es, now, f, done) == PointFrom(next, es[1..], now, f.After(5), done + 1)
  {
  }

  lemma HarmlessStays(p: Point, clear: bool, f: Fault, n: nat)
    ensures Harmless(p, clear, f.After(n)) <==> Harmless(p, clear, f)
  {
  }

  /** The restore has dealt with the first `i` entries and stands before the others. */
  ghost predicate Before(db: Db, published: Db, working: Db, auto: bool, es: seq<LogRow>, i: nat, now: nat, f: Fault,
                         done: nat)
  {
    && i <= |es| && RestoreAll(db, es[..i], now) == RestoreResult(working, None)
    && Standing(db, published, working, f.postgres, done) && auto == (f.postgres && done > 0)
  }

  lemma EntryLogged(db: Db, es: seq<LogRow>, i: nat, now: nat)
    requires Inv(db) && multiset(es) <= db.log && i < |es| && RestoreAll(db, es[..i], now).error.None?
    ensures Inv(RestoreAll(db, es[..i], now).db) && es[i] in RestoreAll(db, es[..i], now).db.log
  {
    RestStillLogged(db, es, i, now);
    assert es[i..][0] == es[i] && es[i] in multiset(es[i..]);
  }

  lemma BeforeNext(db: Db, published: Db, working: Db, auto: bool, es: seq<LogRow>, i: nat, now: nat, f: Fault,
                   done: nat)
    requires Inv(db) && multiset(es) <= db.log && Before(db, published, working, auto, es, i, now, f, done)
    requires i < |es| && RestoreOne(working, es[i], now).Done? && Findable(working, es[i])
    ensures var next := RestoreOne(working, es[i], now).db;
            Before(db, if f.postgres then next else HalfRestored(working, es[i], now), next, f.postgres, es, i + 1, now,
                   f.After(5), done + 1)
  {
    EntryLogged(db, es, i, now);
    PrefixStep(db, es, i, now);
    StandingStep(db, published, working, f.postgres, done, es[i], now);
  }

  lemma BeforePassed(db: Db, published: Db, working: Db, auto: bool, es: seq<LogRow>, i: nat, now: nat, f: Fault,
                     done: nat)
    requires Before(db, published, working, auto, es, i, now, f, done)
    requires i < |es| && RestoreOne(working, es[i], now).Done? && !Findable(working, es[i])
    ensures Before(db, published, working, auto, es, i + 1, now, f.After(1), done)
  {
    PrefixStep(db, es, i, now);
  }

  /** The restore stops at the next entry, or there is none. */
  lemma ExactWhereItStops(db: Db, published: Db, working: Db, auto: bool, es: seq<LogRow>, i: nat, now: nat, f: Fault,
                          done: nat)
    requires Inv(db) && multiset(es) <= db.log && Before(db, published, working, auto, es, i, now, f, done)
    requires i == |es| || f.Now() || RestoreOne(working, es[i], now).Refused?
             || (Findable(working, es[i]) && f.armed && f.fuse < 5)
    ensures Exact(db, published, working, auto, es[i..], now, f, done)
  {
    RestStillLogged(db, es, i, now);
    if i == |es| {
      PublishedAtEnd(db, published, working, f.postgres, done);
      WholeAtEnd(db, published, working, auto, now, f, done);
      assert es[i..] == [];
    } else if f.Now() {
      WholeAtLookup(db, published, working, auto, es[i..], now, f, done);
    } else if RestoreOne(working, es[i], now).Refused? {
      WholeAtRefusal(db, published, working, auto, es[i..], now, f, done);
    } else {
      WholeWithin(db, published, working, auto, es[i..], now, f, done);
    }
  }

  lemma ExactAfterRestored(db: Db, published: Db, working: Db, auto: bool, es: seq<LogRow>, i: nat, now: nat, f: Fault,
                           done: nat)
    requires i < |es| && !f.Now() && RestoreOne(working, es[i], now).Done? && Findable(working, es[i])
    requires (!f.armed || f.fuse >= 5) && (auto ==> f.postgres)
    requires var next := RestoreOne(working, es[i], now).db;
             Exact(db, if f.postgres then next else HalfRestored(working, es[i], now), next, f.postgres, es[i + 1..],
                   now, f.After(5), done + 1)
    ensures Exact(db, published, working, auto, es[i..], now, f, done)
  {
    var next := RestoreOne(working, es[i], now).db;
    assert es[i..][0] == es[i] && es[i..][1..] == es[i + 1..];
    LeftRestored(published, working, auto, es[i..], now, f, done,
                 if f.postgres then next else HalfRestored(working, es[i], now), next);
    HarmlessStays(PointFrom(working, es[i..], now, f, done), RestoreAll(working, es[i..], now).error.None?, f, 5);
  }

  lemma ExactAfterPassed(db: Db, published: Db, working: Db, auto: bool, es: seq<LogRow>, i: nat, now: nat, f: Fault,
                         done: nat)
    requires i < |es| && !f.Now() && RestoreOne(working, es[i], now).Done? && !Findable(working, es[i])
    requires Exact(db, published, working, auto, es[i + 1..], now, f.After(1), done)
    ensures Exact(db, published, working, auto, es[i..], now, f, done)
  {
    assert es[i..][0] == es[i] && es[i..][1..] == es[i + 1..];
    LeftPassed(published, working, auto, es[i..], now, f, done);
    HarmlessStays(PointFrom(working, es[i..], now, f, done), RestoreAll(working, es[i..], now).error.None?, f, 1);
  }

  lemma {:induction false} WholeExactly(db: Db, published: Db, working: Db, auto: bool, es: seq<LogRow>, i: nat,
                                        now: nat, f: Fault, done: nat)
    requires Inv(db) && multiset(es) <= db.log && Before(db, published, working, auto, es, i, now, f, done)
    ensures Exact(db, published, working, auto, es[i..], now, f, done)
    decreases |es| - i
  {
    if || i == |es| || f.Now() || RestoreOne(working, es[i], now).Refused?
       || (Findable(working, es[i]) && f.armed && f.fuse < 5)
    {
      ExactWhereItStops(db, published, working, auto, es, i, now, f, done);
    } else if Findable(working, es[i]) {
      var next := RestoreOne(working, es[i], now).db;
      BeforeNext(db, published, working, auto, es, i, now, f, done);
      WholeExactly(db, if f.postgres then next else HalfRestored(working, es[i], now), next, f.postgres, es, i + 1, now,
                   f.After(5), done + 1);
      ExactAfterRestored(db, published, working, auto, es, i, now, f, done);
    } else {
      BeforePassed(db, published, working, auto, es, i, now, f, done);
      WholeExactly(db, published, working, auto, es, i + 1, now, f.After(1), done);
      ExactAfterPassed(db, published, working, auto, es, i, now, f, done);
    }
  }

  // The states that can be left behind, and what an undisturbed restore leaves

  /** The states that a restore can leave behind: the first `k` entries are restored, and the
      next one possibly by half. */
  ghost predicate Reached(db: Db, es: seq<LogRow>, now: nat, k: nat, seen: Db)
    requires k <= |es|
  {
    && RestoreAll(db, es[..k], now).error.None?
    && (|| seen == RestoreAll(db, es[..k], now).db
        || (k < |es| && seen == HalfRestored(RestoreAll(db, es[..k], now).db, es[k], now)))
  }

  /** Whatever a turn publishes is one of the states that can be left behind. */
  lemma TurnReaches(db: Db, es: seq<LogRow>, now: nat, i: nat, k: nat, before: Db, mid: Db, seen: Db) returns (k': nat)
    requires k <= i < |es| && Reached(db, es, now, k, before)
    requires RestoreAll(db, es[..i], now) == RestoreResult(mid, None)
    requires || seen in {before, mid}
             || (RestoreOne(mid, es[i], now).Done? &&
                 (seen == HalfRestored(mid, es[i], now) || RestoreOne(mid, es[i], now) == Done(seen)))
    ensures k' <= i + 1 && Reached(db, es, now, k', seen)
  {
    PrefixStep(db, es, i, now);
    if seen == before { k' := k; }
    else if seen == mid || seen == HalfRestored(mid, es[i], now) { k' := i; }
    else { k' := i + 1; }
  }

  lemma TurnStates(published: Db, working: Db, auto: bool, e: LogRow, now: nat, f: Fault)
    ensures var t, o := TurnOf(published, working, auto, e, now, f), RestoreOne(working, e, now);
            && (|| t.published in {published, working}
                || (o.Done? && (t.published == HalfRestored(working, e, now) || o == Done(t.published))))
            && (t.Next? ==> o == Done(t.working))
  {
  }

  lemma LeftUnfold(published: Db, working: Db, auto: bool, es: seq<LogRow>, i: nat, now: nat, f: Fault)
    requires i < |es|
    ensures var t := TurnOf(published, working, auto, es[i], now, f);
            LeftAfter(published, working, auto, es[i..], now, f)
            == if t.Stop? then t.published
               else LeftAfter(t.published, t.working, auto || (f.postgres && Findable(working, es[i])), es[i + 1..],
                              now, f.After(Requests(working, es[i])))
  {
    assert es[i..][0] == es[i] && es[i..][1..] == es[i + 1..];
  }

  /** Whatever the fault: the first `k` entries are restored and possibly the next one by half. */
  lemma {:induction false} LeftIsReached(db: Db, published: Db, working: Db, auto: bool, es: seq<LogRow>, i: nat,
                                         now: nat, f: Fault, k: nat) returns (k': nat)
    requires k <= i <= |es| && RestoreAll(db, es[..i], now) == RestoreResult(working, None)
    requires Reached(db, es, now, k, published)
    ensures k' <= |es| && Reached(db, es, now, k', LeftAfter(published, working, auto, es[i..], now, f))
    decreases |es| - i
  {
    if i == |es| {
      assert es[i..] == [];
      k' := if f.Now() && !f.Executed() then k else i;
    } else {
      var t := TurnOf(published, working, auto, es[i], now, f);
      TurnStates(published, working, auto, es[i], now, f);
      LeftUnfold(published, working, auto, es, i, now, f);
      k' := TurnReaches(db, es, now, i, k, published, working, t.published);
      if t.Next? {
        PrefixStep(db, es, i, now);
        k' := LeftIsReached(db, t.published, t.working, auto || (f.postgres && Findable(working, es[i])), es, i + 1,
                            now, f.After(Requests(working, es[i])), k');
      }
    }
  }

  /** The entries before the failing one are restored, or else a position is held twice. */
  ghost predicate CleanlyStopped(db: Db, rest: RestoreResult, seen: Db, postgres: bool) {
    && (seen == rest.db <==> postgres || rest.error != Some(ConstraintViolated) || rest.db == db)
    && (seen == rest.db || !HeldOnce(seen.tapeFiles, seen.log))
  }

  lemma CleanAtEnd(db: Db, published: Db, working: Db, auto: bool, es: seq<LogRow>, i: nat, now: nat, f: Fault,
                   done: nat)
    requires Inv(db) && multiset(es) <= db.log && !f.armed && Before(db, published, working, auto, es, i, now, f, done)
    requires i == |es| || RestoreOne(working, es[i], now).Refused?
    ensures var seen := LeftAfter(published, working, auto, es[i..], now, f);
            CleanlyStopped(db, RestoreAll(working, es[i..], now), seen, f.postgres)
  {
    RestStillLogged(db, es, i, now);
    PublishedAtEnd(db, published, working, f.postgres, done);
    if i == |es| {
      assert es[i..] == [];
    } else {
      LeftUnfold(published, working, auto, es, i, now, f);
      assert es[i..][0] == es[i];
      RestoreAllStep(working, es[i..], now);
    }
  }

  lemma {:induction false} UndisturbedStopsCleanly(db: Db, published: Db, working: Db, auto: bool, es: seq<LogRow>,
                                                   i: nat, now: nat, f: Fault, done: nat)
    requires Inv(db) && multiset(es) <= db.log && !f.armed && Before(db, published, working, auto, es, i, now, f, done)
    ensures var seen := LeftAfter(published, working, auto, es[i..], now, f);
            CleanlyStopped(db, RestoreAll(working, es[i..], now), seen, f.postgres)
    decreases |es| - i
  {
    if i == |es| || RestoreOne(working, es[i], now).Refused? {
      CleanAtEnd(db, published, working, auto, es, i, now, f, done);
    } else {
      assert es[i..][0] == es[i] && es[i..][1..] == es[i + 1..];
      if Findable(working, es[i]) {
        var next := RestoreOne(working, es[i], now).db;
        var published' := if f.postgres then next else HalfRestored(working, es[i], now);
        BeforeNext(db, published, working, auto, es, i, now, f, done);
        LeftRestored(published, working, auto, es[i..], now, f, done, published', next);
        UndisturbedStopsCleanly(db, published', next, f.postgres, es, i + 1, now, f.After(5), done + 1);
      } else {
        BeforePassed(db, published, working, auto, es, i, now, f, done);
        LeftPassed(published, working, auto, es[i..], now, f, done);
        UndisturbedStopsCleanly(db, published, working, auto, es, i + 1, now, f.After(1), done);
      }
    }
  }

  lemma BeforeAll(db: Db, es: seq<LogRow>, now: nat, f: Fault)
    ensures Before(db, db, db, false, es, 0, now, f, 0) && Reached(db, es, now, 0, db) && es[0..] == es
  {
    assert es[..0] == [];
    RestoreNothing(db, now);
  }

  // When the restore is all or nothing, in terms of the list and of the fuse

  /** For any list and any fault: what others see is nothing or all of the list exactly when the
      fault strikes at a harmless point. */
  lemma RestoreIsWholeExactly(db: Db, es: seq<LogRow>, now: nat, f: Fault)
    requires Inv(db) && multiset(es) <= db.log
    ensures AllOrNothing(db, es, now, Left(db, es, now, f)) <==> Harmless(PointOf(db, es, now, f), Clear(db, es), f)
  {
    var f' := if f.postgres then f.After(1) else f;
    RestoreAllExact(db, es, now);
    if !(f.postgres && f.Now()) {
      BeforeAll(db, es, now, f');
      WholeExactly(db, db, db, false, es, 0, now, f', 0);
      HarmlessStays(PointOf(db, es, now, f), Clear(db, es), f, 1);
    }
  }

  lemma {:induction false} UndisturbedGoesOn(db: Db, es: seq<LogRow>, now: nat, f: Fault, done: nat)
    requires Inv(db) && multiset(es) <= db.log && !f.armed && done > 0
    ensures PointFrom(db, es, now, f, done).Completed? <==> Clear(db, es)
    ensures !Clear(db, es) ==> exists d :: d > 0 && PointFrom(db, es, now, f, done) == RefusedAfter(d)
    decreases |es|
  {
    if es != [] {
      EntryDone(db, es, now);
      ClearStep(db, es, now);
      if RestoreOne(db, es[0], now).Done? {
        var done' := if Findable(db, es[0]) then done + 1 else done;
        UndisturbedGoesOn(RestoreOne(db, es[0], now).db, es[1..], now, f, done');
      }
    }
  }

  /** The first `n` entries are not clear, and none of them but the last one can be found. */
  predicate RefusedAt(db: Db, es: seq<LogRow>, n: nat) {
    0 < n <= |es| && !Clear(db, es[..n]) && forall j :: 0 <= j < n - 1 ==> !Findable(db, es[j])
  }

  /** Some entry is refused before any other one is restored. */
  ghost predicate RefusedFirst(db: Db, es: seq<LogRow>) {
    exists n: nat :: RefusedAt(db, es, n)
  }

  lemma RefusedAtPassed(db: Db, es: seq<LogRow>, n: nat)
    requires es != [] && !Findable(db, es[0]) && es[0].archiveId in db.archive
    ensures RefusedAt(db, es, n + 1) <==> RefusedAt(db, es[1..], n)
  {
    if n == 0 {
      assert es[..1] == [es[0]];
    } else if n < |es| {
      ClearPassed(db, es[..n + 1]);
      assert es[..n + 1][1..] == es[1..][..n];
      assert forall j :: 0 <= j < n - 1 ==> es[1..][j] == es[j + 1];
      assert forall j :: 0 < j < n ==> es[j] == es[1..][j - 1];
    }
  }

  lemma RefusedFirstPassed(db: Db, es: seq<LogRow>)
    requires es != [] && !Findable(db, es[0]) && es[0].archiveId in db.archive
    ensures RefusedFirst(db, es) <==> RefusedFirst(db, es[1..])
  {
    if RefusedFirst(db, es) {
      var n: nat :| RefusedAt(db, es, n);
      RefusedAtPassed(db, es, n - 1);
    }
    if RefusedFirst(db, es[1..]) {
      var n: nat :| RefusedAt(db, es[1..], n);
      RefusedAtPassed(db, es, n);
    }
  }

  lemma RefusedFirstAt(db: Db, es: seq<LogRow>, now: nat)
    requires Inv(db) && es != [] && es[0] in db.log
    ensures RestoreOne(db, es[0], now).Refused? ==> RefusedFirst(db, es)
    ensures RestoreOne(db, es[0], now).Done? && Findable(db, es[0]) ==> !RefusedFirst(db, es)
  {
    assert es[..1] == [es[0]] && [es[0]][1..] == [];
    ClearStep(db, [es[0]], now);
    if RestoreOne(db, es[0], now).Refused? {
      assert RefusedAt(db, es, 1);
    } else {
      assert Clear(RestoreOne(db, es[0], now).db, []);
    }
  }

  lemma {:induction false} UndisturbedPoint(db: Db, es: seq<LogRow>, now: nat, f: Fault)
    requires Inv(db) && multiset(es) <= db.log && !f.armed
    ensures PointFrom(db, es, now, f, 0).Completed? <==> Clear(db, es)
    ensures !Clear(db, es) ==> PointFrom(db, es, now, f, 0).RefusedAfter?
    ensures PointFrom(db, es, now, f, 0) == RefusedAfter(0) <==> !Clear(db, es) && RefusedFirst(db, es)
    decreases |es|
  {
    if es != [] {
      EntryDone(db, es, now);
      ClearStep(db, es, now);
      RefusedFirstAt(db, es, now);
      if RestoreOne(db, es[0], now).Done? {
        if Findable(db, es[0]) {
          UndisturbedGoesOn(RestoreOne(db, es[0], now).db, es[1..], now, f, 1);
        } else {
          RefusedFirstPassed(db, es);
          UndisturbedPoint(db, es[1..], now, f);
        }
      }
    }
  }

  lemma UnarmedPoint(db: Db, es: seq<LogRow>, now: nat, f: Fault)
    requires !f.armed
    ensures PointOf(db, es, now, f) == PointFrom(db, es, now, f, 0)
  {
    assert f.After(1) == f;
  }

  /** Without a fault, on either back end: nothing or all of the list becomes visible exactly when
      the list is clear or an entry is refused before any other one is restored. */
  lemma UndisturbedIsWholeExactly(db: Db, es: seq<LogRow>, now: nat, f: Fault)
    requires Inv(db) && multiset(es) <= db.log && !f.armed
    ensures AllOrNothing(db, es, now, Left(db, es, now, f)) <==> Clear(db, es) || RefusedFirst(db, es)
  {
    UndisturbedPoint(db, es, now, f);
    UnarmedPoint(db, es, now, f);
    HarmlessUnarmed(PointOf(db, es, now, f), Clear(db, es), RefusedFirst(db, es), f);
    RestoreIsWholeExactly(db, es, now, f);
  }

  lemma HarmlessUnarmed(p: Point, clear: bool, first: bool, f: Fault)
    requires (p.Completed? <==> clear) && (!clear ==> p.RefusedAfter?) && (p == RefusedAfter(0) <==> !clear && first)
    ensures Harmless(p, clear, f) <==> clear || first
  {
  }

  lemma EntryDone(db: Db, es: seq<LogRow>, now: nat)
    requires Inv(db) && es != [] && multiset(es) <= db.log
    ensures es[0] in db.log
    ensures RestoreOne(db, es[0], now).Done? ==>
              && Inv(RestoreOne(db, es[0], now).db) && multiset(es[1..]) <= RestoreOne(db, es[0], now).db.log
              && (!Findable(db, es[0]) ==> RestoreOne(db, es[0], now).db == db)
  {
    assert es[0] in multiset(es);
    if RestoreOne(db, es[0], now).Done? {
      RestStaysLogged(db, es, now);
      RestoreOneKeepsInv(db, es[0], now);
      RestoreOneExact(db, es[0], now);
    }
  }

  lemma FindableAfter(db: Db, e: LogRow, now: nat)
    requires Inv(db) && e in db.log && Findable(db, e) && RestoreOne(db, e, now).Done?
    ensures forall f :: Findable(RestoreOne(db, e, now).db, f) <==> Findable(db, f)
  {
    RestoreOneExact(db, e, now);
    FindableStable(db, RestoreOne(db, e, now).db, e, now);
  }

  /** The point at which the fault strikes a clear list, told from the requests alone. */
  function ClearPoint(db: Db, es: seq<LogRow>, f: Fault, done: nat): Point
    decreases |es|
  {
    if es == [] then if f.Now() then Closing(done) else Completed
    else if f.Now() then Lookup(done, |Restorable(db, es)|)
    else if !Findable(db, es[0]) then ClearPoint(db, es[1..], f.After(1), done)
    else if !f.armed || f.fuse >= 5 then ClearPoint(db, es[1..], f.After(5), done + 1)
    else if f.fuse == 1 then Displacing(done)
    else if f.fuse == 2 then Inserting(done)
    else if f.fuse == 3 then Committing(done)
    else Deleting(|Restorable(db, es[1..])|)
  }

  lemma {:induction false} ClearPointStable(db: Db, db1: Db, es: seq<LogRow>, f: Fault, done: nat)
    requires forall e :: Findable(db1, e) <==> Findable(db, e)
    ensures ClearPoint(db1, es, f, done) == ClearPoint(db, es, f, done)
    decreases |es|
  {
    RestorableStable(db, db1, es);
    if es != [] {
      RestorableStable(db, db1, es[1..]);
      ClearPointStable(db, db1, es[1..], f.After(1), done);
      ClearPointStable(db, db1, es[1..], f.After(5), done + 1);
    }
  }

  lemma {:induction false} PointOfClear(db: Db, es: seq<LogRow>, now: nat, f: Fault, done: nat)
    requires Inv(db) && multiset(es) <= db.log && Clear(db, es)
    ensures PointFrom(db, es, now, f, done) == ClearPoint(db, es, f, done)
    decreases |es|
  {
    if es != [] && !f.Now() {
      EntryDone(db, es, now);
      ClearStep(db, es, now);
      if !Findable(db, es[0]) {
        LeftPassed(db, db, false, es, now, f, done);
        PointOfClear(db, es[1..], now, f.After(1), done);
      } else if f.armed && f.fuse < 5 {
        LeftWithin(db, db, false, es, now, f, done);
      } else {
        PointOfRestored(db, es, now, f, done);
        PointOfClear(RestoreOne(db, es[0], now).db, es[1..], now, f.After(5), done + 1);
        ClearPointAfter(db, es, now, f.After(5), done + 1);
      }
    }
  }

  lemma PointOfRestored(db: Db, es: seq<LogRow>, now: nat, f: Fault, done: nat)
    requires es != [] && !f.Now() && RestoreOne(db, es[0], now).Done? && Findable(db, es[0])
    requires !f.armed || f.fuse >= 5
    ensures PointFrom(db, es, now, f, done)
            == PointFrom(RestoreOne(db, es[0], now).db, es[1..], now, f.After(5), done + 1)
  {
  }

  lemma ClearPointAfter(db: Db, es: seq<LogRow>, now: nat, f: Fault, done: nat)
    requires Inv(db) && es != [] && es[0] in db.log && Findable(db, es[0]) && RestoreOne(db, es[0], now).Done?
    ensures ClearPoint(RestoreOne(db, es[0], now).db, es[1..], f, done) == ClearPoint(db, es[1..], f, done)
  {
    FindableAfter(db, es[0], now);
    ClearPointStable(db, RestoreOne(db, es[0], now).db, es[1..], f, done);
  }

  /** The requests of a clear list, without the opening and the final commit. */
  function RequestsOf(db: Db, es: seq<LogRow>): nat {
    if es == [] then 0 else Requests(db, es[0]) + RequestsOf(db, es[1..])
  }

  lemma {:induction false} RequestsCounted(db: Db, es: seq<LogRow>)
    ensures RequestsOf(db, es) == |es| + 4 * |Restorable(db, es)|
  {
    if es != [] { RequestsCounted(db, es[1..]); }
  }

  /** The point of the `d`-th request for entry `i`. */
  function PointWithin(db: Db, es: seq<LogRow>, i: nat, d: nat): Point
    requires i < |es| && d < 5
  {
    var done := |Restorable(db, es[..i])|;
    match d
    case 0 => Lookup(done, |Restorable(db, es[i..])|)
    case 1 => Displacing(done)
    case 2 => Inserting(done)
    case 3 => Committing(done)
    case 4 => Deleting(|Restorable(db, es[i + 1..])|)
  }

  function Later(p: Point, n: nat): Point {
    match p
    case Lookup(done, left) => Lookup(done + n, left)
    case Displacing(done) => Displacing(done + n)
    case Inserting(done) => Inserting(done + n)
    case Committing(done) => Committing(done + n)
    case Closing(done) => Closing(done + n)
    case RefusedAfter(done) => RefusedAfter(done + n)
    case _ => p
  }

  lemma {:induction false} ClearPointWithin(db: Db, es: seq<LogRow>, f: Fault, done: nat, i: nat, d: nat)
    requires i < |es| && d < Requests(db, es[i]) && f.armed && f.fuse == RequestsOf(db, es[..i]) + d
    ensures ClearPoint(db, es, f, done) == Later(PointWithin(db, es, i, d), done)
    decreases |es|
  {
    if i == 0 {
      assert es[..0] == [] && es[0..] == es;
    } else {
      assert es[..i][0] == es[0] && es[..i][1..] == es[1..][..i - 1];
      assert es[1..][i - 1] == es[i] && es[1..][i - 1..] == es[i..] && es[1..][i..] == es[i + 1..];
      var n := if Findable(db, es[0]) then 1 else 0;
      ClearPointWithin(db, es[1..], f.After(Requests(db, es[0])), done + n, i - 1, d);
      LaterPoint(db, es, i, d, done);
    }
  }

  lemma LaterPoint(db: Db, es: seq<LogRow>, i: nat, d: nat, done: nat)
    requires 0 < i < |es| && d < 5
    ensures Later(PointWithin(db, es[1..], i - 1, d), done + if Findable(db, es[0]) then 1 else 0)
            == Later(PointWithin(db, es, i, d), done)
  {
    assert es[..i][0] == es[0] && es[..i][1..] == es[1..][..i - 1];
    assert es[1..][i - 1..] == es[i..] && es[1..][i..] == es[i + 1..];
  }

  lemma {:induction false} ClearPointBehind(db: Db, es: seq<LogRow>, f: Fault, done: nat)
    requires f.armed && f.fuse >= RequestsOf(db, es)
    ensures ClearPoint(db, es, f, done)
            == if f.fuse == RequestsOf(db, es) then Closing(done + |Restorable(db, es)|) else Completed
    decreases |es|
  {
    if es != [] {
      ClearPointBehind(db, es[1..], f.After(Requests(db, es[0])), if Findable(db, es[0]) then done + 1 else done);
    }
  }

  function Opened(f: Fault): Fault {
    if f.postgres then f.After(1) else f
  }

  lemma PointOfStart(db: Db, es: seq<LogRow>, now: nat, f: Fault)
    requires !(f.postgres && f.Now())
    ensures PointOf(db, es, now, f) == PointFrom(db, es, now, Opened(f), 0)
  {
  }

  lemma LaterByNothing(p: Point)
    ensures Later(p, 0) == p
  {
  }

  lemma ClearPointAt(db: Db, es: seq<LogRow>, now: nat, f: Fault, i: nat, d: nat)
    requires Inv(db) && multiset(es) <= db.log && Clear(db, es)
    requires i < |es| && d < Requests(db, es[i])
    requires f.armed && f.fuse == (if f.postgres then 1 else 0) + RequestsOf(db, es[..i]) + d
    ensures PointOf(db, es, now, f) == PointWithin(db, es, i, d)
  {
    PointOfStart(db, es, now, f);
    PointOfClear(db, es, now, Opened(f), 0);
    ClearPointWithin(db, es, Opened(f), 0, i, d);
    LaterByNothing(PointWithin(db, es, i, d));
  }

  lemma ClearPointAtEnd(db: Db, es: seq<LogRow>, now: nat, f: Fault)
    requires Inv(db) && multiset(es) <= db.log && Clear(db, es)
    requires f.armed && f.fuse >= (if f.postgres then 1 else 0) + RequestsOf(db, es)
    ensures PointOf(db, es, now, f) == if f.fuse == (if f.postgres then 1 else 0) + RequestsOf(db, es)
                                       then Closing(|Restorable(db, es)|) else Completed
  {
    PointOfStart(db, es, now, f);
    PointOfClear(db, es, now, Opened(f), 0);
    ClearPointBehind(db, es, Opened(f), 0);
  }

  /** A clear list and a fault at the `d`-th request for entry `i`, counting from zero. */
  lemma ClearRestoreIsWholeExactly(db: Db, es: seq<LogRow>, now: nat, f: Fault, i: nat, d: nat)
    requires Inv(db) && multiset(es) <= db.log && Clear(db, es)
    requires i < |es| && d < Requests(db, es[i])
    requires f.armed && f.fuse == (if f.postgres then 1 else 0) + RequestsOf(db, es[..i]) + d
    ensures AllOrNothing(db, es, now, Left(db, es, now, f)) <==> Harmless(PointWithin(db, es, i, d), true, f)
  {
    RestoreIsWholeExactly(db, es, now, f);
    ClearPointAt(db, es, now, f, i, d);
  }

  /** ... and a fault at the final commit, or none that is reached. */
  lemma ClearRestoreEndsWholeExactly(db: Db, es: seq<LogRow>, now: nat, f: Fault)
    requires Inv(db) && multiset(es) <= db.log && Clear(db, es)
    requires f.armed && f.fuse >= (if f.postgres then 1 else 0) + RequestsOf(db, es)
    ensures AllOrNothing(db, es, now, Left(db, es, now, f)) <==>
            || f.fuse > (if f.postgres then 1 else 0) + RequestsOf(db, es)
            || Restorable(db, es) == [] || f.postgres || f.Executed()
  {
    ClearPointAtEnd(db, es, now, f);
    HarmlessAtEnd(PointOf(db, es, now, f), |Restorable(db, es)|, f);
    RestoreIsWholeExactly(db, es, now, f);
  }

  lemma HarmlessAtEnd(p: Point, done: nat, f: Fault)
    requires p == Closing(done) || p == Completed
    ensures Harmless(p, true, f) <==> p == Completed || done == 0 || f.postgres || f.Executed()
  {
  }

  lemma LeftReachedFromStart(db: Db, es: seq<LogRow>, now: nat, f: Fault) returns (k: nat)
    ensures k <= |es| && Reached(db, es, now, k, Left(db, es, now, f))
  {
    BeforeAll(db, es, now, f);
    if f.postgres && f.Now() {
      k := 0;
    } else {
      k := LeftIsReached(db, db, db, false, es, 0, now, if f.postgres then f.After(1) else f, 0);
    }
  }

  lemma LeftProperties(db: Db, es: seq<LogRow>, now: nat, f: Fault) returns (k: nat)
    requires Inv(db) && multiset(es) <= db.log
    ensures AllOrNothing(db, es, now, Left(db, es, now, f)) <==> Harmless(PointOf(db, es, now, f), Clear(db, es), f)
    ensures k <= |es| && Reached(db, es, now, k, Left(db, es, now, f))
    ensures RestoreAll(db, es, now).error.None? <==> Clear(db, es)
    ensures !f.armed ==> CleanlyStopped(db, RestoreAll(db, es, now), Left(db, es, now, f), f.postgres)
    ensures !f.armed ==>
              (AllOrNothing(db, es, now, Left(db, es, now, f)) <==> Clear(db, es) || RefusedFirst(db, es))
  {
    RestoreIsWholeExactly(db, es, now, f);
    RestoreAllExact(db, es, now);
    k := LeftReachedFromStart(db, es, now, f);
    if !f.armed {
      UndisturbedIsWholeExactly(db, es, now, f);
      BeforeAll(db, es, now, f);
      UndisturbedStopsCleanly(db, db, db, false, es, 0, now, f, 0);
    }
  }
}

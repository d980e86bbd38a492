/** Calls that are repeated when the database connection is lost.  On Oracle a commit that fails for
    that reason is not repeated, because it is not reported as a lost connection.
 */
module Retry {
  import opened Tables
  import opened Writes
  import opened WriteInvariant
  import opened Transactions

  /** The circumstances of one try: the clock, and the fault that may strike. */
  datatype Circumstance = Circumstance(now: nat, postgres: bool, lossy: bool, ackLost: bool, armed: bool, fuse: nat)

  /** The tape is still there and has not been set back. */
  predicate NotBack(vid: string, db: Db, later: Db) {
    vid in db.tapes ==> vid in later.tapes && later.tapes[vid].lastFSeq >= db.tapes[vid].lastFSeq
  }

  /** The tape has reached the last item of the batch. */
  predicate Passed(b: Batch, db: Db) {
    b != [] && ItemFieldsSet(b[0]) && b[0].vid in db.tapes && db.tapes[b[0].vid].lastFSeq >= b[|b| - 1].fSeq
  }

  lemma RecordedIsPassed(postgres: bool, db: Db, b: Batch, now: nat)
    requires b != [] && WriteOn(postgres, db, b, now).Done?
    ensures b[0].vid in db.tapes && Passed(b, WriteOn(postgres, db, b, now).db) && !Passed(b, db)
    ensures ItemsFollow(b, b[0].vid, db.tapes[b[0].vid].lastFSeq + 1, true)
  {
    HeaderExact(db, b, true);
    assert WriteOn(postgres, db, b, now).db.tapes == UpdateTape(db, b).tapes;
    assert b[|b| - 1].fSeq == db.tapes[b[0].vid].lastFSeq + |b|;
  }

  /** A batch that has been recorded is refused by the check of the file sequence numbers for
      as long as its tape does not go back, whatever else has happened in between. */
  lemma RecordedBatchIsRefused(postgres: bool, db: Db, b: Batch, now: nat, postgres': bool, db2: Db, later: nat)
    requires b != [] && WriteOn(postgres, db, b, now).Done?
    requires NotBack(b[0].vid, WriteOn(postgres, db, b, now).db, db2)
    ensures WriteOn(postgres', db2, b, later) == Refused(FSeqMismatch)
  {
    RecordedIsPassed(postgres, db, b, now);
    PassedIsRefused(b, postgres', db2, later);
  }

  lemma PassedIsRefused(b: Batch, postgres: bool, db: Db, now: nat)
    requires Passed(b, db)
    ensures WriteOn(postgres, db, b, now) == Refused(FSeqMismatch)
  {
    assert b[0].fSeq <= b[|b| - 1].fSeq;
  }

  /** One try. */
  method Try(db: Db, b: Batch, t: Circumstance) returns (s: Status, db': Db)
    ensures db' == db || WriteOn(t.postgres, db, b, t.now) == Done(db')
    ensures db' != db ==> Passed(b, db')
    ensures Passed(b, db) ==> db' == db && !s.Accepted? && (s.Rejected? ==> s.error == FSeqMismatch)
    ensures s.Accepted? && b != [] ==> db' != db
    ensures s.Rejected? ==> db' == db
  {
    var c := new Conn(db, t.postgres, t.lossy, t.ackLost, t.armed, t.fuse);
    s := FilesWrittenToTape(c, b, t.now);
    db' := c.published;
    if b != [] && WriteOn(t.postgres, db, b, t.now).Done? { RecordedIsPassed(t.postgres, db, b, t.now); }
    if Passed(b, db) { PassedIsRefused(b, t.postgres, db, t.now); }
  }

  /** Try `i` left the catalogue as `left[i + 1]`, and others have changed what the previous try had
      left before try `i` began. */
  ghost predicate RecordedBy(left: seq<Db>, others: (nat, Db) -> Db, i: nat)
    requires i + 1 < |left|
  {
    left[i + 1] != others(i, left[i])
  }

  ghost predicate AtMostOnce(others: (nat, Db) -> Db, left: seq<Db>) {
    forall i: nat, j: nat | i < j && j + 1 < |left| :: !(RecordedBy(left, others, i) && RecordedBy(left, others, j))
  }

  ghost predicate Outcome(b: Batch, t: Circumstance, start: Db, end: Db) {
    end == start || WriteOn(t.postgres, start, b, t.now) == Done(end)
  }

  /** Every try left the catalogue as it was or recorded the batch. */
  ghost predicate Outcomes(b: Batch, tries: seq<Circumstance>, others: (nat, Db) -> Db, left: seq<Db>) {
    && 0 < |left| <= |tries| + 1
    && forall i: nat | i + 1 < |left| :: Outcome(b, tries[i], others(i, left[i]), left[i + 1])
  }

  lemma RecordedBefore(left: seq<Db>, more: Db, others: (nat, Db) -> Db, i: nat)
    requires i + 1 < |left|
    ensures RecordedBy(left + [more], others, i) <==> RecordedBy(left, others, i)
  {
  }

  lemma OnceMore(others: (nat, Db) -> Db, left: seq<Db>, more: Db)
    requires left != [] && AtMostOnce(others, left)
    requires || more == others(|left| - 1, left[|left| - 1])
             || forall i: nat | i + 1 < |left| :: !RecordedBy(left, others, i)
    ensures AtMostOnce(others, left + [more])
  {
    forall i: nat | i + 1 < |left| ensures RecordedBy(left + [more], others, i) <==> RecordedBy(left, others, i) {
      RecordedBefore(left, more, others, i);
    }
  }

  lemma OneOutcomeMore(b: Batch, tries: seq<Circumstance>, others: (nat, Db) -> Db, left: seq<Db>, more: Db)
    requires Outcomes(b, tries, others, left) && |left| <= |tries|
    requires Outcome(b, tries[|left| - 1], others(|left| - 1, left[|left| - 1]), more)
    ensures Outcomes(b, tries, others, left + [more])
  {
    var left' := left + [more];
    forall i: nat | i + 1 < |left'| ensures Outcome(b, tries[i], others(i, left'[i]), left'[i + 1]) {
      if i + 1 < |left| {
        assert Outcome(b, tries[i], others(i, left[i]), left[i + 1]);
        assert left'[i] == left[i] && left'[i + 1] == left[i + 1];
      }
    }
  }

  /** If a try has recorded the batch, its tape has passed it. */
  ghost predicate PassedOnceRecorded(b: Batch, others: (nat, Db) -> Db, left: seq<Db>) {
    forall i: nat | i + 1 < |left| :: RecordedBy(left, others, i) ==> Passed(b, left[|left| - 1])
  }

  lemma OneTryMore(b: Batch, tries: seq<Circumstance>, others: (nat, Db) -> Db, left: seq<Db>, start: Db, more: Db)
    requires Outcomes(b, tries, others, left) && AtMostOnce(others, left) && PassedOnceRecorded(b, others, left)
    requires |left| <= |tries| && start == others(|left| - 1, left[|left| - 1])
    requires b != [] ==> NotBack(b[0].vid, left[|left| - 1], start)
    requires Outcome(b, tries[|left| - 1], start, more) && (Passed(b, start) ==> more == start)
    requires more != start ==> Passed(b, more)
    ensures Outcomes(b, tries, others, left + [more]) && AtMostOnce(others, left + [more])
    ensures PassedOnceRecorded(b, others, left + [more])
  {
    OneOutcomeMore(b, tries, others, left, more);
    OnceMore(others, left, more);
    forall i: nat | i + 1 < |left + [more]| && RecordedBy(left + [more], others, i) ensures Passed(b, more) {
      if i + 1 < |left| { RecordedBefore(left, more, others, i); }
    }
  }

  /** filesWrittenToTape through retryOnLostConnection, while `others` may change the catalogue
      before each try in any way that does not set the tape back.  It is repeated exactly while the
      connection is lost and tries are left.  However often that is and wherever a reply is lost, the
      batch is recorded at most once, and success is reported only if it has been.  It can have been
      recorded although an FSeq mismatch is reported. */
  method FilesWrittenWithRetry(db: Db, b: Batch, tries: seq<Circumstance>, others: (nat, Db) -> Db)
    returns (s: Status, ghost left: seq<Db>, ghost ends: seq<Status>)
    requires b != [] ==> forall i, d :: NotBack(b[0].vid, d, others(i, d))
    ensures Outcomes(b, tries, others, left) && AtMostOnce(others, left) && left[0] == db
    ensures s.Accepted? && b != [] ==> |left| > 1 && RecordedBy(left, others, |left| - 2)
    ensures s.Rejected? ==> forall i: nat | i + 1 < |left| :: RecordedBy(left, others, i) ==> s.error == FSeqMismatch
    ensures |ends| + 1 == |left| && (tries != [] ==> ends != [] && s == ends[|ends| - 1])
    ensures forall i :: 0 <= i < |ends| - 1 ==> ends[i].ConnectionLost?
    ensures s.ConnectionLost? ==> |ends| == |tries|
  {
    var current := db;
    left, ends := [db], [];
    for n := 0 to |tries|
      invariant |ends| == n && forall i :: 0 <= i < n ==> ends[i].ConnectionLost?
      invariant |left| == n + 1 && left[0] == db && left[n] == current
      invariant Outcomes(b, tries, others, left) && AtMostOnce(others, left) && PassedOnceRecorded(b, others, left)
    {
      var start := others(n, current);
      ghost var before := left;
      assert b != [] ==> NotBack(b[0].vid, current, start);
      s, current := Try(start, b, tries[n]);
      assert Outcome(b, tries[n], start, current);
      OneTryMore(b, tries, others, left, start, current);
      left, ends := left + [current], ends + [s];
      if !s.ConnectionLost? {
        EndsProperly(b, others, before, start, current, s);
        return;
      }
    }
    s := ConnectionLost;
  }

  lemma EndsProperly(b: Batch, others: (nat, Db) -> Db, left: seq<Db>, start: Db, more: Db, s: Status)
    requires left != [] && start == others(|left| - 1, left[|left| - 1]) && PassedOnceRecorded(b, others, left)
    requires b != [] ==> NotBack(b[0].vid, left[|left| - 1], start)
    requires s.Rejected? ==> more == start && (Passed(b, start) ==> s.error == FSeqMismatch)
    ensures s.Rejected? ==> forall i: nat | i + 1 < |left + [more]| ::
              RecordedBy(left + [more], others, i) ==> s.error == FSeqMismatch
  {
    forall i: nat | s.Rejected? && i + 1 < |left + [more]| && RecordedBy(left + [more], others, i)
      ensures Passed(b, start)
    {
      if i + 1 < |left| { RecordedBefore(left, more, others, i); }
    }
  }
}

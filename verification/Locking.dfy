/** Any number of sessions writing to any number of tapes at the same time.  What keeps them
    apart is the lock on the TAPE row taken by SELECT ... FOR UPDATE.
 */
module Locking {
  import opened Tables
  import opened Writes
  import opened WriteInvariant

  /** A session holds the row lock from reading LAST_FSEQ until its next commit or rollback.  On
      MySQL that is the commit that insertTapeFile makes for the first file of the batch, or
      already the transaction that draws a recycle log identifier if this file displaces a copy:
      then LAST_FSEQ is published before any row is inserted.  The remaining files are inserted
      without the lock. */
  datatype Phase =
    | Outside
    | Holding(vid: string, read: nat)
    | Draining(rest: seq<FileEvent>)

  /** The committed TAPE rows are `last` and `bytes`.  `items[v][k]` is the item recorded at position
      k + 1 of tape v since it was created or last reclaimed, `owner[v][k]` the session to which that
      position was given, and `rows[p]` the session that inserted the TAPE_FILE row at p. */
  datatype State = State(last: map<string, nat>, bytes: map<string, nat>, items: map<string, seq<Event>>,
                         owner: map<string, seq<nat>>, rows: map<Pos, nat>, sessions: map<nat, Phase>)

  datatype Action =
    | AddTape(vid: string)
    | Lock(s: nat, vid: string)
    | Publish(s: nat, b: Batch)
    | Release(s: nat, b: Batch, n: nat)   // with the first n files inserted, at most one
    | Drain(s: nat)
    | Abort(s: nat)
    | Delete(p: Pos)       // a row leaves TAPE_FILE
    | Reset(vid: string)   // the UPDATE with which reclaimTape sets the counters back

  function PhaseOf(st: State, s: nat): Phase {
    if s in st.sessions then st.sessions[s] else Outside
  }

  predicate Holds(st: State, s: nat, vid: string) {
    s in st.sessions && st.sessions[s].Holding? && st.sessions[s].vid == vid
  }

  predicate Locked(st: State, vid: string) {
    exists s :: s in st.sessions && Holds(st, s, vid)
  }

  /** A session acts on what it has read: the batch follows the position it saw under the lock. */
  predicate Enabled(st: State, a: Action) {
    match a
    case AddTape(vid) => vid !in st.last
    case Lock(s, vid) => PhaseOf(st, s).Outside? && vid in st.last && !Locked(st, vid)
    case Publish(s, b) =>
      PhaseOf(st, s).Holding? && b != [] && ItemsFollow(b, PhaseOf(st, s).vid, PhaseOf(st, s).read + 1, false)
    case Release(s, b, n) =>
      && PhaseOf(st, s).Holding? && b != [] && Files(b) != [] && n <= 1
      && ItemsFollow(b, PhaseOf(st, s).vid, PhaseOf(st, s).read + 1, false)
    case Drain(s) => PhaseOf(st, s).Draining? && PhaseOf(st, s).rest != []
    case Abort(s) => true
    case Delete(p) => p in st.rows
    case Reset(vid) => vid in st.last && !Locked(st, vid)
  }

  /** The rows that an action inserts. */
  function Inserted(st: State, a: Action): set<Pos>
    requires Enabled(st, a)
  {
    match a
    case Publish(s, b) => FilePositions(Files(b))
    case Release(s, b, n) => FilePositions(Files(b)[..n])
    case Drain(s) => {PosOf(PhaseOf(st, s).rest[0])}
    case _ => {}
  }

  function Insert(rows: map<Pos, nat>, ps: set<Pos>, s: nat): map<Pos, nat> {
    rows + map p | p in ps :: s
  }

  /** UPDATE TAPE writes the position of the last event; the positions become the session's. */
  function Advance(st: State, s: nat, b: Batch): State
    requires b != []
  {
    var v := b[0].vid;
    var given := if v in st.owner then st.owner[v] else [];
    var items := if v in st.items then st.items[v] else [];
    var bytes := if v in st.bytes then st.bytes[v] else 0;
    st.(last := st.last[v := b[|b| - 1].fSeq], bytes := st.bytes[v := bytes + TotalBytes(Files(b))],
        items := st.items[v := items + b], owner := st.owner[v := given + seq(|b|, i => s)])
  }

  /** The phase of a session that has `rest` still to insert. */
  function With(rest: seq<FileEvent>): Phase {
    if rest == [] then Outside else Draining(rest)
  }

  function Do(st: State, a: Action): State
    requires Enabled(st, a)
  {
    match a
    case AddTape(vid) => SetBack(st, vid)
    case Lock(s, vid) => st.(sessions := st.sessions[s := Holding(vid, st.last[vid])])
    case Publish(s, b) =>
      Advance(st, s, b).(rows := Insert(st.rows, Inserted(st, a), s), sessions := st.sessions[s := Outside])
    case Release(s, b, n) =>
      Advance(st, s, b).(rows := Insert(st.rows, Inserted(st, a), s),
                         sessions := st.sessions[s := With(Files(b)[n..])])
    case Drain(s) =>
      st.(rows := Insert(st.rows, Inserted(st, a), s), sessions := st.sessions[s := With(PhaseOf(st, s).rest[1..])])
    case Abort(s) => st.(sessions := st.sessions[s := Outside])
    case Delete(p) => st.(rows := st.rows - {p})
    case Reset(vid) => SetBack(st, vid)
  }

  /** A tape that starts at zero. */
  function SetBack(st: State, vid: string): State {
    st.(last := st.last[vid := 0], bytes := st.bytes[vid := 0], items := st.items[vid := []],
        owner := st.owner[vid := []])
  }

  /** A position of an existing tape that has been given to session `s`. */
  predicate Owns(st: State, s: nat, p: Pos) {
    p.vid in st.owner && 1 <= p.fSeq <= |st.owner[p.vid]| && st.owner[p.vid][p.fSeq - 1] == s
  }

  /** The committed counters: exactly the positions 1..last have been given away. */
  predicate Counted(st: State) {
    && st.last.Keys == st.owner.Keys
    && forall v :: v in st.last ==> |st.owner[v]| == st.last[v]
  }

  /** The items recorded on a tape sit at 1..last in order, and their files make up its bytes. */
  predicate Accounted(st: State) {
    && st.last.Keys == st.items.Keys == st.bytes.Keys
    && forall v :: v in st.last ==> Ledger(v, st.last[v], st.bytes[v], st.items[v])
  }

  predicate Ledger(vid: string, last: nat, bytes: nat, items: seq<Event>) {
    && |items| == last && bytes == TotalBytes(Files(items))
    && forall k :: 0 <= k < |items| ==> items[k].vid == vid && items[k].fSeq == k + 1
  }

  /** The lock is exclusive, and what its holder has read is still the committed value. */
  ghost predicate Exclusive(st: State) {
    && (forall s, v :: Holds(st, s, v) ==> v in st.last && st.sessions[s].read == st.last[v])
    && (forall s, t, v :: Holds(st, s, v) && Holds(st, t, v) ==> s == t)
  }

  predicate RowsOwned(st: State) {
    forall p :: p in st.rows ==> Owns(st, st.rows[p], p)
  }

  /** Files still to be inserted have their positions, and nobody has inserted there. */
  predicate RestOwned(st: State) {
    forall s :: s in st.sessions && st.sessions[s].Draining? ==>
      && Ascending(st.sessions[s].rest)
      && forall k :: 0 <= k < |st.sessions[s].rest| ==>
           Owns(st, s, PosOf(st.sessions[s].rest[k])) && PosOf(st.sessions[s].rest[k]) !in st.rows
  }

  ghost predicate Consistent(st: State) {
    Counted(st) && Exclusive(st) && RowsOwned(st) && RestOwned(st)
  }

  /** A publishing session holds the lock of the batch's tape, and the batch continues it. */
  lemma PublishContinues(st: State, s: nat, b: Batch)
    requires Consistent(st) && Enabled(st, Publish(s, b))
    ensures Holds(st, s, b[0].vid) && b[0].vid in st.owner
    ensures b[|b| - 1].fSeq == st.last[b[0].vid] + |b|
    ensures forall k :: 0 <= k < |Files(b)| ==>
              Files(b)[k].vid == b[0].vid && st.last[b[0].vid] < Files(b)[k].fSeq <= st.last[b[0].vid] + |b|
    ensures Ascending(Files(b))
  {
    var vid, read := PhaseOf(st, s).vid, PhaseOf(st, s).read;
    assert b[0].vid == vid && Holds(st, s, vid);
    assert b[|b| - 1].fSeq == read + 1 + (|b| - 1);
    FilesFollow(b, vid, read + 1, false);
  }

  /** No insertion ever meets an existing row: no position is used twice. */
  lemma NoCollision(st: State, a: Action)
    requires Consistent(st) && Enabled(st, a)
    ensures Inserted(st, a) !! st.rows.Keys
  {
    match a
    case Publish(s, b) => PublishContinues(st, s, b);
    case Release(s, b, n) => PublishContinues(st, s, b);
    case _ =>
  }

  /** Appending a batch that continues the tape. */
  lemma LedgerGrows(vid: string, last: nat, bytes: nat, items: seq<Event>, b: Batch)
    requires Ledger(vid, last, bytes, items) && b != [] && ItemsFollow(b, vid, last + 1, false)
    ensures Ledger(vid, b[|b| - 1].fSeq, bytes + TotalBytes(Files(b)), items + b)
  {
    BytesAdd(items, b);
    forall k | 0 <= k < |items + b| ensures (items + b)[k].vid == vid && (items + b)[k].fSeq == k + 1 {
      if k >= |items| { assert (items + b)[k] == b[k - |items|]; }
    }
  }

  lemma AdvanceAccounts(st: State, s: nat, b: Batch)
    requires Accounted(st) && b != [] && b[0].vid in st.last && ItemsFollow(b, b[0].vid, st.last[b[0].vid] + 1, false)
    ensures Accounted(Advance(st, s, b))
  {
    var v := b[0].vid;
    LedgerGrows(v, st.last[v], st.bytes[v], st.items[v], b);
  }

  /** The batch of a publishing session follows the committed counter. */
  lemma PublishFollows(st: State, s: nat, b: Batch)
    requires Exclusive(st) && Enabled(st, Publish(s, b))
    ensures b[0].vid in st.last && ItemsFollow(b, b[0].vid, st.last[b[0].vid] + 1, false)
  {
    assert b[0].vid == PhaseOf(st, s).vid && Holds(st, s, b[0].vid);
  }

  lemma ActionAccounts(st: State, a: Action)
    requires Exclusive(st) && Accounted(st) && Enabled(st, a)
    ensures Accounted(Do(st, a))
  {
    if a.Publish? || a.Release? {
      PublishFollows(st, a.s, a.b);
      AdvanceAccounts(st, a.s, a.b);
    }
  }

  lemma AdvanceKeeps(st: State, s: nat, b: Batch)
    requires Consistent(st) && Enabled(st, Publish(s, b))
    ensures b[0].vid in st.owner && Counted(Advance(st, s, b))
    ensures forall t, p :: Owns(st, t, p) ==> Owns(Advance(st, s, b), t, p)
    ensures forall k :: 0 <= k < |Files(b)| ==> Owns(Advance(st, s, b), s, PosOf(Files(b)[k]))
  {
    PublishContinues(st, s, b);
  }

  /** The other lock holders have read other tapes. */
  lemma PublishKeepsExclusive(st: State, s: nat, b: Batch, phase: Phase, st': State)
    requires Consistent(st) && Enabled(st, Publish(s, b)) && !phase.Holding?
    requires st'.last == Advance(st, s, b).last && st'.sessions == st.sessions[s := phase]
    ensures Exclusive(st')
  {
    PublishContinues(st, s, b);
    forall t, v | Holds(st', t, v)
      ensures Holds(st, t, v) && v in st'.last && st'.sessions[t].read == st'.last[v]
    {
      assert t != s && Holds(st, t, v);
    }
  }

  lemma PublishKeepsConsistent(st: State, s: nat, b: Batch)
    requires Consistent(st) && Enabled(st, Publish(s, b))
    ensures Consistent(Do(st, Publish(s, b)))
  {
    var st' := Do(st, Publish(s, b));
    PublishContinues(st, s, b);
    AdvanceKeeps(st, s, b);
    PublishKeepsExclusive(st, s, b, Outside, st');
    assert RowsOwned(st');
    forall t | t in st'.sessions && st'.sessions[t].Draining?
      ensures forall k :: 0 <= k < |st'.sessions[t].rest| ==>
                Owns(st', t, PosOf(st'.sessions[t].rest[k])) && PosOf(st'.sessions[t].rest[k]) !in st'.rows
    {
      assert t != s && st.sessions[t].Draining?;
    }
  }

  /** The files that the session still has to insert. */
  lemma ReleaseKeepsOwnRest(st: State, s: nat, b: Batch, n: nat, k: nat)
    requires Consistent(st) && Enabled(st, Release(s, b, n)) && k < |Files(b)[n..]|
    ensures var p := PosOf(Files(b)[n..][k]);
            Owns(Do(st, Release(s, b, n)), s, p) && p !in Do(st, Release(s, b, n)).rows
  {
    PublishContinues(st, s, b);
    AdvanceKeeps(st, s, b);
    assert Files(b)[n..][k] == Files(b)[k + n];
  }

  /** The files that another session still has to insert. */
  lemma ReleaseKeepsOthersRest(st: State, s: nat, b: Batch, n: nat, t: nat, k: nat)
    requires Consistent(st) && Enabled(st, Release(s, b, n)) && t != s && t in st.sessions
    requires st.sessions[t].Draining? && k < |st.sessions[t].rest|
    ensures var p := PosOf(st.sessions[t].rest[k]);
            Owns(Do(st, Release(s, b, n)), t, p) && p !in Do(st, Release(s, b, n)).rows
  {
    PublishContinues(st, s, b);
    AdvanceKeeps(st, s, b);
    assert Owns(st, t, PosOf(st.sessions[t].rest[k]));
  }

  lemma RestAscends(fs: seq<FileEvent>, n: nat)
    requires Ascending(fs) && n <= |fs|
    ensures Ascending(fs[n..])
  {
  }

  lemma ReleaseKeepsRest(st: State, s: nat, b: Batch, n: nat, st': State)
    requires Consistent(st) && Enabled(st, Release(s, b, n)) && st' == Do(st, Release(s, b, n))
    ensures RestOwned(st')
  {
    PublishContinues(st, s, b);
    RestAscends(Files(b), n);
    forall t, k | t in st'.sessions && st'.sessions[t].Draining? && 0 <= k < |st'.sessions[t].rest|
      ensures Owns(st', t, PosOf(st'.sessions[t].rest[k])) && PosOf(st'.sessions[t].rest[k]) !in st'.rows
    {
      if t == s {
        ReleaseKeepsOwnRest(st, s, b, n, k);
      } else {
        ReleaseKeepsOthersRest(st, s, b, n, t, k);
      }
    }
  }

  lemma ReleaseKeepsConsistent(st: State, s: nat, b: Batch, n: nat)
    requires Consistent(st) && Enabled(st, Release(s, b, n))
    ensures Consistent(Do(st, Release(s, b, n)))
  {
    var st' := Do(st, Release(s, b, n));
    AdvanceKeeps(st, s, b);
    PublishKeepsExclusive(st, s, b, With(Files(b)[n..]), st');
    ReleaseKeepsRest(st, s, b, n, st');
    assert RowsOwned(st');
  }

  lemma DrainKeepsRest(st: State, s: nat, t: nat, k: nat)
    requires Consistent(st) && Enabled(st, Drain(s)) && t in Do(st, Drain(s)).sessions
    requires Do(st, Drain(s)).sessions[t].Draining? && k < |Do(st, Drain(s)).sessions[t].rest|
    ensures var p := PosOf(Do(st, Drain(s)).sessions[t].rest[k]);
            Owns(Do(st, Drain(s)), t, p) && p !in Do(st, Drain(s)).rows
  {
    var rest := st.sessions[s].rest;
    assert Owns(st, s, PosOf(rest[0]));
    if t == s {
      assert rest[1..][k] == rest[k + 1];
    } else {
      assert Owns(st, t, PosOf(st.sessions[t].rest[k]));
    }
  }

  lemma DrainKeepsConsistent(st: State, s: nat)
    requires Consistent(st) && Enabled(st, Drain(s))
    ensures Consistent(Do(st, Drain(s)))
  {
    var st' := Do(st, Drain(s));
    var rest := st.sessions[s].rest;
    assert Owns(st, s, PosOf(rest[0]));
    assert forall t, v :: Holds(st', t, v) ==> Holds(st, t, v);
    forall t, k | t in st'.sessions && st'.sessions[t].Draining? && 0 <= k < |st'.sessions[t].rest|
      ensures Owns(st', t, PosOf(st'.sessions[t].rest[k])) && PosOf(st'.sessions[t].rest[k]) !in st'.rows
    {
      DrainKeepsRest(st, s, t, k);
    }
    forall t | t in st'.sessions && st'.sessions[t].Draining? ensures Ascending(st'.sessions[t].rest) {
      if t == s { assert forall k :: 0 <= k < |rest[1..]| ==> rest[1..][k] == rest[k + 1]; }
    }
  }

  lemma LockKeepsConsistent(st: State, s: nat, vid: string)
    requires Consistent(st) && Enabled(st, Lock(s, vid))
    ensures Consistent(Do(st, Lock(s, vid)))
  {
    var st' := Do(st, Lock(s, vid));
    assert forall t, v :: Holds(st', t, v) ==> (t == s && v == vid) || (Holds(st, t, v) && t != s);
    assert forall t :: Holds(st, t, vid) ==> t in st.sessions;
  }

  /** No copy is on the tape, and no session has a file left to insert there. */
  predicate Unused(st: State, vid: string) {
    && (forall p :: p in st.rows ==> p.vid != vid)
    && (forall s :: s in st.sessions && st.sessions[s].Draining? ==>
          forall k :: 0 <= k < |st.sessions[s].rest| ==> st.sessions[s].rest[k].vid != vid)
  }

  lemma ResetOwns(st: State, vid: string, t: nat, p: Pos)
    requires Enabled(st, Reset(vid))
    ensures Owns(Do(st, Reset(vid)), t, p) <==> p.vid != vid && Owns(st, t, p)
  {
  }

  lemma ResetNeedsUnused(st: State, vid: string)
    requires Enabled(st, Reset(vid)) && RowsOwned(Do(st, Reset(vid))) && RestOwned(Do(st, Reset(vid)))
    ensures Unused(st, vid)
  {
    var st' := Do(st, Reset(vid));
    forall p | p in st.rows ensures p.vid != vid { ResetOwns(st, vid, st.rows[p], p); }
    forall s, k | s in st.sessions && st.sessions[s].Draining? && 0 <= k < |st.sessions[s].rest|
      ensures st.sessions[s].rest[k].vid != vid
    {
      assert Owns(st', s, PosOf(st'.sessions[s].rest[k]));
      ResetOwns(st, vid, s, PosOf(st.sessions[s].rest[k]));
    }
  }

  lemma ResetOfUnused(st: State, vid: string)
    requires Consistent(st) && Enabled(st, Reset(vid)) && Unused(st, vid)
    ensures Consistent(Do(st, Reset(vid)))
  {
    var st' := Do(st, Reset(vid));
    assert forall t, v :: Holds(st', t, v) <==> Holds(st, t, v);
    forall p | p in st.rows ensures Owns(st', st.rows[p], p) { ResetOwns(st, vid, st.rows[p], p); }
    forall s, k | s in st.sessions && st.sessions[s].Draining? && 0 <= k < |st.sessions[s].rest|
      ensures Owns(st', s, PosOf(st.sessions[s].rest[k]))
    {
      ResetOwns(st, vid, s, PosOf(st.sessions[s].rest[k]));
    }
  }

  /** reclaimTape looks for copies on the tape before it sets the counters back, and holds no lock
      in between.  Setting them back is safe exactly when the tape is unused at that moment. */
  lemma ResetKeepsConsistentExactly(st: State, vid: string)
    requires Consistent(st) && Enabled(st, Reset(vid))
    ensures Consistent(Do(st, Reset(vid))) <==> Unused(st, vid)
  {
    if Unused(st, vid) {
      ResetOfUnused(st, vid);
    } else if Consistent(Do(st, Reset(vid))) {
      ResetNeedsUnused(st, vid);
      assert false;
    }
  }

  lemma DeleteKeepsConsistent(st: State, p: Pos)
    requires Consistent(st) && Enabled(st, Delete(p))
    ensures Consistent(Do(st, Delete(p)))
  {
    var st' := Do(st, Delete(p));
    assert forall t, v :: Holds(st', t, v) ==> Holds(st, t, v);
    assert forall t, q :: Owns(st', t, q) <==> Owns(st, t, q);
  }

  lemma ActionKeepsConsistent(st: State, a: Action)
    requires Consistent(st) && Enabled(st, a) && (a.Reset? ==> Unused(st, a.vid))
    ensures Consistent(Do(st, a))
  {
    match a
    case AddTape(vid) =>
      var st' := Do(st, a);
      assert forall t, p :: Owns(st, t, p) ==> Owns(st', t, p);
      assert forall t, v :: Holds(st', t, v) ==> Holds(st, t, v);
    case Lock(s, vid) => LockKeepsConsistent(st, s, vid);
    case Publish(s, b) => PublishKeepsConsistent(st, s, b);
    case Release(s, b, n) => ReleaseKeepsConsistent(st, s, b, n);
    case Drain(s) => DrainKeepsConsistent(st, s);
    case Abort(s) =>
      var st' := Do(st, a);
      assert forall t, v :: Holds(st', t, v) ==> Holds(st, t, v);
    case Delete(p) => DeleteKeepsConsistent(st, p);
    case Reset(vid) => ResetKeepsConsistentExactly(st, vid);
  }

  /** Positions, once given away, stay with their session until the tape is reclaimed; new ones
      follow without a gap.  A row stays until it is deleted. */
  predicate Continues(st: State, a: Action, st': State) {
    && (forall v :: v in st.owner && a != Reset(v) ==> v in st'.owner && st.owner[v] <= st'.owner[v])
    && (forall p :: p in st.rows && a != Delete(p) ==> p in st'.rows && st'.rows[p] == st.rows[p])
  }

  lemma ActionContinues(st: State, a: Action)
    requires Consistent(st) && Enabled(st, a)
    ensures Continues(st, a, Do(st, a))
  {
    NoCollision(st, a);
  }

  /** One action in a state, where a tape is reclaimed only while nothing is written to it. */
  predicate Steps(st: State, a: Action, st': State) {
    Enabled(st, a) && (a.Reset? ==> Unused(st, a.vid)) && st' == Do(st, a)
  }

  /** The action inserts no row where one is, and takes nothing away that was given. */
  predicate SafeStep(st: State, a: Action, st': State) {
    Enabled(st, a) && Inserted(st, a) !! st.rows.Keys && Continues(st, a, st')
  }

  lemma StepIsSafe(st: State, a: Action, st': State)
    requires Consistent(st) && Accounted(st) && Steps(st, a, st')
    ensures Consistent(st') && Accounted(st') && SafeStep(st, a, st')
  {
    ActionKeepsConsistent(st, a);
    ActionAccounts(st, a);
    NoCollision(st, a);
    ActionContinues(st, a);
  }

  /** A schedule: the states that any interleaving of actions of any sessions passes through. */
  predicate Schedule(states: seq<State>, actions: seq<Action>) {
    && |states| == |actions| + 1
    && states[0] == State(map[], map[], map[], map[], map[], map[])
    && forall i: nat :: i < |actions| ==> StepAt(states, actions, i)
  }

  predicate StepAt(states: seq<State>, actions: seq<Action>, i: nat)
    requires i < |actions| < |states|
  {
    Steps(states[i], actions[i], states[i + 1])
  }

  /** In every schedule: the lock holder's reading stays the committed one, the positions given
      away on each tape are 1..last without a gap, its byte counter is the sum of the files recorded
      there, no row is inserted twice, and a session inserts only at positions it was given. */
  lemma {:induction false} SchedulesAreSafe(states: seq<State>, actions: seq<Action>, i: nat)
    requires Schedule(states, actions) && i < |states|
    ensures Consistent(states[i]) && Accounted(states[i])
    ensures i < |actions| ==> SafeStep(states[i], actions[i], states[i + 1])
  {
    if i > 0 {
      SchedulesAreSafe(states, actions, i - 1);
      assert StepAt(states, actions, i - 1);
      StepIsSafe(states[i - 1], actions[i - 1], states[i]);
    }
    if i < |actions| {
      assert StepAt(states, actions, i);
      StepIsSafe(states[i], actions[i], states[i + 1]);
    }
  }

  // Writers can go on

  /** A session that does nothing can lock a free tape and then record any batch that continues it, and
      release the lock before or after its first file is inserted. */
  lemma WriteIsPossible(st: State, s: nat, vid: string, b: Batch, n: nat)
    requires PhaseOf(st, s).Outside? && vid in st.last && b != [] && ItemsFollow(b, vid, st.last[vid] + 1, false)
    requires forall t :: PhaseOf(st, t).Holding? ==> PhaseOf(st, t).vid != vid
    ensures Enabled(st, Lock(s, vid)) && Enabled(Do(st, Lock(s, vid)), Publish(s, b))
    ensures Files(b) != [] && n <= 1 ==> Enabled(Do(st, Lock(s, vid)), Release(s, b, n))
  {
    assert forall t :: t in st.sessions ==> PhaseOf(st, t) == st.sessions[t];
  }

  /** A session that has released the lock can insert all its remaining files and then begin anew. */
  lemma {:induction false} DrainsToTheEnd(st: State, s: nat) returns (end: State, n: nat)
    requires Consistent(st) && PhaseOf(st, s).Draining? && PhaseOf(st, s).rest != []
    ensures n == |PhaseOf(st, s).rest| && Drains(st, s, n, end)
    ensures PhaseOf(end, s).Outside? && end.rows.Keys == st.rows.Keys + Waiting(st, s)
    decreases |PhaseOf(st, s).rest|
  {
    var st1 := Do(st, Drain(s));
    var rest := PhaseOf(st, s).rest;
    NothingForgotten(st, Drain(s));
    if |rest| == 1 {
      end, n := st1, 1;
      assert Drains(st1, s, 0, end);
    } else {
      DrainKeepsConsistent(st, s);
      end, n := DrainsToTheEnd(st1, s);
      n := n + 1;
    }
  }

  /** `n` insertions of session `s`, one after the other. */
  ghost predicate Drains(st: State, s: nat, n: nat, end: State)
    decreases n
  {
    if n == 0 then end == st else Enabled(st, Drain(s)) && Drains(Do(st, Drain(s)), s, n - 1, end)
  }

  // No recorded file is forgotten

  /** The positions at which a session still has to insert. */
  function Waiting(st: State, s: nat): set<Pos> {
    if PhaseOf(st, s).Draining? then FilePositions(PhaseOf(st, s).rest) else {}
  }

  lemma PositionsSplit(fs: seq<FileEvent>, n: nat)
    requires Ascending(fs) && n <= |fs|
    ensures FilePositions(fs[..n]) + FilePositions(fs[n..]) == FilePositions(fs)
    ensures FilePositions(fs[..n]) !! FilePositions(fs[n..])
  {
    forall p | p in FilePositions(fs) ensures p in FilePositions(fs[..n]) + FilePositions(fs[n..]) {
      var k :| 0 <= k < |fs| && p == PosOf(fs[k]);
      if k < n { assert p == PosOf(fs[..n][k]); } else { assert p == PosOf(fs[n..][k - n]); }
    }
    forall p | p in FilePositions(fs[n..]) ensures p in FilePositions(fs) && p !in FilePositions(fs[..n]) {
      var k :| 0 <= k < |fs[n..]| && p == PosOf(fs[n..][k]);
      assert p == PosOf(fs[n + k]);
    }
    forall p | p in FilePositions(fs[..n]) ensures p in FilePositions(fs) {
      var k :| 0 <= k < n && p == PosOf(fs[..n][k]);
      assert p == PosOf(fs[k]);
    }
  }

  lemma FirstPosition(fs: seq<FileEvent>)
    requires fs != []
    ensures FilePositions(fs[..1]) == {PosOf(fs[0])}
  {
    assert fs[..1][0] == fs[0];
  }

  /** The rows are those before and the inserted ones, which are the session's, and no other session
      has changed. */
  ghost predicate InsertsFor(st: State, s: nat, inserted: set<Pos>, st': State) {
    && st'.rows.Keys == st.rows.Keys + inserted
    && (forall p :: p in st'.rows ==> st'.rows[p] == if p in inserted then s else st.rows[p])
    && (forall t :: t != s ==> PhaseOf(st', t) == PhaseOf(st, t))
  }

  lemma InsertGives(rows: map<Pos, nat>, ps: set<Pos>, s: nat)
    ensures Insert(rows, ps, s).Keys == rows.Keys + ps
    ensures forall p :: p in rows || p in ps ==> Insert(rows, ps, s)[p] == if p in ps then s else rows[p]
  {
  }

  lemma WritingInserts(st: State, a: Action)
    requires Enabled(st, a) && (a.Publish? || a.Release? || a.Drain?)
    ensures InsertsFor(st, a.s, Inserted(st, a), Do(st, a))
  {
    var st', inserted := Do(st, a), Inserted(st, a);
    assert st'.rows == Insert(st.rows, inserted, a.s);
    InsertGives(st.rows, inserted, a.s);
    assert st'.sessions == st.sessions[a.s := st'.sessions[a.s]];
  }

  lemma BatchDivides(st: State, s: nat, b: Batch, n: nat)
    requires Consistent(st) && Enabled(st, Release(s, b, n))
    ensures var a := Release(s, b, n);
            && Inserted(st, a) !! Waiting(Do(st, a), s)
            && Inserted(st, a) + Waiting(Do(st, a), s) == FilePositions(Files(b))
  {
    PublishContinues(st, s, b);
    PositionsSplit(Files(b), n);
  }

  lemma RestDivides(st: State, s: nat)
    requires Consistent(st) && Enabled(st, Drain(s))
    ensures var a := Drain(s);
            Inserted(st, a) !! Waiting(Do(st, a), s) && Inserted(st, a) + Waiting(Do(st, a), s) == Waiting(st, s)
  {
    var rest := st.sessions[s].rest;
    PositionsSplit(rest, 1);
    FirstPosition(rest);
  }

  /** A writing session inserts each of its files or keeps it for later: a batch divides into the rows
      inserted at once and those still waiting, and so does what was waiting when one more is inserted. */
  lemma NothingForgotten(st: State, a: Action)
    requires Consistent(st) && Enabled(st, a) && (a.Publish? || a.Release? || a.Drain?)
    ensures Inserted(st, a) !! Waiting(Do(st, a), a.s)
    ensures Inserted(st, a) + Waiting(Do(st, a), a.s) ==
            if a.Drain? then Waiting(st, a.s) else FilePositions(Files(a.b))
    ensures a.Publish? ==> Waiting(Do(st, a), a.s) == {}
    ensures InsertsFor(st, a.s, Inserted(st, a), Do(st, a))
  {
    WritingInserts(st, a);
    match a
    case Publish(s, b) =>
    case Release(s, b, n) => BatchDivides(st, s, b, n);
    case Drain(s) => RestDivides(st, s);
  }

  /** A file has been recorded at position `p` of its tape. */
  predicate FileAt(st: State, p: Pos) {
    && p.vid in st.items && 1 <= p.fSeq <= |st.items[p.vid]|
    && st.items[p.vid][p.fSeq - 1].File?
  }

  /** The file recorded at `p` has a row or is about to get one. */
  ghost predicate Accessible(st: State, p: Pos) {
    p in st.rows || exists s :: p in Waiting(st, s)
  }

  /** A deletion takes a row away, and a session that breaks off never inserts what it still had. */
  predicate Loses(st: State, a: Action, p: Pos) {
    match a
    case Delete(q) => p == q
    case Abort(s) => p in Waiting(st, s)
    case _ => false
  }

  lemma {:induction false} FileOfBatch(b: seq<Event>, k: nat)
    requires k < |b| && b[k].File?
    ensures PosOf(b[k]) in FilePositions(Files(b))
  {
    if k == 0 {
      assert PosOf(Files(b)[0]) == PosOf(b[0]);
    } else {
      FileOfBatch(b[1..], k - 1);
      var fs := Files(b[1..]);
      var i :| 0 <= i < |fs| && PosOf(fs[i]) == PosOf(b[k]);
      assert PosOf(Files(b)[if b[0].File? then i + 1 else i]) == PosOf(b[k]);
    }
  }

  lemma AdvanceItems(items: seq<Event>, b: seq<Event>, vid: string, k: nat)
    requires ItemsFollow(b, vid, |items| + 1, false) && |items| <= k < |items + b| && (items + b)[k].File?
    ensures Pos(vid, k + 1) in FilePositions(Files(b))
  {
    var i := k - |items|;
    assert (items + b)[k] == b[i];
    FileOfBatch(b, i);
    assert PosOf(b[i]) == Pos(vid, k + 1);
  }

  /** A file recorded by this action is one of the batch. */
  lemma NewFileIsOfBatch(st: State, a: Action, p: Pos)
    requires Exclusive(st) && Accounted(st) && Enabled(st, a) && FileAt(Do(st, a), p) && !FileAt(st, p)
    ensures (a.Publish? || a.Release?) && p in FilePositions(Files(a.b))
  {
    if a.Publish? || a.Release? {
      PublishFollows(st, a.s, a.b);
      var vid := a.b[0].vid;
      var items := st.items[vid];
      assert Do(st, a).items == st.items[vid := items + a.b];
      assert p.vid == vid && |items| < p.fSeq;
      AdvanceItems(items, a.b, vid, p.fSeq - 1);
    }
  }

  lemma StaysAccessible(st: State, a: Action, p: Pos)
    requires Consistent(st) && Enabled(st, a) && Accessible(st, p) && !Loses(st, a, p)
    ensures Accessible(Do(st, a), p)
  {
    var st' := Do(st, a);
    if a.Publish? || a.Release? || a.Drain? {
      NothingForgotten(st, a);
    }
    if p !in st'.rows {
      var s :| p in Waiting(st, s);
      assert p in Waiting(st', s);
    }
  }

  lemma NewFileIsAccessible(st: State, a: Action, p: Pos)
    requires Consistent(st) && Enabled(st, a) && (a.Publish? || a.Release?) && p in FilePositions(Files(a.b))
    ensures Accessible(Do(st, a), p)
  {
    NothingForgotten(st, a);
    assert p in Inserted(st, a) || p in Waiting(Do(st, a), a.s);
  }

  /** What is lost in this way has no row afterwards, nor a session that will insert it. */
  lemma LostIsLost(st: State, a: Action, p: Pos)
    requires Consistent(st) && Enabled(st, a) && Loses(st, a, p)
    ensures !Accessible(Do(st, a), p)
  {
    var st' := Do(st, a);
    if a.Abort? { WaitingIsOwned(st, a.s, p); }
    forall s ensures p !in Waiting(st', s) {
      if p in Waiting(st, s) { WaitingIsOwned(st, s, p); }
    }
  }

  lemma WaitingIsOwned(st: State, s: nat, p: Pos)
    requires Consistent(st) && p in Waiting(st, s)
    ensures Owns(st, s, p) && p !in st.rows
  {
    var rest := st.sessions[s].rest;
    var k :| 0 <= k < |rest| && p == PosOf(rest[k]);
  }

  /** In every schedule: a recorded file without a row, and without a session that will insert it, was
      deleted or its session had broken off. */
  lemma {:induction false} FilesAreAccessible(states: seq<State>, actions: seq<Action>, i: nat, p: Pos)
    requires Schedule(states, actions) && i < |states| && FileAt(states[i], p)
    ensures Accessible(states[i], p) || exists j :: 0 <= j < i && Loses(states[j], actions[j], p)
  {
    if i > 0 {
      var st, a := states[i - 1], actions[i - 1];
      SchedulesAreSafe(states, actions, i - 1);
      assert StepAt(states, actions, i - 1);
      if !FileAt(st, p) {
        NewFileIsOfBatch(st, a, p);
        NewFileIsAccessible(st, a, p);
      } else {
        FilesAreAccessible(states, actions, i - 1, p);
        if Accessible(st, p) && !Loses(st, a, p) { StaysAccessible(st, a, p); }
      }
    }
  }

  /** The tape is written between the check and the reset: its position 1 would be given again. */
  lemma WrittenWhileReclaimed(b: Batch, s: nat)
    requires b == [File("V", 1, "d", 1, "i", "f", 1, 1, 5, map[1 := "c"], "c", 0, 1)]
    ensures var written := Do(Do(Do(State(map[], map[], map[], map[], map[], map[]), AddTape("V")), Lock(s, "V")),
                              Publish(s, b));
            Enabled(written, Reset("V")) && !Consistent(Do(written, Reset("V")))
  {
    var empty := State(map[], map[], map[], map[], map[], map[]);
    var locked := Do(Do(empty, AddTape("V")), Lock(s, "V"));
    var written := Do(locked, Publish(s, b));
    var fs: seq<FileEvent> := [b[0]];
    assert Files(b) == fs by { assert b[1..] == []; }
    assert Pos("V", 1) in FilePositions(Files(b)) by { assert PosOf(Files(b)[0]) == Pos("V", 1); }
    assert Pos("V", 1) in written.rows;
    assert !Owns(Do(written, Reset("V")), written.rows[Pos("V", 1)], Pos("V", 1));
  }
}

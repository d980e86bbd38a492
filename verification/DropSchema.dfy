/** Dropping all tables of a database by repeated passes over the table names. */
module DropSchema {

  /** A pair (u, t): table u has a foreign key to table t. */
  type References = set<(string, string)>

  /** Another existing table refers to `t`; then DROP TABLE fails. */
  predicate Referenced(tables: set<string>, refs: References, t: string) {
    exists u :: u in tables && u != t && (u, t) in refs
  }

  class Database {
    const refs: References
    var tables: set<string>

    constructor (tables: set<string>, refs: References)
      ensures this.tables == tables && this.refs == refs
    {
      this.tables, this.refs := tables, refs;
    }

    /** The names of the tables in whatever order the database lists them. */
    method TableNames() returns (names: seq<string>)
      ensures forall t :: t in names <==> t in tables
    {
      names := [];
      var rest := tables;
      while rest != {}
        invariant rest <= tables && forall t :: t in names <==> t in tables - rest
        decreases rest
      {
        var t :| t in rest;
        names, rest := names + [t], rest - {t};
      }
    }

    method DropTable(t: string) returns (ok: bool)
      modifies this
      ensures ok <==> t in old(tables) && !Referenced(old(tables), refs, t)
      ensures tables == if ok then old(tables) - {t} else old(tables)
    {
      ok := t in tables && !Referenced(tables, refs, t);
      if ok { tables := tables - {t}; }
    }
  }

  /** Each table of the set is referred to by another one of it, so none can be dropped first. */
  predicate Stuck(s: set<string>, refs: References) {
    forall t :: t in s ==> Referenced(s, refs, t)
  }

  /** `s` is the largest stuck set within `tables`. */
  ghost predicate LargestStuck(s: set<string>, tables: set<string>, refs: References) {
    s <= tables && Stuck(s, refs) && forall other :: other <= tables && Stuck(other, refs) ==> other <= s
  }

  /** dropDatabaseTables.  What is left over does not depend on the order of the names. */
  method DropDatabaseTables(db: Database) returns (ok: bool, passes: nat)
    modifies db
    ensures LargestStuck(db.tables, old(db.tables), db.refs)
    ensures ok <==> db.tables == {}
    ensures ok <==> !exists cycle :: IsCycle(cycle, old(db.tables), db.refs)
    ensures passes <= |old(db.tables)| + 1
  {
    ghost var initial := db.tables;
    passes := 0;
    var dropped := true;
    while dropped
      invariant db.tables <= initial
      invariant forall s :: s <= initial && Stuck(s, db.refs) ==> s <= db.tables
      invariant !dropped ==> Stuck(db.tables, db.refs)
      invariant passes + |db.tables| <= |initial| + if dropped then 0 else 1
      decreases |db.tables|, dropped
    {
      dropped, passes := DropPass(db, passes);
    }
    ok := db.tables == {};
    NoneLeftIffAcyclic(db.tables, initial, db.refs);
  }

  /** One pass over the names. */
  method DropPass(db: Database, count: nat) returns (dropped: bool, count': nat)
    modifies db
    ensures count' == count + 1 && db.tables <= old(db.tables)
    ensures forall s :: s <= old(db.tables) && Stuck(s, db.refs) ==> s <= db.tables
    ensures dropped ==> |db.tables| < |old(db.tables)|
    ensures !dropped ==> db.tables == old(db.tables) && Stuck(db.tables, db.refs)
  {
    ghost var before := db.tables;
    dropped, count' := false, count + 1;
    var names := db.TableNames();
    for i := 0 to |names|
      invariant db.tables <= before
      invariant forall s :: s <= before && Stuck(s, db.refs) ==> s <= db.tables
      invariant dropped ==> |db.tables| < |before|
      invariant !dropped ==> db.tables == before && forall k :: 0 <= k < i ==> Referenced(before, db.refs, names[k])
    {
      ghost var tables := db.tables;
      var ok := db.DropTable(names[i]);
      if ok {
        dropped := true;
        DropSparesStuck(before, tables, db.refs, names[i]);
      }
    }
  }

  /** A table that can be dropped is in no stuck set. */
  lemma DropSparesStuck(before: set<string>, tables: set<string>, refs: References, t: string)
    requires t in tables && !Referenced(tables, refs, t) && tables <= before
    requires forall s :: s <= before && Stuck(s, refs) ==> s <= tables
    ensures forall s :: s <= before && Stuck(s, refs) ==> s <= tables - {t}
    ensures |tables - {t}| < |tables| <= |before|
  {
    forall s | s <= before && Stuck(s, refs) ensures t !in s {
      if t in s { assert false; }
    }
    SubsetCard(tables, before);
  }

  lemma SubsetCard<T>(a: set<T>, b: set<T>)
    requires a <= b
    ensures |a| <= |b|
  {
    assert b == a + (b - a);
  }

  /** Two orders of the names leave the same tables. */
  lemma LargestStuckIsUnique(s: set<string>, s': set<string>, tables: set<string>, refs: References)
    requires LargestStuck(s, tables, refs) && LargestStuck(s', tables, refs)
    ensures s == s'
  {
    assert s <= s' && s' <= s;
  }

  // Stuck sets and cycles

  /** `t` refers to `u`, a different table. */
  predicate RefersTo(refs: References, t: string, u: string) {
    t != u && (t, u) in refs
  }

  /** Each table of the sequence refers to the next one, and the last one to the first. */
  ghost predicate IsCycle(p: seq<string>, tables: set<string>, refs: References) {
    && p != [] && (forall i :: 0 <= i < |p| ==> p[i] in tables)
    && (forall i, j :: 0 <= i < j < |p| && j == i + 1 ==> RefersTo(refs, p[i], p[j]))
    && RefersTo(refs, p[|p| - 1], p[0])
  }

  lemma CycleIsStuck(p: seq<string>, tables: set<string>, refs: References)
    requires IsCycle(p, tables, refs)
    ensures Stuck((set t | t in p), refs) && (set t | t in p) <= tables && (set t | t in p) != {}
  {
    var s := set t | t in p;
    assert p[0] in s;
    forall t | t in s ensures Referenced(s, refs, t) {
      var j :| 0 <= j < |p| && p[j] == t;
      var i := if j == 0 then |p| - 1 else j - 1;
      assert RefersTo(refs, p[i], p[j]) && p[i] in s;
    }
  }

  /** Following references backwards within a stuck set never ends. */
  lemma {:induction false} WalkBack(s: set<string>, refs: References, n: nat) returns (w: seq<string>)
    requires s != {} && Stuck(s, refs)
    ensures |w| == n + 1 && forall i :: 0 <= i < |w| ==> w[i] in s
    ensures forall i, j :: 0 <= i < j < |w| && j == i + 1 ==> RefersTo(refs, w[j], w[i])
  {
    if n == 0 {
      var t :| t in s;
      w := [t];
    } else {
      var v := WalkBack(s, refs, n - 1);
      var u :| u in s && u != v[n - 1] && (u, v[n - 1]) in refs;
      w := v + [u];
    }
  }

  lemma {:induction false} DistinctFits(w: seq<string>, s: set<string>)
    requires forall i :: 0 <= i < |w| ==> w[i] in s
    requires forall i, j :: 0 <= i < j < |w| ==> w[i] != w[j]
    ensures |w| <= |s|
  {
    if w != [] {
      var last := w[|w| - 1];
      DistinctFits(w[..|w| - 1], s - {last});
    }
  }

  lemma Reversed(w: seq<string>, i: nat, j: nat) returns (p: seq<string>)
    requires i < j <= |w|
    ensures |p| == j - i && forall k :: 0 <= k < |p| ==> p[k] == w[j - 1 - k]
  {
    p := seq(j - i, k requires 0 <= k < j - i => w[j - 1 - k]);
  }

  lemma StuckHasCycle(s: set<string>, tables: set<string>, refs: References) returns (p: seq<string>)
    requires s != {} && s <= tables && Stuck(s, refs)
    ensures IsCycle(p, tables, refs)
  {
    var w := WalkBack(s, refs, |s|);
    if forall i, j :: 0 <= i < j < |w| ==> w[i] != w[j] {
      DistinctFits(w, s);
      assert false;
    }
    var i, j :| 0 <= i < j < |w| && w[i] == w[j];
    p := Reversed(w, i, j);
    forall a, b | 0 <= a < b < |p| && b == a + 1 ensures RefersTo(refs, p[a], p[b]) {
      assert p[a] == w[j - 1 - a] && p[b] == w[j - 1 - b];
    }
    assert RefersTo(refs, w[j], w[j - 1]);
    assert p[0] == w[j - 1] && p[|p| - 1] == w[i];
  }

  /** Everything can be dropped exactly when references between distinct tables form no cycle. */
  lemma NoneLeftIffAcyclic(left: set<string>, tables: set<string>, refs: References)
    requires LargestStuck(left, tables, refs)
    ensures left == {} <==> !exists cycle :: IsCycle(cycle, tables, refs)
  {
    if left != {} {
      var p := StuckHasCycle(left, tables, refs);
    } else if p :| IsCycle(p, tables, refs) {
      CycleIsStuck(p, tables, refs);
      assert false;
    }
  }
}

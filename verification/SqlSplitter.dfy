/** Splitting the text of a schema into its SQL statements, for reading and for executing. */
module SqlSplitter {

  predicate IsSpace(c: char) {
    c in {'\t', '\n', '\U{0B}', '\U{0C}', '\r', ' '}
  }

  predicate Blank(s: string) {
    forall i :: 0 <= i < |s| ==> IsSpace(s[i])
  }

  /** Neither starts nor ends with white space. */
  predicate Trimmed(s: string) {
    s != "" ==> !IsSpace(s[0]) && !IsSpace(s[|s| - 1])
  }

  function TrimLeft(s: string): string {
    if s != "" && IsSpace(s[0]) then TrimLeft(s[1..]) else s
  }

  function TrimRight(s: string): string {
    if s != "" && IsSpace(s[|s| - 1]) then TrimRight(s[..|s| - 1]) else s
  }

  lemma {:induction false} TrimLeftCuts(s: string)
    ensures var r := TrimLeft(s);
            |r| <= |s| && r == s[|s| - |r|..] && Blank(s[..|s| - |r|]) && (r != "" ==> !IsSpace(r[0]))
  {
    if s != "" && IsSpace(s[0]) {
      TrimLeftCuts(s[1..]);
      var n := |s| - |TrimLeft(s)|;
      assert s[..n] == [s[0]] + s[1..][..n - 1];
    }
  }

  lemma {:induction false} TrimRightCuts(s: string)
    ensures var r := TrimRight(s);
            |r| <= |s| && r == s[..|r|] && Blank(s[|r|..]) && (r != "" ==> !IsSpace(r[|r| - 1]))
  {
    if s != "" && IsSpace(s[|s| - 1]) {
      TrimRightCuts(s[..|s| - 1]);
      var n := |TrimRight(s)|;
      assert s[n..] == s[..|s| - 1][n..] + [s[|s| - 1]];
    }
  }

  /** utils::trimString */
  function Trim(s: string): string {
    TrimRight(TrimLeft(s))
  }

  /** What is cut off on both sides is white space, and no more of it is left there. */
  lemma TrimCutsBlanks(s: string) returns (i: nat)
    ensures Trimmed(Trim(s)) && i + |Trim(s)| <= |s| && Trim(s) == s[i..i + |Trim(s)|]
    ensures Blank(s[..i]) && Blank(s[i + |Trim(s)|..])
  {
    var left := TrimLeft(s);
    var r := Trim(s);
    TrimLeftCuts(s);
    TrimRightCuts(left);
    i := |s| - |left|;
    assert s[i + |r|..] == left[|r|..];
    assert r != "" ==> left[0] == r[0];
  }

  lemma TrimmedStays(s: string)
    requires Trimmed(s)
    ensures Trim(s) == s
  {
  }

  /** The position of the first semicolon at or after `from`. */
  function FindFrom(s: string, from: nat): (k: nat)
    requires from <= |s|
    ensures from <= k <= |s|
    decreases |s| - from
  {
    if from == |s| || s[from] == ';' then from else FindFrom(s, from + 1)
  }

  lemma {:induction false} FindFromExact(s: string, from: nat)
    requires from <= |s|
    ensures forall i :: from <= i < FindFrom(s, from) ==> s[i] != ';'
    ensures FindFrom(s, from) < |s| ==> s[FindFrom(s, from)] == ';'
    decreases |s| - from
  {
    if from < |s| && s[from] != ';' { FindFromExact(s, from + 1); }
  }

  /** The non-empty trimmed texts in front of the semicolons of `s` from position `from`; what
      follows the last semicolon is ignored. */
  function StatementsFrom(s: string, from: nat): seq<string>
    requires from <= |s|
    decreases |s| - from
  {
    var k := FindFrom(s, from);
    if k == |s| then [] else Before(Trim(s[from..k]), StatementsFrom(s, k + 1))
  }

  /** A text in front of a semicolon counts unless it is empty. */
  function Before(t: string, rest: seq<string>): seq<string> {
    if t == "" then rest else [t] + rest
  }

  function Statements(s: string): seq<string> {
    StatementsFrom(s, 0)
  }

  function Terminated(stmts: seq<string>): seq<string> {
    seq(|stmts|, i requires 0 <= i < |stmts| => stmts[i] + ";")
  }

  /** getAllStatementsFromSchema: the statements, each with its semicolon put back. */
  method GetAllStatementsFromSchema(schema: string) returns (statements: seq<string>)
    ensures statements == Terminated(Statements(schema))
    ensures Statements(Concat(statements)) == Statements(schema)
  {
    statements := [];
    ghost var plain := [];
    var searchPos := 0;
    var findResult := FindFrom(schema, searchPos);
    while findResult < |schema|
      invariant searchPos <= findResult <= |schema| && findResult == FindFrom(schema, searchPos)
      invariant plain + StatementsFrom(schema, searchPos) == Statements(schema)
      invariant statements == Terminated(plain)
      decreases |schema| - searchPos
    {
      var sqlStmt := Trim(schema[searchPos..findResult]);
      searchPos := findResult + 1;
      if 0 < |sqlStmt| {
        statements := statements + [sqlStmt + ";"];
        plain := plain + [sqlStmt];
      }
      findResult := FindFrom(schema, searchPos);
    }
    TerminatedSplit(schema);
  }

  function Concat(pieces: seq<string>): string {
    if pieces == [] then "" else pieces[0] + Concat(pieces[1..])
  }

  /** Putting the semicolons back and concatenating is joining. */
  lemma {:induction false} TerminatedJoins(stmts: seq<string>)
    ensures Concat(Terminated(stmts)) == Join(stmts)
  {
    if stmts != [] {
      TerminatedJoins(stmts[1..]);
      assert Terminated(stmts)[1..] == Terminated(stmts[1..]);
    }
  }

  class Connection {
    const rejected: set<string>   // statements that make the database raise an error
    var executed: seq<string>

    constructor (rejected: set<string>)
      ensures this.rejected == rejected && executed == []
    {
      this.rejected, executed := rejected, [];
    }

    method ExecuteNonQuery(sql: string) returns (ok: bool)
      modifies this
      ensures ok <==> sql !in rejected
      ensures executed == if ok then old(executed) + [sql] else old(executed)
    {
      ok := sql !in rejected;
      if ok { executed := executed + [sql]; }
    }
  }

  /** executeNonQueries: the statements in order, up to the first one that fails. */
  method ExecuteNonQueries(conn: Connection, sqlStmts: string) returns (ok: bool, ghost n: nat)
    modifies conn
    ensures n <= |Statements(sqlStmts)| && conn.executed == old(conn.executed) + Statements(sqlStmts)[..n]
    ensures forall i :: 0 <= i < n ==> Statements(sqlStmts)[i] !in conn.rejected
    ensures ok <==> n == |Statements(sqlStmts)|
    ensures !ok ==> Statements(sqlStmts)[n] in conn.rejected
  {
    n := 0;
    ghost var all := Statements(sqlStmts);
    var searchPos := 0;
    var findResult := FindFrom(sqlStmts, searchPos);
    while findResult < |sqlStmts|
      invariant searchPos <= findResult <= |sqlStmts| && findResult == FindFrom(sqlStmts, searchPos)
      invariant n <= |all| && StatementsFrom(sqlStmts, searchPos) == all[n..]
      invariant conn.executed == old(conn.executed) + all[..n]
      invariant forall i :: 0 <= i < n ==> all[i] !in conn.rejected
      decreases |sqlStmts| - searchPos
    {
      var sqlStmt := Trim(sqlStmts[searchPos..findResult]);
      searchPos := findResult + 1;
      if 0 < |sqlStmt| {
        assert all[n..][0] == all[n] == sqlStmt && all[n..][1..] == all[n + 1..];
        ok := conn.ExecuteNonQuery(sqlStmt);
        if !ok { return; }
        assert all[..n + 1] == all[..n] + [all[n]];
        n := n + 1;
      }
      findResult := FindFrom(sqlStmts, searchPos);
    }
    ok := true;
  }

  // Round trips

  /** A statement as the splitter produces it. */
  predicate Clean(t: string) {
    t != "" && Trimmed(t) && ';' !in t
  }

  function Join(stmts: seq<string>): string {
    if stmts == [] then "" else stmts[0] + ";" + Join(stmts[1..])
  }

  lemma {:induction false} StatementsAreClean(s: string, from: nat)
    requires from <= |s|
    ensures forall i :: 0 <= i < |StatementsFrom(s, from)| ==> Clean(StatementsFrom(s, from)[i])
    decreases |s| - from
  {
    var k := FindFrom(s, from);
    if k < |s| {
      StatementsAreClean(s, k + 1);
      FindFromExact(s, from);
      var piece := s[from..k];
      var t := Trim(piece);
      var i := TrimCutsBlanks(piece);
      assert forall j :: 0 <= j < |t| ==> t[j] == s[from + i + j];
    }
  }

  lemma SliceBehind(a: string, b: string, i: nat, j: nat)
    requires i <= j <= |b|
    ensures (a + b)[|a| + i..|a| + j] == b[i..j]
  {
  }

  lemma SplitUnfold(s: string, i: nat, piece: string, rest: seq<string>)
    requires i <= |s| && FindFrom(s, i) < |s| && piece == s[i..FindFrom(s, i)]
    requires rest == StatementsFrom(s, FindFrom(s, i) + 1)
    ensures StatementsFrom(s, i) == Before(Trim(piece), rest)
  {
  }

  lemma SplitEnd(s: string, i: nat)
    requires i <= |s| && FindFrom(s, i) == |s|
    ensures StatementsFrom(s, i) == []
  {
  }

  /** Splitting does not depend on what has already been split off. */
  lemma {:induction false} SplitBehind(a: string, b: string, from: nat)
    requires from <= |b|
    ensures StatementsFrom(a + b, |a| + from) == StatementsFrom(b, from)
    decreases |b| - from
  {
    var k := FindFrom(b, from);
    FindBehind(a, b, from);
    if k < |b| {
      SplitBehind(a, b, k + 1);
      SliceBehind(a, b, from, k);
      var piece, rest := b[from..k], StatementsFrom(b, k + 1);
      SplitUnfold(a + b, |a| + from, piece, rest);
      SplitUnfold(b, from, piece, rest);
    } else {
      SplitEnd(a + b, |a| + from);
      SplitEnd(b, from);
    }
  }

  lemma {:induction false} FindBehind(a: string, b: string, from: nat)
    requires from <= |b|
    ensures FindFrom(a + b, |a| + from) == |a| + FindFrom(b, from)
    decreases |b| - from
  {
    if from < |b| && b[from] != ';' { FindBehind(a, b, from + 1); }
  }

  lemma FirstSemicolon(t: string, rest: string)
    requires ';' !in t
    ensures FindFrom(t + ";" + rest, 0) == |t|
  {
    var s := t + ";" + rest;
    FindFromExact(s, 0);
    assert s[|t|] == ';' && forall i :: 0 <= i < |t| ==> s[i] == t[i];
  }

  lemma SplitFirst(t: string, rest: string)
    requires Clean(t)
    ensures Statements(t + ";" + rest) == [t] + Statements(rest)
  {
    var s := t + ";" + rest;
    FirstSemicolon(t, rest);
    TrimmedStays(t);
    SplitBehind(t + ";", rest, 0);
    SplitUnfold(s, 0, t, Statements(rest));
  }

  /** Any list of clean statements survives joining and splitting. */
  lemma {:induction false} SplitJoin(stmts: seq<string>)
    requires forall i :: 0 <= i < |stmts| ==> Clean(stmts[i])
    ensures Statements(Join(stmts)) == stmts
  {
    if stmts != [] {
      SplitFirst(stmts[0], Join(stmts[1..]));
      SplitJoin(stmts[1..]);
    }
  }

  lemma TerminatedSplit(schema: string)
    ensures Statements(Concat(Terminated(Statements(schema)))) == Statements(schema)
  {
    TerminatedJoins(Statements(schema));
    SplitJoinSplit(schema);
  }

  /** Splitting, concatenating the pieces and splitting again gives the same list. */
  lemma SplitJoinSplit(schema: string)
    ensures Statements(Join(Statements(schema))) == Statements(schema)
  {
    StatementsAreClean(schema, 0);
    SplitJoin(Statements(schema));
  }
}

/** Comparing the schema of a database with the expected one. */
module SchemaCompare {
  import opened Options

  datatype Status = Success | Failed

  class SchemaCheckerResult {
    var errors: seq<string>
    var warnings: seq<string>
    var status: Status

    /** The status never contradicts the list of errors. */
    predicate Valid()
      reads this
    {
      status == if errors == [] then Success else Failed
    }

    constructor ()
      ensures Valid() && errors == [] && warnings == []
    {
      errors, warnings, status := [], [], Success;
    }

    method AddError(error: string)
      modifies this
      ensures Valid() && errors == old(errors) + [error] && warnings == old(warnings)
    {
      errors, status := errors + [error], Failed;
    }

    method AddWarning(warning: string)
      requires Valid()
      modifies this
      ensures Valid() && errors == old(errors) && warnings == old(warnings) + [warning]
    {
      warnings := warnings + [warning];
    }

    /** operator += ; a failed status does not change. */
    method Append(other: SchemaCheckerResult)
      requires Valid() && other.Valid()
      modifies this
      ensures Valid() && errors == old(errors) + old(other.errors) && warnings == old(warnings) + old(other.warnings)
    {
      var theirs := other.status;
      errors, warnings := errors + other.errors, warnings + other.warnings;
      if status == Success { status := theirs; }
    }
  }

  predicate SameItems(a: seq<string>, b: seq<string>) {
    (forall x :: x in a ==> x in b) && (forall x :: x in b ==> x in a)
  }

  function MissingInSchema(itemType: string, item: string, database: string): string {
    itemType + " " + item + " is missing in the schema but defined in the " + database + " database."
  }

  function MissingInDatabase(itemType: string, item: string, database: string): string {
    itemType + " " + item + " is missing in the " + database + " database but is defined in the schema."
  }

  /** `x` is the error for an item that only one side has. */
  ghost predicate IsItemError(itemType: string, database: string, inDatabase: seq<string>, inSchema: seq<string>,
                              x: string)
  {
    || (exists i :: i in inDatabase && i !in inSchema && x == MissingInSchema(itemType, i, database))
    || (exists i :: i in inSchema && i !in inDatabase && x == MissingInDatabase(itemType, i, database))
  }

  /** compareItems: succeeds exactly when both sides have the same items; the errors are exactly the
      differences. */
  method CompareItems(itemType: string, database: string, inDatabase: seq<string>, inSchema: seq<string>)
    returns (r: SchemaCheckerResult)
    ensures fresh(r) && r.Valid() && (r.status.Success? <==> SameItems(inDatabase, inSchema))
    ensures forall x :: x in r.errors <==> IsItemError(itemType, database, inDatabase, inSchema, x)
  {
    r := new SchemaCheckerResult();
    for i := 0 to |inDatabase|
      invariant fresh(r) && r.Valid()
      invariant r.errors == [] <==> forall k :: 0 <= k < i ==> inDatabase[k] in inSchema
      invariant forall x :: x in r.errors <==> exists k :: 0 <= k < i && inDatabase[k] !in inSchema
                                                            && x == MissingInSchema(itemType, inDatabase[k], database)
    {
      if inDatabase[i] !in inSchema { r.AddError(MissingInSchema(itemType, inDatabase[i], database)); }
    }
    ghost var first := r.errors;
    for i := 0 to |inSchema|
      invariant fresh(r) && r.Valid()
      invariant r.errors == [] <==> first == [] && forall k :: 0 <= k < i ==> inSchema[k] in inDatabase
      invariant forall x :: x in r.errors <==>
                  x in first || exists k :: 0 <= k < i && inSchema[k] !in inDatabase
                                            && x == MissingInDatabase(itemType, inSchema[k], database)
    {
      if inSchema[i] !in inDatabase { r.AddError(MissingInDatabase(itemType, inSchema[i], database)); }
    }
  }

  type Columns = map<string, string>
  type TableColumns = map<string, Columns>

  predicate ColumnsWithin(a: Columns, b: Columns) {
    forall c :: c in a ==> c in b && a[c] == b[c]
  }

  predicate TablesWithin(a: TableColumns, b: TableColumns) {
    forall t :: t in a ==> t in b && ColumnsWithin(a[t], b[t])
  }

  lemma WithinBothWays(a: TableColumns, b: TableColumns)
    ensures TablesWithin(a, b) && TablesWithin(b, a) <==> a == b
  {
    if TablesWithin(a, b) && TablesWithin(b, a) {
      forall t | t in a ensures a[t] == b[t] {
        assert a[t].Keys == b[t].Keys;
      }
      assert a.Keys == b.Keys;
    }
  }

  method KeysOf<V>(m: map<string, V>) returns (keys: seq<string>)
    ensures forall k :: k in keys <==> k in m
  {
    keys := [];
    var rest := m.Keys;
    while rest != {}
      invariant rest <= m.Keys && forall k :: k in keys <==> k in m.Keys - rest
      decreases rest
    {
      var k :| k in rest;
      keys, rest := keys + [k], rest - {k};
    }
  }

  /** The error for column `c` of table `t`, if it differs. */
  function ColumnError(t: string, c: string, a: Columns, b: Columns, from: string, to: string): Option<string>
    requires c in a
  {
    if c !in b
    then Some("TABLE " + t + " from " + from + " has a column named " + c + " that is missing in the " + to + ".")
    else if a[c] != b[c]
    then Some("TABLE " + t + " from " + from + " has a column named " + c + " that has a type " + a[c]
              + " that does not match the column type from the " + to + " (" + b[c] + ")")
    else None
  }

  function MissingTable(t: string, from: string, to: string): string {
    "TABLE " + t + " is missing in the " + to + " but is defined in the " + from + "."
  }

  ghost predicate IsColumnError(t: string, a: Columns, b: Columns, from: string, to: string, x: string) {
    exists c :: c in a && ColumnError(t, c, a, b, from, to) == Some(x)
  }

  /** `x` is the error for a table or column of `a` that is not in `b`, or for a column whose type
      differs. */
  ghost predicate IsTableError(a: TableColumns, b: TableColumns, from: string, to: string, t: string, x: string) {
    t in a && if t in b then IsColumnError(t, a[t], b[t], from, to, x) else x == MissingTable(t, from, to)
  }

  method CompareColumns(t: string, a: Columns, b: Columns, from: string, to: string, result: SchemaCheckerResult)
    requires result.Valid()
    modifies result
    ensures result.Valid() && old(result.errors) <= result.errors
    ensures result.errors == old(result.errors) <==> ColumnsWithin(a, b)
    ensures forall x :: x in result.errors <==> x in old(result.errors) || IsColumnError(t, a, b, from, to, x)
  {
    var columns := KeysOf(a);
    for i := 0 to |columns|
      invariant result.Valid() && old(result.errors) <= result.errors
      invariant result.errors == old(result.errors) <==>
                forall k :: 0 <= k < i ==> columns[k] in b && a[columns[k]] == b[columns[k]]
      invariant forall x :: x in result.errors <==>
                  || x in old(result.errors)
                  || exists k :: 0 <= k < i && ColumnError(t, columns[k], a, b, from, to) == Some(x)
    {
      var e := ColumnError(t, columns[i], a, b, from, to);
      if e.Some? { result.AddError(e.value); }
    }
  }

  /** compareTableColumns: one direction of the comparison.  The errors are exactly the differences. */
  method CompareTableColumns(a: TableColumns, b: TableColumns, from: string, to: string)
    returns (r: SchemaCheckerResult)
    ensures fresh(r) && r.Valid() && (r.status.Success? <==> TablesWithin(a, b))
    ensures forall x :: x in r.errors <==> exists t :: IsTableError(a, b, from, to, t, x)
  {
    r := new SchemaCheckerResult();
    var tables := KeysOf(a);
    for i := 0 to |tables|
      invariant fresh(r) && r.Valid()
      invariant r.errors == [] <==>
                forall k :: 0 <= k < i ==> tables[k] in b && ColumnsWithin(a[tables[k]], b[tables[k]])
      invariant forall x :: x in r.errors <==> exists k :: 0 <= k < i && IsTableError(a, b, from, to, tables[k], x)
    {
      var t := tables[i];
      if t in b {
        CompareColumns(t, a[t], b[t], from, to, r);
      } else {
        r.AddError(MissingTable(t, from, to));
      }
    }
  }

  /** What the metadata getters return for a table. */
  datatype Metadata = Metadata(columns: map<string, Columns>, constraints: map<string, seq<string>>)

  function ColumnsIn(m: Metadata, t: string): Columns {
    if t in m.columns then m.columns[t] else map[]
  }

  function ConstraintsIn(m: Metadata, t: string): seq<string> {
    if t in m.constraints then m.constraints[t] else []
  }

  function Described(m: Metadata, tables: seq<string>): TableColumns {
    map t | t in tables :: ColumnsIn(m, t)
  }

  /** The tables listed on both sides are the same with the same columns, types and, where they
      are compared, constraints. */
  ghost predicate Agree(database: Metadata, databaseTables: seq<string>, schema: Metadata, schemaTables: seq<string>,
                        constraints: bool)
  {
    && Described(database, databaseTables) == Described(schema, schemaTables)
    && (constraints ==>
          forall t :: t in schemaTables ==> SameItems(ConstraintsIn(database, t), ConstraintsIn(schema, t)))
  }

  predicate HasColumn(m: Metadata, t: string, c: string, columnType: string) {
    t in m.columns && c in m.columns[t] && m.columns[t][c] == columnType
  }

  predicate HasConstraint(m: Metadata, t: string, c: string) {
    t in m.constraints && c in m.constraints[t]
  }

  /** The same, told by what the getters return. */
  lemma AgreeExact(database: Metadata, databaseTables: seq<string>, schema: Metadata, schemaTables: seq<string>,
                   constraints: bool)
    ensures Agree(database, databaseTables, schema, schemaTables, constraints) <==>
            && SameItems(databaseTables, schemaTables)
            && (forall t, c, ty | t in schemaTables :: HasColumn(database, t, c, ty) <==> HasColumn(schema, t, c, ty))
            && (constraints ==>
                  forall t, c | t in schemaTables :: HasConstraint(database, t, c) <==> HasConstraint(schema, t, c))
  {
    DescribedExact(database, databaseTables, schema, schemaTables);
    forall t ensures SameItems(ConstraintsIn(database, t), ConstraintsIn(schema, t)) <==>
                     forall c :: HasConstraint(database, t, c) <==> HasConstraint(schema, t, c) {
      assert forall m: Metadata, c :: c in ConstraintsIn(m, t) <==> HasConstraint(m, t, c);
    }
  }

  lemma DescribedExact(database: Metadata, databaseTables: seq<string>, schema: Metadata, schemaTables: seq<string>)
    ensures Described(database, databaseTables) == Described(schema, schemaTables) <==>
            && SameItems(databaseTables, schemaTables)
            && (forall t, c, ty | t in schemaTables :: HasColumn(database, t, c, ty) <==> HasColumn(schema, t, c, ty))
  {
    var mine, theirs := Described(database, databaseTables), Described(schema, schemaTables);
    forall t ensures ColumnsIn(database, t) == ColumnsIn(schema, t) <==>
                     forall c, ty :: HasColumn(database, t, c, ty) <==> HasColumn(schema, t, c, ty) {
      ColumnsExact(database, schema, t);
    }
    if mine == theirs {
      forall t | t in schemaTables ensures t in databaseTables && ColumnsIn(database, t) == ColumnsIn(schema, t) {
        assert t in theirs && mine[t] == theirs[t];
      }
      forall t | t in databaseTables ensures t in schemaTables { assert t in mine; }
    }
  }

  lemma ColumnsExact(a: Metadata, b: Metadata, t: string)
    ensures ColumnsIn(a, t) == ColumnsIn(b, t) <==> forall c, ty :: HasColumn(a, t, c, ty) <==> HasColumn(b, t, c, ty)
  {
    var x, y := ColumnsIn(a, t), ColumnsIn(b, t);
    assert forall c, ty :: HasColumn(a, t, c, ty) <==> c in x && x[c] == ty;
    assert forall c, ty :: HasColumn(b, t, c, ty) <==> c in y && y[c] == ty;
    if forall c, ty :: HasColumn(a, t, c, ty) <==> HasColumn(b, t, c, ty) {
      forall c | c in x ensures c in y && x[c] == y[c] { assert HasColumn(a, t, c, x[c]); }
      forall c | c in y ensures c in x { assert HasColumn(b, t, c, y[c]); }
    }
  }

  /** `x` is the error for a constraint of table `t` that only one side has. */
  ghost predicate IsConstraintError(name: string, database: Metadata, databaseTables: seq<string>, schema: Metadata,
                                    t: string, x: string)
  {
    IsItemError("IN TABLE " + t + ", CONSTRAINT", name, FoundConstraints(database, databaseTables, t),
                ConstraintsIn(schema, t), x)
  }

  /** compareTables: the errors are exactly the differences in constraints, where these are compared, and
      in columns both ways. */
  method CompareTables(name: string, database: Metadata, databaseTables: seq<string>,
                       schema: Metadata, schemaTables: seq<string>, constraints: bool) returns (r: SchemaCheckerResult)
    ensures fresh(r) && r.Valid()
    ensures r.status.Success? <==> Agree(database, databaseTables, schema, schemaTables, constraints)
    ensures var mine, theirs := Described(database, databaseTables), Described(schema, schemaTables);
            forall x :: x in r.errors <==>
              || (constraints && exists t :: t in schemaTables
                                             && IsConstraintError(name, database, databaseTables, schema, t, x))
              || (exists t :: IsTableError(mine, theirs, name + " database", "schema", t, x))
              || (exists t :: IsTableError(theirs, mine, "schema", name + " database", t, x))
  {
    r := CompareConstraints(name, database, databaseTables, schema, schemaTables, constraints);
    var mine, theirs := Described(database, databaseTables), Described(schema, schemaTables);
    var there := CompareTableColumns(mine, theirs, name + " database", "schema");
    r.Append(there);
    var back := CompareTableColumns(theirs, mine, "schema", name + " database");
    r.Append(back);
    WithinBothWays(mine, theirs);
    if mine == theirs {
      forall t | t in schemaTables ensures t in databaseTables { assert t in theirs; }
    }
  }

  /** The loop over the tables of the schema. */
  method CompareConstraints(name: string, database: Metadata, databaseTables: seq<string>,
                            schema: Metadata, schemaTables: seq<string>, constraints: bool)
    returns (r: SchemaCheckerResult)
    ensures fresh(r) && r.Valid()
    ensures r.errors == [] <==>
            (constraints ==> forall t :: t in schemaTables ==>
               SameItems(FoundConstraints(database, databaseTables, t), ConstraintsIn(schema, t)))
    ensures forall x :: x in r.errors <==>
              constraints && exists t :: t in schemaTables
                                         && IsConstraintError(name, database, databaseTables, schema, t, x)
  {
    r := new SchemaCheckerResult();
    for i := 0 to |schemaTables|
      invariant fresh(r) && r.Valid()
      invariant r.errors == [] <==>
                forall k :: 0 <= k < i && constraints ==>
                  SameItems(FoundConstraints(database, databaseTables, schemaTables[k]),
                            ConstraintsIn(schema, schemaTables[k]))
      invariant forall x :: x in r.errors <==>
                  constraints && exists k :: 0 <= k < i
                                   && IsConstraintError(name, database, databaseTables, schema, schemaTables[k], x)
    {
      if constraints {
        var t := schemaTables[i];
        var items := CompareItems("IN TABLE " + t + ", CONSTRAINT", name,
                                  FoundConstraints(database, databaseTables, t), ConstraintsIn(schema, t));
        r.Append(items);
      }
    }
  }

  /** The map lookup that yields an empty list for a table the database does not have. */
  function FoundConstraints(database: Metadata, databaseTables: seq<string>, t: string): seq<string> {
    if t in databaseTables then ConstraintsIn(database, t) else []
  }

  function Within(tables: seq<string>, others: seq<string>): (r: seq<string>)
    ensures forall t :: t in r <==> t in tables && t in others
  {
    if tables == [] then []
    else (if tables[0] in others then [tables[0]] else []) + Within(tables[1..], others)
  }

  /** compareTablesLocatedInSchema: tables that only the database has are left out. */
  method CompareTablesLocatedInSchema(name: string, database: Metadata, databaseTables: seq<string>,
                                      schema: Metadata, schemaTables: seq<string>, constraints: bool)
    returns (r: SchemaCheckerResult)
    ensures fresh(r) && r.Valid()
    ensures r.status.Success? <==>
            && (forall t :: t in schemaTables ==> t in databaseTables && ColumnsIn(database, t) == ColumnsIn(schema, t))
            && (constraints ==> forall t :: t in schemaTables ==>
                  SameItems(ConstraintsIn(database, t), ConstraintsIn(schema, t)))
  {
    var kept := Within(databaseTables, schemaTables);
    r := CompareTables(name, database, kept, schema, schemaTables, constraints);
    var mine, theirs := Described(database, kept), Described(schema, schemaTables);
    assert mine == theirs <==>
           forall t :: t in schemaTables ==> t in databaseTables && ColumnsIn(database, t) == ColumnsIn(schema, t) by {
      if mine == theirs {
        forall t | t in schemaTables ensures t in databaseTables && ColumnsIn(database, t) == ColumnsIn(schema, t) {
          assert t in theirs && mine[t] == theirs[t];
        }
      }
    }
  }

  // An error names what it is about

  lemma Between(p: string, x: string, y: string, q: string)
    requires p + x + q == p + y + q
    ensures x == y
  {
    assert |x| == |y|;
    assert x == (p + x + q)[|p|..|p| + |x|] && y == (p + y + q)[|p|..|p| + |y|];
  }

  /** Two errors of one kind for different items differ, and so do those for different databases. */
  lemma ItemErrorsDiffer(itemType: string, i: string, j: string, d: string, e: string)
    ensures MissingInSchema(itemType, i, d) == MissingInSchema(itemType, j, d) ==> i == j
    ensures MissingInDatabase(itemType, i, d) == MissingInDatabase(itemType, j, d) ==> i == j
    ensures MissingInSchema(itemType, i, d) == MissingInSchema(itemType, i, e) ==> d == e
    ensures MissingInDatabase(itemType, i, d) == MissingInDatabase(itemType, i, e) ==> d == e
  {
    var p := itemType + " ";
    var inSchema := " is missing in the schema but defined in the ";
    var inDatabase := " database but is defined in the schema.";
    if MissingInSchema(itemType, i, d) == MissingInSchema(itemType, j, d) {
      var q := inSchema + d + " database.";
      assert MissingInSchema(itemType, i, d) == p + i + q && MissingInSchema(itemType, j, d) == p + j + q;
      Between(p, i, j, q);
    }
    if MissingInDatabase(itemType, i, d) == MissingInDatabase(itemType, j, d) {
      var q := " is missing in the " + d + inDatabase;
      assert MissingInDatabase(itemType, i, d) == p + i + q && MissingInDatabase(itemType, j, d) == p + j + q;
      Between(p, i, j, q);
    }
    if MissingInSchema(itemType, i, d) == MissingInSchema(itemType, i, e) {
      Between(p + i + inSchema, d, e, " database.");
    }
    if MissingInDatabase(itemType, i, d) == MissingInDatabase(itemType, i, e) {
      Between(p + i + " is missing in the ", d, e, inDatabase);
    }
  }

  lemma TableErrorsDiffer(t: string, u: string, from: string, to: string)
    ensures MissingTable(t, from, to) == MissingTable(u, from, to) ==> t == u
  {
    if MissingTable(t, from, to) == MissingTable(u, from, to) {
      var q := " is missing in the " + to + " but is defined in the " + from + ".";
      assert MissingTable(t, from, to) == "TABLE " + t + q && MissingTable(u, from, to) == "TABLE " + u + q;
      Between("TABLE ", t, u, q);
    }
  }

  /** Of two columns that are missing each has its own error, and of two types that a column should
      have as well. */
  lemma ColumnErrorsDiffer(t: string, c: string, d: string, a: Columns, b: Columns, b': Columns, from: string,
                           to: string)
    requires c in a && d in a
    ensures c !in b && d !in b && ColumnError(t, c, a, b, from, to) == ColumnError(t, d, a, b, from, to) ==> c == d
    ensures (&& c in b && c in b' && b[c] != a[c] && b'[c] != a[c]
             && ColumnError(t, c, a, b, from, to) == ColumnError(t, c, a, b', from, to)) ==> b[c] == b'[c]
  {
    var p := "TABLE " + t + " from " + from + " has a column named ";
    if c !in b && d !in b && ColumnError(t, c, a, b, from, to) == ColumnError(t, d, a, b, from, to) {
      var q := " that is missing in the " + to + ".";
      assert ColumnError(t, c, a, b, from, to).value == p + c + q;
      assert ColumnError(t, d, a, b, from, to).value == p + d + q;
      Between(p, c, d, q);
    }
    if c in b && c in b' && b[c] != a[c] && b'[c] != a[c]
       && ColumnError(t, c, a, b, from, to) == ColumnError(t, c, a, b', from, to) {
      Between(p + c + " that has a type " + a[c] + " that does not match the column type from the " + to + " (",
              b[c], b'[c], ")");
    }
  }
}

/** The database: an ordered list of tables, reached by a linear scan for the first
    table with a given name. Nothing prevents two tables from sharing a name. */
module Databases {
  import opened Cells
  import opened Outcomes
  import opened Tables

  /** A problem the database's validation pass can report. */
  datatype DatabaseIssue =
    | DuplicateTableName(name: string)
    | BadSchema(table: string, issue: SchemaIssue)

  /** The table names, in creation order. */
  function NamesOf(ts: seq<Table>): (ns: seq<string>)
    ensures |ns| == |ts|
    ensures forall i :: 0 <= i < |ts| ==> ns[i] == ts[i].name
  {
    seq(|ts|, i requires 0 <= i < |ts| => ts[i].name)
  }

  /** The database's per-table check, in its own order: an empty schema, then a
      repeated column name, then an empty column name. */
  ghost function DatabaseSchemaIssue(columns: seq<string>): Option<SchemaIssue>
  {
    if |columns| == 0 then Some(NoColumns)
    else if !NoDuplicates(columns) then Some(DuplicateColumns)
    else if "" in columns then Some(EmptyColumnName)
    else None
  }

  /** The first table, in order, whose schema fails the per-table check. */
  ghost function SchemaScan(ts: seq<Table>): Option<DatabaseIssue>
    decreases |ts|
  {
    if ts == [] then None
    else match DatabaseSchemaIssue(ts[0].columns)
      case Some(p) => Some(BadSchema(ts[0].name, p))
      case None => SchemaScan(ts[1..])
  }

  /** The validation pass of the database: the first repeated table name if any,
      otherwise the first table whose schema fails. */
  ghost function DatabaseIssueOf(ts: seq<Table>): Option<DatabaseIssue>
  {
    var names := NamesOf(ts);
    var k := FirstRepeat(names);
    if k < |names| then Some(DuplicateTableName(names[k])) else SchemaScan(ts)
  }

  /** Both validation passes accept exactly the same schemas, even though they
      check in different orders. */
  lemma SchemaChecksAgree(columns: seq<string>)
    ensures DatabaseSchemaIssue(columns) == None <==> TableSchemaIssue(columns) == None
    ensures DatabaseSchemaIssue(columns) == None <==>
      |columns| > 0 && "" !in columns && NoDuplicates(columns)
  {
  }

  /** The schema scan finds nothing exactly when every schema is accepted. */
  lemma {:induction false} SchemaScanNone(ts: seq<Table>)
    ensures SchemaScan(ts) == None <==>
      forall i :: 0 <= i < |ts| ==> DatabaseSchemaIssue(ts[i].columns) == None
    decreases |ts|
  {
    if ts != [] {
      SchemaScanNone(ts[1..]);
      assert forall i :: 1 <= i < |ts| ==> ts[i] == ts[1..][i - 1];
    }
  }

  /** The database check is silent exactly when table names are unique and every
      table's schema is non-empty, with non-empty, pairwise distinct column names. */
  lemma DatabaseIssueNone(ts: seq<Table>)
    ensures DatabaseIssueOf(ts) == None <==>
      NoDuplicates(NamesOf(ts)) &&
      forall i :: 0 <= i < |ts| ==>
        |ts[i].columns| > 0 && "" !in ts[i].columns && NoDuplicates(ts[i].columns)
  {
    FirstRepeatNone(NamesOf(ts));
    SchemaScanNone(ts);
    forall i | 0 <= i < |ts| {
      SchemaChecksAgree(ts[i].columns);
    }
  }

  /** Two tables with one name are always reported, as a repeated table name. */
  lemma RepeatedNameReported(ts: seq<Table>, i: nat, j: nat)
    requires i < j < |ts| && ts[i].name == ts[j].name
    ensures DatabaseIssueOf(ts).Some? && DatabaseIssueOf(ts).value.DuplicateTableName?
  {
    var names := NamesOf(ts);
    FirstRepeatNone(names);
    assert names[i] == names[j];
  }

  class Database {
    var tables: seq<Table>
    ghost var Repr: set<object>

    /** Each table is valid, and no two tables share any object. */
    ghost predicate Valid()
      reads this, Repr
    {
      this in Repr &&
      (forall i :: 0 <= i < |tables| ==>
        tables[i] in Repr && tables[i].Repr <= Repr && this !in tables[i].Repr && tables[i].Valid()) &&
      (forall i, j :: 0 <= i < j < |tables| ==> tables[i].Repr !! tables[j].Repr)
    }

    constructor ()
      ensures Valid() && fresh(Repr) && tables == []
    {
      tables := [];
      Repr := {this};
    }

    /** Appends a new, empty table, whatever the schema and even when the name is
        already taken. */
    method CreateTable(name: string, columns: seq<string>)
      requires Valid()
      modifies this
      ensures Valid() && fresh(Repr - old(Repr))
      ensures |tables| == |old(tables)| + 1 && tables[..|old(tables)|] == old(tables)
      ensures var t := tables[|old(tables)|];
        fresh(t) && t.name == name && t.columns == columns && t.rows == [] && t.indices == []
      ensures NamesOf(tables) == NamesOf(old(tables)) + [name]
    {
      var t := new Table(name, columns);
      tables := tables + [t];
      Repr := Repr + t.Repr;
    }

    /** The position of the first table named `name`, or `|tables|`. */
    method Locate(name: string) returns (k: nat)
      ensures k == Find(NamesOf(tables), name)
    {
      k := 0;
      while k < |tables|
        invariant 0 <= k <= |tables|
        invariant forall j :: 0 <= j < k ==> tables[j].name != name
      {
        if tables[k].GetName() == name {
          return;
        }
        k := k + 1;
      }
    }

    /** Inserts `row` into the first table named `tableName`: reports a missing table
        or a row of the wrong length and then changes nothing; no other table is
        touched in any case. */
    method InsertRow(tableName: string, row: seq<string>) returns (report: Report)
      requires Valid()
      modifies Repr
      ensures Valid() && Repr == old(Repr) && tables == old(tables)
      ensures var k := Find(NamesOf(tables), tableName);
        report == if k == |tables| then MissingTable(tableName)
                  else if |row| != |tables[k].columns| then RowSizeMismatch
                  else Done
      ensures report != Done ==> unchanged(Repr)
      ensures var k := Find(NamesOf(tables), tableName);
        forall j :: 0 <= j < |tables| && j != k ==> unchanged(tables[j].Repr)
      ensures var k := Find(NamesOf(tables), tableName);
        report == Done ==> k < |tables| && tables[k].Appended(row)
    {
      var k := Locate(tableName);
      if k == |tables| {
        return MissingTable(tableName);
      }
      var t := tables[k];
      if |row| != |t.GetColumns()| {
        return RowSizeMismatch;
      }
      report := InsertAt(k, row);
    }

    /** `Insert` on table `k`, with a row that fits its schema. */
    method InsertAt(k: nat, row: seq<string>) returns (report: Report)
      requires Valid() && k < |tables| && |row| == |tables[k].columns|
      modifies Repr
      ensures Valid() && Repr == old(Repr) && tables == old(tables)
      ensures report == Done && tables[k].Appended(row)
      ensures forall j :: 0 <= j < |tables| && j != k ==> unchanged(tables[j].Repr)
    {
      var t := tables[k];
      report := t.Insert(row);
      ConfinedToTable(k);
    }

    /** A change confined to the footprint of table `k`, which may have grown by
        fresh objects now counted in the database's own footprint, keeps the database
        valid and leaves every other table as it was. */
    twostate lemma ConfinedToTable(k: nat)
      requires old(Valid()) && k < |tables| && tables == old(tables)
      requires Repr == old(Repr) + tables[k].Repr
      requires tables[k].Valid() && fresh(tables[k].Repr - old(tables[k].Repr))
      requires forall o: object :: o in old(Repr) && o != this && o !in old(tables[k].Repr) ==> unchanged(o)
      ensures Valid()
      ensures forall j :: 0 <= j < |tables| && j != k ==> unchanged(tables[j].Repr)
    {
      forall j | 0 <= j < |tables| && j != k
        ensures unchanged(tables[j].Repr) && tables[j].Valid()
        ensures tables[j].Repr !! tables[k].Repr
      {
        assert old(tables[j].Repr) !! old(tables[k].Repr) by {
          if j < k {} else {}
        }
        assert tables[j] in old(tables[j].Repr);
      }
    }

    /** Adds an index on `columnName` to the first table named `tableName`, as a
        caller does through the handle `GetTable` returns: no table by that name is
        the not-found failure, a column missing from its schema is reported, and in
        both cases nothing changes; no other table is touched. */
    method CreateIndexOn(tableName: string, columnName: string) returns (r: Result<Report>)
      requires Valid()
      modifies Repr
      ensures Valid() && tables == old(tables) && fresh(Repr - old(Repr))
      ensures var k := Find(NamesOf(tables), tableName);
        r == if k == |tables| then Failure(TableNotFound(tableName))
             else Ok(if columnName in tables[k].columns then Done else MissingColumn(columnName))
      ensures r != Ok(Done) ==> Repr == old(Repr) && unchanged(Repr)
      ensures var k := Find(NamesOf(tables), tableName);
        forall j :: 0 <= j < |tables| && j != k ==> unchanged(old(tables[j].Repr))
      ensures var k := Find(NamesOf(tables), tableName);
        r == Ok(Done) ==> k < |tables| && tables[k].IndexAdded(columnName)
    {
      var k := Locate(tableName);
      if k == |tables| {
        return Failure(TableNotFound(tableName));
      }
      var report := CreateIndexAt(k, columnName);
      r := Ok(report);
    }

    /** `CreateIndex` on table `k`, with the database's footprint taking in the new
        index. */
    method CreateIndexAt(k: nat, columnName: string) returns (report: Report)
      requires Valid() && k < |tables|
      modifies Repr
      ensures Valid() && tables == old(tables) && fresh(Repr - old(Repr))
      ensures report == if columnName in tables[k].columns then Done else MissingColumn(columnName)
      ensures report != Done ==> Repr == old(Repr) && unchanged(Repr)
      ensures forall j :: 0 <= j < |tables| && j != k ==> unchanged(old(tables[j].Repr))
      ensures report == Done ==> tables[k].IndexAdded(columnName)
    {
      var t := tables[k];
      report := t.CreateIndex(columnName);
      Repr := Repr + t.Repr;
      ConfinedToTable(k);
    }

    /** The table names in creation order, one per table. */
    method GetTableNames() returns (names: seq<string>)
      ensures names == NamesOf(tables)
      ensures |names| == |tables| && forall i :: 0 <= i < |tables| ==> names[i] == tables[i].name
    {
      names := [];
      var i := 0;
      while i < |tables|
        invariant 0 <= i <= |tables|
        invariant names == NamesOf(tables[..i])
      {
        names := names + [tables[i].GetName()];
        i := i + 1;
      }
      assert tables[..i] == tables;
    }

    /** A live handle on the first table named `tableName`; a hard failure when
        there is none. */
    method GetTable(tableName: string) returns (r: Result<Table>)
      ensures var k := Find(NamesOf(tables), tableName);
        r == if k < |tables| then Ok(tables[k]) else Failure(TableNotFound(tableName))
    {
      var k := Locate(tableName);
      if k == |tables| {
        return Failure(TableNotFound(tableName));
      }
      return Ok(tables[k]);
    }

    /** The validation pass: reports the first problem only, changes nothing. */
    method CheckInvariants() returns (issue: Option<DatabaseIssue>)
      ensures issue == DatabaseIssueOf(tables)
    {
      ghost var names := NamesOf(tables);
      var seen: set<string> := {};
      var i := 0;
      while i < |tables|
        invariant 0 <= i <= |tables|
        invariant seen == set j | 0 <= j < i :: names[j]
        invariant forall j :: 0 <= j < i ==> names[j] !in names[..j]
      {
        var n := tables[i].GetName();
        if n in seen {
          assert names[i] in names[..i];
          return Some(DuplicateTableName(n));
        }
        seen := seen + {n};
        assert forall x :: x in names[..i + 1] <==> x in names[..i] || x == names[i];
        i := i + 1;
      }
      assert FirstRepeat(names) == |names|;
      i := 0;
      while i < |tables|
        invariant 0 <= i <= |tables|
        invariant SchemaScan(tables) == SchemaScan(tables[i..])
      {
        var t := tables[i];
        var columns := t.GetColumns();
        assert tables[i..][0] == t && tables[i..][1..] == tables[i + 1..];
        if |columns| == 0 {
          return Some(BadSchema(t.GetName(), NoColumns));
        }
        DistinctCardinality(columns);
        if |set c | c in columns| != |columns| {
          return Some(BadSchema(t.GetName(), DuplicateColumns));
        }
        var hasEmpty := HasEmptyName(columns);
        if hasEmpty {
          return Some(BadSchema(t.GetName(), EmptyColumnName));
        }
        i := i + 1;
      }
      return None;
    }
  }
}

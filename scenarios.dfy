/** What the store's operations produce on the concrete data of the demonstration
    program and of the test suites. */
module Scenarios {
  import opened Cells
  import opened Outcomes
  import opened Tables
  import opened Indexes
  import opened Databases

  /** The demonstration program: one table, two rows inserted by name. */
  method Usuarios() returns (names: seq<string>, rows: seq<seq<string>>)
    ensures names == ["Usuarios"]
    ensures rows == [["1", "Alice", "30"], ["2", "Bob", "25"]]
  {
    var db := new Database();
    db.CreateTable("Usuarios", ["ID", "Nombre", "Edad"]);
    var first := db.InsertRow("Usuarios", ["1", "Alice", "30"]);
    var second := db.InsertRow("Usuarios", ["2", "Bob", "25"]);
    names := db.GetTableNames();
    rows := db.tables[0].GetRows();
  }

  /** An index seeded from no values finds nothing, whatever the value. */
  method EmptyIndex(v: string) returns (r: seq<nat>)
    ensures r == []
  {
    var ix := new Index("name", []);
    r := ix.Search(v);
  }

  /** The two-row `users` table the index tests build, reached through the
      database by name. */
  method TwoUsers() returns (db: Database, t: Table)
    ensures db.Valid() && t in db.tables && t.Valid() && t.Repr <= db.Repr
    ensures t.columns == ["id", "name"] && t.rows == [["1", "Alice"], ["2", "Bob"]]
    ensures t.indices == [] && fresh(t.Repr)
  {
    db := new Database();
    db.CreateTable("users", ["id", "name"]);
    var first := db.InsertRow("users", ["1", "Alice"]);
    var second := db.InsertRow("users", ["2", "Bob"]);
    var found := db.GetTable("users");
    t := found.value;
  }

  /** The index tests' table after an index on `name` is added. */
  method IndexedUsers() returns (t: Table)
    ensures t.Valid() && fresh(t.Repr) && |t.indices| == 1
    ensures ColumnNames(t.indices) == ["name"]
    ensures t.rows == [["1", "Alice"], ["2", "Bob"]] && ColumnValues(t.rows, 1) == ["Alice", "Bob"]
    ensures Find(t.columns, "name") == 1
  {
    var db;
    db, t := TwoUsers();
    var created := t.CreateIndex("name");
    assert Find(t.columns, "name") == 1 by {
      assert ["id", "name"][1..] == ["name"];
    }
  }

  /** Searching that index finds "Alice" at row 0 only; one index was created. */
  method SearchAlice() returns (alice: seq<nat>, indexCount: nat)
    ensures alice == [0] && indexCount == 1
  {
    var t := IndexedUsers();
    indexCount := t.GetIndexCount();
    NamePositions();
    alice := t.SearchIndex("name", "Alice");
  }

  /** Searching that index for a value no row holds finds nothing. */
  method SearchCharlie() returns (charlie: seq<nat>)
    ensures charlie == []
  {
    var t := IndexedUsers();
    NamePositions();
    charlie := t.SearchIndex("name", "Charlie");
  }

  /** The positions of the searched names in the `name` columns of the index
      scenarios. */
  lemma NamePositions()
    ensures Positions(["Alice", "Bob"], "Alice") == [0]
    ensures Positions(["Alice", "Bob"], "Charlie") == []
    ensures Positions(["Alice", "Alice"], "Alice") == [0, 1]
  {
    assert ["Alice", "Bob"][..1] == ["Alice"] && ["Alice"][..0] == [];
    assert ["Alice", "Alice"][..1] == ["Alice"];
  }

  /** A row that does not fit the schema and a missing table are reported and
      leave the store as it was. */
  method RejectedInserts() returns (reports: seq<Report>, rows: seq<seq<string>>)
    ensures reports == [RowSizeMismatch, MissingTable("nonexistent_table")]
    ensures rows == []
  {
    var db := new Database();
    db.CreateTable("users", ["id", "name"]);
    var short := db.InsertRow("users", ["1"]);
    var missing := db.InsertRow("nonexistent_table", ["1", "Alice"]);
    reports := [short, missing];
    rows := db.tables[0].GetRows();
  }

  /** A new table reports its name and schema, and has no row to read. */
  method NewTable() returns (name: string, count: nat, first: Result<string>, second: Result<string>,
                             third: Result<string>, row: Result<seq<string>>)
    ensures name == "users" && count == 2
    ensures first == Ok("id") && second == Ok("name") && third == Failure(ColumnIndexOutOfRange)
    ensures row == Failure(RowIndexOutOfRange)
  {
    var t := new Table("users", ["id", "name"]);
    name := t.GetName();
    count := t.GetColumnCount();
    first := t.GetColumn(0);
    second := t.GetColumn(1);
    third := t.GetColumn(2);
    row := t.GetRow(0);
  }

  /** At table level, an empty row does not fit a two-column schema, while a row
      with an empty cell does and is stored as given. */
  method TableLevelRows() returns (empty: Report, blank: Report, count: nat, last: Result<seq<string>>)
    ensures empty == RowSizeMismatch && blank == Done
    ensures count == 1 && last == Ok(["1", ""])
  {
    var t := new Table("users", ["id", "name"]);
    empty := t.Insert([]);
    blank := t.Insert(["1", ""]);
    count := t.GetRowCount();
    last := t.GetRow(0);
  }

  /** One row, then an index on `name` created through the database. */
  method IndexedAlice() returns (db: Database)
    ensures db.Valid() && fresh(db.Repr) && NamesOf(db.tables) == ["users"]
    ensures db.tables[0].columns == ["id", "name"] && db.tables[0].rows == [["1", "Alice"]]
    ensures ColumnNames(db.tables[0].indices) == ["name"]
  {
    db := new Database();
    db.CreateTable("users", ["id", "name"]);
    var first := db.InsertRow("users", ["1", "Alice"]);
    var indexed := db.CreateIndexOn("users", "name");
  }

  /** An index created through the database before the second row is kept in step
      by the later insertion. */
  method GrowingIndex() returns (db: Database)
    ensures db.Valid() && fresh(db.Repr) && NamesOf(db.tables) == ["users"]
    ensures db.tables[0].columns == ["id", "name"]
    ensures db.tables[0].rows == [["1", "Alice"], ["2", "Alice"]]
    ensures ColumnNames(db.tables[0].indices) == ["name"]
    ensures Find(db.tables[0].columns, "name") == 1
    ensures ColumnValues(db.tables[0].rows, 1) == ["Alice", "Alice"]
  {
    db := IndexedAlice();
    var second := db.InsertRow("users", ["2", "Alice"]);
    assert Find(["id", "name"], "name") == 1 by {
      assert ["id", "name"][1..] == ["name"];
    }
  }

  /** That index finds both rows holding "Alice", in row order. */
  method SearchGrown() returns (alice: seq<nat>)
    ensures alice == [0, 1]
  {
    var db := GrowingIndex();
    var found := db.GetTable("users");
    var t := found.value;
    NamePositions();
    alice := t.SearchIndex("name", "Alice");
  }

  /** Creating a table never checks its schema: a table with no columns and one
      with a repeated column are both created. */
  method UncheckedSchemas() returns (db: Database)
    ensures db.Valid() && fresh(db.Repr)
    ensures NamesOf(db.tables) == ["empty", "dup"]
    ensures db.tables[0].columns == [] && db.tables[1].columns == ["id", "name", "id"]
  {
    db := new Database();
    db.CreateTable("empty", []);
    db.CreateTable("dup", ["id", "name", "id"]);
  }

  /** Both tables are listed, and only the validation pass reports the first of
      them. */
  method ReportedSchema() returns (names: seq<string>, issue: Option<DatabaseIssue>)
    ensures names == ["empty", "dup"]
    ensures issue == Some(BadSchema("empty", NoColumns))
  {
    var db := UncheckedSchemas();
    names := db.GetTableNames();
    issue := db.CheckInvariants();
  }

  /** Two tables created under one name, the first of them holding one row. */
  method SameNameTwice() returns (db: Database)
    ensures db.Valid() && fresh(db.Repr)
    ensures NamesOf(db.tables) == ["users", "users"]
    ensures |db.tables[0].rows| == 1 && |db.tables[1].rows| == 0
  {
    db := new Database();
    db.CreateTable("users", ["id"]);
    db.CreateTable("users", ["id"]);
    var inserted := db.InsertRow("users", ["1"]);
  }

  /** Two tables may share a name; the validation pass reports it, and lookups by
      name reach the first of them only. */
  method SharedName() returns (issue: Option<DatabaseIssue>, firstRows: nat, secondRows: nat)
    ensures issue == Some(DuplicateTableName("users"))
    ensures firstRows == 1 && secondRows == 0
  {
    var db := SameNameTwice();
    issue := db.CheckInvariants();
    ghost var names := NamesOf(db.tables);
    assert FirstRepeat(names) == 1 by {
      assert names[1] in names[..1];
    }
    firstRows := db.tables[0].GetRowCount();
    secondRows := db.tables[1].GetRowCount();
  }

  /** The table's and the database's validation passes name different problems
      for a schema of two empty column names. */
  lemma CheckOrdersDiffer()
    ensures TableSchemaIssue(["", ""]) == Some(EmptyColumnName)
    ensures DatabaseSchemaIssue(["", ""]) == Some(DuplicateColumns)
  {
    assert !NoDuplicates(["", ""]) by {
      assert ["", ""][0] == ["", ""][1];
    }
  }
}

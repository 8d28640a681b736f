# SGDB in-memory table store, modelled in Dafny

SGDB is a small in-memory table store in three layers. The model follows those layers:

- **Index** (`index.dfy`, module `Indexes`) is a single-column secondary index. It is a class
  whose `indexData` map sends each cell value to the row positions holding it, in the order
  they were added. The ghost field `Entries` records every `AddValue` call, and `Valid()`
  states that the map is the one those calls build. The constructor seeds the index from a
  snapshot of column values by calling `AddValue` in a loop, as the C++ constructor does.
- **Table** (`table.dfy`, module `Tables`) is a class with the following parts:
  - a constant name and column schema;
  - an append-only `rows` sequence;
  - a sequence of `Index` objects.

  Its `Valid()` is *index consistency*. Every index on column `c` has recorded exactly the
  cell `rows[i][c]` at position `i`, for every row in order, where `c` is the first schema
  position carrying the index's column name. `IndexConsistent` restates this as a lookup
  property: `Search(v)` is the ascending list of row positions holding `v` at `c`. `Insert`
  and `CreateIndex` keep the invariant.
- **Database** (`database.dfy`, module `Databases`) is a class holding a sequence of tables
  with pairwise disjoint footprints. Every lookup by name goes to the *first* table with that
  name. `CreateTable` never rejects anything: an empty schema, repeated columns or a name
  already in use all still produce a new table.

The validation passes (`checkInvariants` in the C++ code) only report problems. They never
block a mutation. Each is modelled as a read-only method that returns the first problem it
finds. The method is proved equal to a ghost specification function: `TableSchemaIssue` for a
table, `DatabaseIssueOf` for a database. The two C++ passes check a schema in different
orders:

- the table checks for an empty schema, then an empty name, then a repeated name;
- the database checks for an empty schema, then a repeated name, then an empty name.

They accept exactly the same schemas (`SchemaChecksAgree`), but can name different problems
(`CheckOrdersDiffer`).

`cells.dfy` (module `Cells`) holds the pure specification layer:

- `Positions`, the ascending positions of a value in a sequence;
- `Postings` and `IndexMap`, what a history of additions records;
- `Find`, the C++ `std::find`;
- `FirstRepeat`, what the set-based duplicate scan stops at;
- the lemmas connecting these.

`outcomes.dfy` holds the result and report datatypes. Error messages on the standard error
stream are modelled as a returned `Report`, and thrown exceptions as `Result.Failure`.
`scenarios.dfy` states what the store's operations produce on the concrete data of the
demonstration program and of the test suites.

The model follows the code where the tests disagree with it. `tests/test_database.cpp:22` and
`:32` expect that no table is created for an empty or a duplicated column list. But
`src/database.cpp:9` appends unconditionally, so `Databases.Database.CreateTable` and
`Scenarios.UncheckedSchemas` state that both tables are created.

## Model

| member | source | states |
|---|---|---|
| Cells.Positions | src/index.cpp:4-10 | position `i` is in the result exactly when `i < \|s\|` and `s[i] == v`, and the result is strictly ascending |
| Cells.Find | src/table.cpp:30 | `std::find` gives the first position holding `x`, or `\|s\|` when none does; no earlier position holds `x` |
| Cells.FirstRepeat | src/database.cpp:64-71 | the set-based scan stops at the first element already seen earlier, or runs to the end; every element before it is new |
| Cells.FirstRepeatNone | src/database.cpp:64-71 | the duplicate-name scan runs to the end exactly when no two names are equal |
| Cells.HasEmptyName | src/table.cpp:106-111 | the column loop reports an empty name exactly when `""` is one of the columns |
| Cells.DistinctCardinality | src/table.cpp:113-117 | the set of columns is never larger than the list, and equals its length exactly when no column name repeats |
| Cells.PostingsSnoc | src/index.cpp:12-14 | one more addition extends the postings of its own value by its position, and no other value's |
| Cells.LookupIndexMap | src/index.cpp:12-22 | after a history of `addValue` calls, `search(v)` returns the positions added with `v`, in the order added, and empty when there are none |
| Cells.PostingsAbsent | src/index.cpp:16-22 | a value no addition carried has empty postings |
| Cells.PostingsOfPairs | src/index.cpp:4-10 | seeding from `values` files each value under exactly the ascending positions that hold it |
| Cells.PairsSnoc | src/index.cpp:7-9 | seeding one more value adds one entry, at the next position |
| Cells.ColumnValuesSnoc | src/table.cpp:18 | appending a row extends every column snapshot by that row's cell |
| Cells.PairsAfterAppend | src/table.cpp:18-24 | appending a row extends the entries of column `c` by that row's cell at position `\|rows\|` |
| Indexes.Index.constructor | src/index.cpp:4-10 | keeps the column name; the loop records `columnValues[i]` at position `i`, in order, so that afterwards `Search(v)` is the ascending list of `i` with `columnValues[i] == v`, for every `v` |
| Indexes.Index.AddValue | src/index.cpp:12-14 | `Search(value)` gains `position` at the end, creating the list if absent; `Search(w)` is unchanged for every other `w` |
| Indexes.Index.SearchIsPostings | src/index.cpp:16-22 | `Search` returns exactly what was added under the value, in order |
| Indexes.Index.SearchNeverAdded | src/index.cpp:16-22 | searching a value never added gives the empty list, not an error |
| Indexes.Index.GetColumnName | src/index.cpp:25-27 | the column name given at construction, which no operation changes |
| Tables.Table.constructor | src/table.cpp:5-8 | stores the name and schema verbatim, with no rows and no indices, whatever the schema; the getters then report that name, schema, column count, zero rows and zero indices |
| Tables.Table.ColumnOf | src/table.cpp:22 | the schema position an index reads is the first one holding its column name, or the column count when the name is absent; no earlier position holds the name |
| Tables.Table.Insert | src/table.cpp:10-27 | reports a row whose length differs from the schema and then changes nothing; otherwise `getRowCount()` grows by one, `getRow(getRowCount() - 1)` is the new row, earlier rows are kept, and every index gains the new position under the row's cell at its column (`Appended`); index consistency is kept |
| Tables.Table.AddToIndices | src/table.cpp:20-24 | every index records the row's cell at the first schema position carrying its column name, under the new position |
| Tables.Table.AppendPreservesConsistency | src/table.cpp:18-24 | once the row is appended and each index has recorded it, index consistency holds again |
| Tables.Table.AppendExtendsLookups | src/table.cpp:20-24 | after that update each index's lookups grew only under the row's cell, by the new position |
| Tables.Table.CreateIndex | src/table.cpp:29-38 | a column missing from the schema is reported and nothing changes; otherwise `getIndexCount()` grows by one, the new index is added last even when one exists for that column, its lookups are the ascending positions of matching rows (`IndexAdded`), and rows and old indices are unchanged |
| Tables.Table.ColumnSnapshot | src/table.cpp:33-34 | the snapshot has one cell per row, in row order, namely the row's cell at column `c` |
| Tables.Table.SearchIndex | src/table.cpp:40-47 | the result of the first index whose column name matches, or empty when none exists; by consistency, that is the ascending positions of rows holding the value |
| Tables.Table.IndexConsistent | src/table.cpp:32-35 | every index's `Search(v)` equals the ascending positions of rows holding `v` at its column, and every row position appears under its own cell |
| Tables.Table.GetName | src/table.cpp:49-51 | the name given at construction, which no operation changes |
| Tables.Table.GetRowCount | src/table.cpp:53-55 | the number of stored rows: zero for a new table, one more after each accepted `Insert` (see `Tables.Table.Insert`) |
| Tables.Table.GetColumnCount | src/table.cpp:57-59 | the length of the schema given at construction |
| Tables.Table.GetIndexCount | src/table.cpp:61-63 | the number of indices, duplicates included: zero for a new table, one more after each successful `CreateIndex` |
| Tables.Table.GetColumns | src/table.cpp:75-77 | the schema given at construction, unchanged by every operation |
| Tables.Table.GetRows | src/table.cpp:79-81 | the stored rows, oldest first |
| Tables.Table.GetRow | src/table.cpp:65-68 | succeeds exactly when `i` is below the row count, with row `i`; fails with an out-of-range fault otherwise |
| Tables.Table.GetColumn | src/table.cpp:70-73 | succeeds exactly when `i` is below the column count, with column `i`; fails with an out-of-range fault otherwise |
| Tables.Table.CheckInvariants | src/table.cpp:100-118 | reports at most one problem, in the order empty schema, empty column name, repeated column name; changes nothing |
| Databases.Database.constructor | include/database.h:20 | a database starts with no tables |
| Databases.Database.CreateTable | src/database.cpp:7-10 | always appends a fresh, empty table with the given name and schema, even for an invalid schema or a name in use; the names grow by exactly `name` at the end; existing tables are kept |
| Databases.Database.Locate | src/database.cpp:15-16 | the scan stops at the first table with the name, or at the end |
| Databases.Database.InsertRow | src/database.cpp:12-30 | a name matching no table is reported and nothing changes; a row whose length differs from the first matching table's schema is reported and nothing changes; otherwise only that table changes, gaining the row last with its indices updated; every other table is unchanged |
| Databases.Database.InsertAt | src/database.cpp:23 | inserting a fitting row into table `k` succeeds, appends it with the indices updated, keeps the database valid and leaves every other table unchanged |
| Databases.Database.ConfinedToTable | src/database.cpp:15-26 | a change confined to one table's footprint, plus fresh objects, leaves every other table as it was, and the database valid |
| Databases.Database.CreateIndexOn | testing/tests.cpp:125 | `getTable(n).createIndex(c)`: a missing table is the not-found failure and a missing column is reported, both changing nothing; otherwise the first table named `n` gains a new index on `c` over its current rows (`IndexAdded`); other tables are unchanged and the database stays valid, so later insertions keep the index current |
| Databases.Database.CreateIndexAt | src/table.cpp:29-38 | `createIndex` on table `k`, with the new index taken into the database's footprint: the database stays valid and no other table changes |
| Databases.Database.GetTableNames | src/database.cpp:32-38 | one name per table, the `i`-th being table `i`'s name, in creation order |
| Databases.Database.GetTable | src/database.cpp:40-48 | the first table with the name, or a not-found failure when there is none |
| Databases.Database.CheckInvariants | src/database.cpp:62-96 | reports the first repeated table name; failing that, the first table whose schema is empty, repeats a column or has an empty column name; changes nothing |
| Databases.SchemaChecksAgree | src/database.cpp:74-94 | the database's per-table check accepts exactly the schemas the table's own check accepts: non-empty, no empty name, no repeated name |
| Databases.SchemaScanNone | src/database.cpp:73-95 | the per-table loop finds nothing exactly when every table's schema passes |
| Databases.DatabaseIssueNone | src/database.cpp:62-96 | the database check is silent exactly when table names are unique and every schema is non-empty, with distinct, non-empty column names |
| Databases.RepeatedNameReported | src/database.cpp:64-71 | two tables sharing a name are always reported, as a repeated table name |
| Scenarios.Usuarios | src/main.cpp:5-9 | the demonstration program ends with one table `Usuarios` holding its two rows in order |
| Scenarios.EmptyIndex | src/index.cpp:4-22 | an index seeded from no values finds nothing for any value |
| Scenarios.TwoUsers | tests/test_index.cpp:22-29 | the test table holds schema `id, name` and rows `1, Alice` and `2, Bob`, with no index |
| Scenarios.IndexedUsers | tests/test_index.cpp:5-18 | after `createIndex("name")` the table has one index, on `name` |
| Scenarios.SearchAlice | tests/test_index.cpp:20-36 | searching `name` for `Alice` gives exactly `[0]`, and there is one index |
| Scenarios.SearchCharlie | tests/test_index.cpp:38-53 | searching `name` for a value no row holds gives the empty list |
| Scenarios.NamePositions | tests/test_index.cpp:34-35 | `Alice` occurs at position 0 only in `Alice, Bob`, at positions 0 and 1 in `Alice, Alice`, and `Charlie` nowhere |
| Scenarios.RejectedInserts | testing/tests.cpp:73-101 | a short row and a missing table are reported through the database and insert nothing |
| Scenarios.NewTable | testing/tests.cpp:168-178 | a new table reports its name, two columns, `id` and `name` in order, an out-of-range fault for column 2 and for row 0 |
| Scenarios.TableLevelRows | testing/tests.cpp:206-229 | an empty row is rejected by a two-column table, while a row with an empty cell is stored as given, as row 0 of one |
| Scenarios.IndexedAlice | src/table.cpp:29-38 | with one row stored, an index on `name` created through the database leaves a valid database whose table has that row and one index, on `name` |
| Scenarios.GrowingIndex | src/table.cpp:18-24 | a second `Alice` row inserted through the database after that is stored last, and the database stays valid |
| Scenarios.SearchGrown | src/table.cpp:40-47 | the index created before the second insertion then finds `Alice` at rows 0 and 1 |
| Scenarios.UncheckedSchemas | src/database.cpp:7-10 | a table with no columns and one with a repeated column are both created |
| Scenarios.ReportedSchema | src/database.cpp:74-79 | both tables are listed, and the validation pass reports the empty schema of the first |
| Scenarios.SameNameTwice | src/database.cpp:15-26 | with two tables named `users`, an insertion reaches only the first |
| Scenarios.SharedName | src/database.cpp:62-71 | two tables with one name are reported as a repeated table name, and only the first received the row |
| Scenarios.CheckOrdersDiffer | src/database.cpp:81-94 | for the schema `"", ""` the table check reports the empty name and the database check the repeated name |

## Left out

- `Table::print`, `Database::printTable` and the printing half of `src/main.cpp`: they only format output.
- The text written to the standard error stream. Only which check fires is modelled, as a `Report` or `Option` value.
- The calls to `checkInvariants` inside the constructor, `insert`, `createTable` and `insertRow`. They only write diagnostics and never change state or block the operation, so the mutators leave them out. The C++ `Database::checkInvariants` and `Table::checkInvariants` are private. Here they are public read-only methods, so the diagnostic each would emit can be stated.
- `std::unique_ptr` ownership. Tables and indices are Dafny objects, with footprints (`Repr`) in place of ownership.
- The ordering of `std::map`. Only lookup by key is observable, and a Dafny `map` gives that.
- `size_t` is modelled as `nat`. No row count in the store can approach its bound.
- Databases.Database.GetTable: returns the live table object, as the C++ code returns a reference. A change made directly through that handle can grow the table's footprint without the database's footprint following, so `Databases.Database.Valid` is not re-established after it. The one such change the tests make, `getTable(n).createIndex(c)`, is modelled as `Databases.Database.CreateIndexOn`, which does keep the database valid.

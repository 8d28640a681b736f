/** A named table: a fixed ordered schema, an append-only list of rows, and the
    single-column indices kept in step with the rows. */
module Tables {
  import opened Cells
  import opened Outcomes
  import opened Indexes

  /** The validation pass of a table, in the order it checks: an empty schema,
      then an empty column name, then a repeated column name. */
  ghost function TableSchemaIssue(columns: seq<string>): Option<SchemaIssue>
  {
    if |columns| == 0 then Some(NoColumns)
    else if "" in columns then Some(EmptyColumnName)
    else if !NoDuplicates(columns) then Some(DuplicateColumns)
    else None
  }

  class Table {
    const name: string
    const columns: seq<string>
    var rows: seq<seq<string>>
    var indices: seq<Index>
    ghost var Repr: set<object>

    /** Every stored row has one cell per column. */
    ghost predicate RowsFit()
      reads this
    {
      forall i :: 0 <= i < |rows| ==> |rows[i]| == |columns|
    }

    /** The schema position an index reads: the first column with its name. */
    function ColumnOf(ix: Index): (c: nat)
      ensures c <= |columns|
      ensures c < |columns| <==> ix.columnName in columns
      ensures c < |columns| ==> columns[c] == ix.columnName
      ensures forall j :: 0 <= j < c ==> columns[j] != ix.columnName
    {
      Find(columns, ix.columnName)
    }

    /** Index consistency for one index: it has recorded, in row order, every
        row's cell at its column together with that row's position. */
    ghost predicate IndexCurrent(ix: Index)
      requires RowsFit()
      reads this, ix
    {
      ix.Valid() && ix.columnName in columns &&
      ix.Entries == Pairs(ColumnValues(rows, ColumnOf(ix)))
    }

    ghost predicate Valid()
      reads this, Repr
    {
      this in Repr &&
      RowsFit() &&
      (forall k, l :: 0 <= k < l < |indices| ==> indices[k] != indices[l]) &&
      (forall k :: 0 <= k < |indices| ==> indices[k] in Repr && IndexCurrent(indices[k]))
    }

    /** The outcome of a valid insertion of `row`: it is the last row, and every
        index has the new position appended under the row's cell at its column. */
    twostate predicate Appended(row: seq<string>)
      requires Valid()
      reads this, Repr
    {
      rows == old(rows) + [row] &&
      indices == old(indices) &&
      forall k, v :: 0 <= k < |indices| ==>
        indices[k].Search(v) ==
          old(indices[k].Search(v)) +
          (var c := ColumnOf(indices[k]); if c < |row| && row[c] == v then [|old(rows)|] else [])
    }

    /** The outcome of a successful `CreateIndex(columnName)`: a fresh index on that
        column is added last, whose lookups are the ascending positions of the rows
        holding each value at the column's first schema position; rows and earlier
        indices are kept. */
    twostate predicate IndexAdded(columnName: string)
      requires Valid()
      reads this, Repr
    {
      var n := |old(indices)|;
      rows == old(rows) && |indices| == n + 1 && indices[..n] == old(indices) &&
      fresh(indices[n]) && indices[n].columnName == columnName &&
      forall v :: indices[n].Search(v) == Positions(ColumnValues(rows, Find(columns, columnName)), v)
    }

    /** Stores the name and schema as given, with no rows and no indices, whether or
        not the schema passes `CheckInvariants`. */
    constructor (name: string, columns: seq<string>)
      ensures this.name == name && this.columns == columns
      ensures rows == [] && indices == []
      ensures GetName() == name && GetColumns() == columns && GetColumnCount() == |columns|
      ensures GetRowCount() == 0 && GetIndexCount() == 0
      ensures Valid() && fresh(Repr)
    {
      this.name := name;
      this.columns := columns;
      rows := [];
      indices := [];
      Repr := {this};
    }

    /** Appends `row` when it has one cell per column and updates every index;
        otherwise reports the mismatch and changes nothing. */
    method Insert(row: seq<string>) returns (report: Report)
      requires Valid()
      modifies Repr
      ensures Valid() && Repr == old(Repr) && indices == old(indices)
      ensures report == if |row| == |columns| then Done else RowSizeMismatch
      ensures report == Done ==> Appended(row)
      ensures report == Done ==>
        GetRowCount() == old(GetRowCount()) + 1 && GetRow(GetRowCount() - 1) == Ok(row) &&
        GetRows()[..old(GetRowCount())] == old(GetRows())
      ensures report != Done ==> unchanged(Repr)
    {
      if |row| != |columns| {
        return RowSizeMismatch;
      }
      rows := rows + [row];
      AddToIndices(row, |rows| - 1);
      AppendPreservesConsistency(row);
      AppendExtendsLookups(row);
      report := Done;
    }

    /** Index consistency survives an insertion: once the row is appended and every
        index has recorded the row's cell at the new position, each index again
        matches the rows. */
    twostate lemma AppendPreservesConsistency(row: seq<string>)
      requires old(Valid()) && |row| == |columns|
      requires rows == old(rows) + [row] && indices == old(indices) && Repr == old(Repr)
      requires forall k :: 0 <= k < |indices| ==> indices[k].Valid()
      requires forall k :: 0 <= k < |indices| ==>
        indices[k].Entries == old(indices[k].Entries) + [Entry(row[ColumnOf(indices[k])], |old(rows)|)]
      ensures Valid()
    {
      forall k | 0 <= k < |indices|
        ensures IndexCurrent(indices[k])
      {
        PairsAfterAppend(old(rows), row, ColumnOf(indices[k]));
      }
    }

    /** The lookups of every index grew by exactly the new position, under the new
        row's cell at the index's column. */
    twostate lemma AppendExtendsLookups(row: seq<string>)
      requires old(Valid()) && Valid() && |row| == |columns|
      requires rows == old(rows) + [row] && indices == old(indices)
      requires forall k :: 0 <= k < |indices| ==>
        indices[k].Entries == old(indices[k].Entries) + [Entry(row[ColumnOf(indices[k])], |old(rows)|)]
      ensures Appended(row)
    {
      forall k | 0 <= k < |indices|
        ensures forall v ::
          indices[k].Search(v) ==
            old(indices[k].Search(v)) + (if row[ColumnOf(indices[k])] == v then [|old(rows)|] else [])
      {
        var e := Entry(row[ColumnOf(indices[k])], |old(rows)|);
        forall v
          ensures indices[k].Search(v) == old(indices[k].Search(v)) + (if e.value == v then [e.position] else [])
        {
          LookupIndexMap(old(indices[k].Entries), v);
          LookupIndexMap(indices[k].Entries, v);
          PostingsSnoc(old(indices[k].Entries), e, v);
        }
      }
    }

    /** The loop of `Insert` over the indices: each one records the new row's cell
        at its column under the new row's position. */
    method AddToIndices(row: seq<string>, position: nat)
      requires |row| == |columns|
      requires forall k, l :: 0 <= k < l < |indices| ==> indices[k] != indices[l]
      requires forall k :: 0 <= k < |indices| ==> indices[k].Valid() && indices[k].columnName in columns
      modifies set k | 0 <= k < |indices| :: indices[k]
      ensures forall k :: 0 <= k < |indices| ==> indices[k].Valid()
      ensures forall k :: 0 <= k < |indices| ==>
        indices[k].Entries == old(indices[k].Entries) + [Entry(row[ColumnOf(indices[k])], position)]
    {
      var i := 0;
      while i < |indices|
        invariant 0 <= i <= |indices|
        invariant forall k :: 0 <= k < |indices| ==> indices[k].Valid()
        invariant forall k :: 0 <= k < i ==>
          indices[k].Entries == old(indices[k].Entries) + [Entry(row[ColumnOf(indices[k])], position)]
        invariant forall k :: i <= k < |indices| ==>
          indices[k].Entries == old(indices[k].Entries)
      {
        var ix := indices[i];
        var c := Find(columns, ix.GetColumnName());
        ix.AddValue(row[c], position);
        i := i + 1;
      }
    }

    /** Builds a new index over the current cells of `columnName` and adds it, even
        when another index on that column exists; reports a column that is not in
        the schema and then changes nothing. */
    method CreateIndex(columnName: string) returns (report: Report)
      requires Valid()
      modifies this
      ensures Valid() && fresh(Repr - old(Repr)) && rows == old(rows)
      ensures report == if columnName in columns then Done else MissingColumn(columnName)
      ensures report != Done ==> unchanged(this)
      ensures report == Done ==> GetIndexCount() == old(GetIndexCount()) + 1
      ensures report == Done ==> IndexAdded(columnName)
      ensures forall k, v :: 0 <= k < |old(indices)| ==> indices[k].Search(v) == old(indices[k].Search(v))
    {
      var c := Find(columns, columnName);
      if c < |columns| {
        var values := ColumnSnapshot(c);
        var ix := new Index(columnName, values);
        indices := indices + [ix];
        Repr := Repr + {ix};
        report := Done;
      } else {
        report := MissingColumn(columnName);
      }
    }

    /** The cells of column `c`, one per row, in row order: the values a new index
        is seeded from. */
    method ColumnSnapshot(c: nat) returns (values: seq<string>)
      requires Valid() && c < |columns|
      ensures values == ColumnValues(rows, c)
      ensures |values| == |rows| && forall j :: 0 <= j < |rows| ==> values[j] == rows[j][c]
    {
      values := [];
      var i := 0;
      while i < |rows|
        invariant 0 <= i <= |rows|
        invariant |values| == i
        invariant forall j :: 0 <= j < i ==> values[j] == rows[j][c]
      {
        values := values + [rows[i][c]];
        i := i + 1;
      }
    }

    /** The result of the first index on `columnName` for `value`, or the empty
        sequence when no index is on that column. */
    method SearchIndex(columnName: string, value: string) returns (r: seq<nat>)
      requires Valid()
      ensures var k := Find(ColumnNames(indices), columnName);
        r == if k < |indices| then indices[k].Search(value) else []
      ensures columnName in ColumnNames(indices) ==>
        r == Positions(ColumnValues(rows, Find(columns, columnName)), value)
      ensures columnName !in ColumnNames(indices) ==> r == []
    {
      var i := 0;
      while i < |indices|
        invariant 0 <= i <= |indices|
        invariant forall j :: 0 <= j < i ==> indices[j].columnName != columnName
      {
        if indices[i].GetColumnName() == columnName {
          r := indices[i].Search(value);
          IndexConsistent(i, value);
          return;
        }
        i := i + 1;
      }
      r := [];
    }

    /** Index consistency, stated on lookups: every index returns exactly the
        ascending positions of the rows holding `v` at its column. */
    lemma IndexConsistent(k: nat, v: string)
      requires Valid() && k < |indices|
      ensures indices[k].Search(v) == Positions(ColumnValues(rows, ColumnOf(indices[k])), v)
      ensures forall i :: 0 <= i < |rows| ==> i in indices[k].Search(rows[i][ColumnOf(indices[k])])
    {
      var c := ColumnOf(indices[k]);
      LookupIndexMap(indices[k].Entries, v);
      PostingsOfPairs(ColumnValues(rows, c), v);
      forall i | 0 <= i < |rows|
        ensures i in indices[k].Search(rows[i][c])
      {
        LookupIndexMap(indices[k].Entries, rows[i][c]);
        PostingsOfPairs(ColumnValues(rows, c), rows[i][c]);
      }
    }

    /** The name given at construction; it is a constant. */
    function GetName(): (n: string)
      ensures n == name
    {
      name
    }

    /** The number of stored rows. */
    function GetRowCount(): (n: nat)
      reads this
      ensures n == |rows|
    {
      |rows|
    }

    /** The number of columns in the schema, which is a constant. */
    function GetColumnCount(): (n: nat)
      ensures n == |columns|
    {
      |columns|
    }

    /** The number of indices, duplicates included. */
    function GetIndexCount(): (n: nat)
      reads this
      ensures n == |indices|
    {
      |indices|
    }

    /** The schema given at construction. */
    function GetColumns(): (cs: seq<string>)
      ensures cs == columns
    {
      columns
    }

    /** The stored rows, oldest first. */
    function GetRows(): (rs: seq<seq<string>>)
      reads this
      ensures rs == rows
    {
      rows
    }

    /** Range-checked access to a row: a hard failure past the last row. */
    function GetRow(i: nat): (r: Result<seq<string>>)
      reads this
      ensures r.Ok? <==> i < |rows|
      ensures r.Ok? ==> r.value == rows[i]
      ensures r.Failure? ==> r.fault == RowIndexOutOfRange
    {
      if i >= |rows| then Failure(RowIndexOutOfRange) else Ok(rows[i])
    }

    /** Range-checked access to a column name: a hard failure past the last column. */
    function GetColumn(i: nat): (r: Result<string>)
      ensures r.Ok? <==> i < |columns|
      ensures r.Ok? ==> r.value == columns[i]
      ensures r.Failure? ==> r.fault == ColumnIndexOutOfRange
    {
      if i >= |columns| then Failure(ColumnIndexOutOfRange) else Ok(columns[i])
    }

    /** The validation pass: reports the first schema problem only, changes nothing. */
    method CheckInvariants() returns (issue: Option<SchemaIssue>)
      ensures issue == TableSchemaIssue(columns)
    {
      if |columns| == 0 {
        return Some(NoColumns);
      }
      var hasEmpty := HasEmptyName(columns);
      if hasEmpty {
        return Some(EmptyColumnName);
      }
      DistinctCardinality(columns);
      if |set c | c in columns| != |columns| {
        return Some(DuplicateColumns);
      }
      return None;
    }
  }
}

/** A single-column secondary index: each cell value maps to the row positions
    holding it, in the order they were added. */
module Indexes {
  import opened Cells

  class Index {
    const columnName: string
    var indexData: map<string, seq<nat>>
    /** Every `AddValue` call so far, oldest first: the abstract value of the index. */
    ghost var Entries: seq<Entry>

    /** The map is the one recording `Entries` in order builds. */
    ghost predicate Valid()
      reads this
    {
      indexData == IndexMap(Entries)
    }

    /** Seeds the index with `columnValues[i]` at position `i`, for every `i` in order. */
    constructor (columnName: string, columnValues: seq<string>)
      ensures this.columnName == columnName
      ensures Valid() && Entries == Pairs(columnValues)
      ensures forall v :: Search(v) == Positions(columnValues, v)
    {
      this.columnName := columnName;
      indexData := map[];
      Entries := [];
      new;
      var i := 0;
      while i < |columnValues|
        invariant 0 <= i <= |columnValues|
        invariant Valid() && Entries == Pairs(columnValues[..i])
      {
        AddValue(columnValues[i], i);
        PairsSnoc(columnValues[..i], columnValues[i]);
        assert columnValues[..i + 1] == columnValues[..i] + [columnValues[i]];
        i := i + 1;
      }
      assert columnValues[..i] == columnValues;
      forall v ensures Search(v) == Positions(columnValues, v) {
        LookupIndexMap(Entries, v);
        PostingsOfPairs(columnValues, v);
      }
    }

    /** Appends `position` to the list kept for `value`, creating the list if absent. */
    method AddValue(value: string, position: nat)
      requires Valid()
      modifies this
      ensures Valid() && Entries == old(Entries) + [Entry(value, position)]
      ensures Search(value) == old(Search(value)) + [position]
      ensures forall w :: w != value ==> Search(w) == old(Search(w))
    {
      indexData := indexData[value := Search(value) + [position]];
      Entries := Entries + [Entry(value, position)];
      assert Entries[..|Entries| - 1] == old(Entries);
    }

    /** The positions recorded under `value`; empty, not an error, when there are none. */
    function Search(value: string): (r: seq<nat>)
      reads this
    {
      Lookup(indexData, value)
    }

    /** The column name given at construction; it is a constant, so no operation
        changes it. */
    function GetColumnName(): (n: string)
      ensures n == columnName
    {
      columnName
    }

    /** What `Search` returns is the list of positions recorded with `value`, in order. */
    lemma SearchIsPostings(value: string)
      requires Valid()
      ensures Search(value) == Postings(Entries, value)
    {
      LookupIndexMap(Entries, value);
    }

    /** A value that was never added is found nowhere. */
    lemma SearchNeverAdded(value: string)
      requires Valid()
      requires forall i :: 0 <= i < |Entries| ==> Entries[i].value != value
      ensures Search(value) == []
    {
      LookupIndexMap(Entries, value);
      PostingsAbsent(Entries, value);
    }
  }

  /** The column names of a sequence of indices, in order. */
  function ColumnNames(ixs: seq<Index>): (ns: seq<string>)
    ensures |ns| == |ixs|
    ensures forall k :: 0 <= k < |ixs| ==> ns[k] == ixs[k].columnName
  {
    seq(|ixs|, k requires 0 <= k < |ixs| => ixs[k].columnName)
  }
}

/** Pure definitions over sequences of cell values that the index, the table and
    the database are specified with. */
module Cells {

  /** One `addValue` call recorded by an index: the cell value and the row position. */
  datatype Entry = Entry(value: string, position: nat)

  ghost predicate Ascending(r: seq<nat>)
  {
    forall a, b :: 0 <= a < b < |r| ==> r[a] < r[b]
  }

  ghost predicate NoDuplicates(s: seq<string>)
  {
    forall i, j :: 0 <= i < j < |s| ==> s[i] != s[j]
  }

  /** The ascending list of positions `i` such that `s[i] == v`. */
  function Positions(s: seq<string>, v: string): (r: seq<nat>)
    ensures forall i: nat :: i in r <==> i < |s| && s[i] == v
    ensures Ascending(r)
    decreases |s|
  {
    if s == [] then []
    else
      var p := Positions(s[..|s| - 1], v);
      assert forall a :: 0 <= a < |p| ==> p[a] in p;
      p + (if s[|s| - 1] == v then [|s| - 1] else [])
  }

  /** The positions recorded under `v`, in the order they were recorded. */
  function Postings(es: seq<Entry>, v: string): (ps: seq<nat>)
    decreases |es|
  {
    if es == [] then []
    else Postings(es[..|es| - 1], v) + (if es[|es| - 1].value == v then [es[|es| - 1].position] else [])
  }

  /** The list kept under `v`; a value with no list has the empty one. */
  function Lookup(m: map<string, seq<nat>>, v: string): (ps: seq<nat>)
  {
    if v in m then m[v] else []
  }

  /** The map an index holds after recording `es` in order. */
  function IndexMap(es: seq<Entry>): (m: map<string, seq<nat>>)
    decreases |es|
  {
    if es == [] then map[]
    else
      var m := IndexMap(es[..|es| - 1]);
      var e := es[|es| - 1];
      m[e.value := Lookup(m, e.value) + [e.position]]
  }

  /** The entries an index seeded from `values` records: value `values[i]` at position `i`. */
  function Pairs(values: seq<string>): (es: seq<Entry>)
    ensures |es| == |values|
    ensures forall i :: 0 <= i < |es| ==> es[i] == Entry(values[i], i)
  {
    seq(|values|, i requires 0 <= i < |values| => Entry(values[i], i))
  }

  /** The cells of column `c`, in row order. */
  function ColumnValues(rows: seq<seq<string>>, c: nat): (vs: seq<string>)
    requires forall i :: 0 <= i < |rows| ==> c < |rows[i]|
    ensures |vs| == |rows|
    ensures forall i :: 0 <= i < |rows| ==> vs[i] == rows[i][c]
  {
    seq(|rows|, i requires 0 <= i < |rows| => rows[i][c])
  }

  /** The position of the first occurrence of `x` in `s`, or `|s|` when there is none. */
  function Find(s: seq<string>, x: string): (k: nat)
    ensures k <= |s|
    ensures k < |s| ==> s[k] == x
    ensures forall j :: 0 <= j < k ==> s[j] != x
  {
    if s == [] then 0
    else if s[0] == x then 0
    else 1 + Find(s[1..], x)
  }

  /** The first position whose element already occurs earlier, or `|s|` when there is none. */
  function FirstRepeat(s: seq<string>): (k: nat)
    ensures k <= |s|
    ensures k < |s| ==> s[k] in s[..k]
    ensures forall j :: 0 <= j < k ==> s[j] !in s[..j]
    decreases |s|
  {
    if s == [] then 0
    else
      var init := s[..|s| - 1];
      var k := FirstRepeat(init);
      assert forall j :: 0 <= j < |init| ==> init[..j] == s[..j];
      if k < |init| then k
      else if s[|s| - 1] in init then |s| - 1
      else |s|
  }

  /** Whether some column name is the empty string, scanning in order. */
  method HasEmptyName(columns: seq<string>) returns (found: bool)
    ensures found <==> "" in columns
  {
    var i := 0;
    while i < |columns|
      invariant 0 <= i <= |columns|
      invariant "" !in columns[..i]
    {
      if columns[i] == "" {
        return true;
      }
      assert columns[..i + 1] == columns[..i] + [columns[i]];
      i := i + 1;
    }
    assert columns[..i] == columns;
    return false;
  }

  // ---- Lemmas -------------------------------------------------------------

  lemma PostingsSnoc(es: seq<Entry>, e: Entry, v: string)
    ensures Postings(es + [e], v) == Postings(es, v) + (if e.value == v then [e.position] else [])
  {
    assert (es + [e])[..|es|] == es;
  }

  /** The map built from `es` lists, under each value, exactly its postings. */
  lemma {:induction false} LookupIndexMap(es: seq<Entry>, v: string)
    ensures Lookup(IndexMap(es), v) == Postings(es, v)
    decreases |es|
  {
    if es != [] {
      LookupIndexMap(es[..|es| - 1], v);
    }
  }

  /** A value that no entry carries has no postings. */
  lemma {:induction false} PostingsAbsent(es: seq<Entry>, v: string)
    requires forall i :: 0 <= i < |es| ==> es[i].value != v
    ensures Postings(es, v) == []
  {
    if es != [] {
      PostingsAbsent(es[..|es| - 1], v);
    }
  }

  /** Recording value `values[i]` at position `i` for every `i`, in order, files
      each value under exactly the ascending positions that hold it. */
  lemma {:induction false} PostingsOfPairs(values: seq<string>, v: string)
    ensures Postings(Pairs(values), v) == Positions(values, v)
    decreases |values|
  {
    if values != [] {
      var init := values[..|values| - 1];
      assert Pairs(values)[..|values| - 1] == Pairs(init);
      PostingsOfPairs(init, v);
    }
  }

  lemma PairsSnoc(values: seq<string>, x: string)
    ensures Pairs(values + [x]) == Pairs(values) + [Entry(x, |values|)]
  {
  }

  lemma ColumnValuesSnoc(rows: seq<seq<string>>, row: seq<string>, c: nat)
    requires forall i :: 0 <= i < |rows| ==> c < |rows[i]|
    requires c < |row|
    ensures ColumnValues(rows + [row], c) == ColumnValues(rows, c) + [row[c]]
  {
  }

  /** Appending a row extends the entries of column `c` by that row's cell at the new position. */
  lemma PairsAfterAppend(rows: seq<seq<string>>, row: seq<string>, c: nat)
    requires forall i :: 0 <= i < |rows| ==> c < |rows[i]|
    requires c < |row|
    ensures Pairs(ColumnValues(rows + [row], c)) == Pairs(ColumnValues(rows, c)) + [Entry(row[c], |rows|)]
  {
    ColumnValuesSnoc(rows, row, c);
    PairsSnoc(ColumnValues(rows, c), row[c]);
  }

  /** A sequence has as many distinct elements as positions exactly when no
      element repeats (and never more). */
  lemma {:induction false} DistinctCardinality(s: seq<string>)
    ensures |set x | x in s| <= |s|
    ensures |set x | x in s| == |s| <==> NoDuplicates(s)
    decreases |s|
  {
    if s != [] {
      var init, last := s[..|s| - 1], s[|s| - 1];
      DistinctCardinality(init);
      assert s == init + [last];
      assert (set x | x in s) == (set x | x in init) + {last};
      if last in init {
        assert (set x | x in s) == (set x | x in init);
        var i :| 0 <= i < |init| && init[i] == last;
        assert s[i] == s[|s| - 1];
      } else {
        assert NoDuplicates(s) <==> NoDuplicates(init);
      }
    }
  }

  /** No element repeats exactly when `FirstRepeat` finds nothing. */
  lemma FirstRepeatNone(s: seq<string>)
    ensures FirstRepeat(s) == |s| <==> NoDuplicates(s)
  {
    var k := FirstRepeat(s);
    if k < |s| {
      var i :| 0 <= i < k && s[i] == s[k];
    } else {
      forall i, j | 0 <= i < j < |s| ensures s[i] != s[j] {
        assert s[i] in s[..j];
      }
    }
  }
}

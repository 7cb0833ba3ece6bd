/** De-duplication: `drop_duplicates`, which keeps the first occurrence of
    every distinct row (pandas `DataFrame.drop_duplicates()` with its default
    `keep='first'`; two null cells count as equal). */
module Dedup {
  import opened Tables

  predicate NoDuplicates(rows: seq<Row>) {
    forall a, b :: 0 <= a < b < |rows| ==> rows[a] != rows[b]
  }

  /** Rows with every repeat of an earlier row removed, scanning top to bottom. */
  function DropDuplicateRows(rows: seq<Row>): (r: seq<Row>)
    ensures |r| <= |rows|
    ensures forall x :: x in r <==> x in rows
    ensures NoDuplicates(r)
  {
    if |rows| == 0 then []
    else
      var init, last := rows[..|rows| - 1], rows[|rows| - 1];
      assert rows == init + [last];
      var prev := DropDuplicateRows(init);
      if last in prev then prev else prev + [last]
  }

  /** Row `i` is the first row equal to itself. */
  predicate IsFirstOccurrence(rows: seq<Row>, i: nat)
    requires i < |rows|
  {
    forall k :: 0 <= k < i ==> rows[k] != rows[i]
  }

  /** Reference definition: the rows among the first `n` that are first
      occurrences, in their original order. */
  function FirstOccurrences(rows: seq<Row>, n: nat): seq<Row>
    requires n <= |rows|
  {
    if n == 0 then []
    else FirstOccurrences(rows, n - 1) + (if IsFirstOccurrence(rows, n - 1) then [rows[n - 1]] else [])
  }

  lemma {:induction false} KeepsFirstOccurrencesOfPrefix(rows: seq<Row>, n: nat)
    requires n <= |rows|
    ensures DropDuplicateRows(rows[..n]) == FirstOccurrences(rows, n)
  {
    if n > 0 {
      KeepsFirstOccurrencesOfPrefix(rows, n - 1);
      var prefix := rows[..n];
      assert prefix[..n - 1] == rows[..n - 1];
      var prev := DropDuplicateRows(rows[..n - 1]);
      var last := rows[n - 1];
      if IsFirstOccurrence(rows, n - 1) {
        assert last !in rows[..n - 1];
        assert last !in prev;
      } else {
        var k :| 0 <= k < n - 1 && rows[k] == last;
        assert rows[..n - 1][k] == last;
        assert last in prev;
      }
    }
  }

  /** The kept rows are exactly the first occurrences, in their original relative order. */
  lemma KeepsFirstOccurrences(rows: seq<Row>)
    ensures DropDuplicateRows(rows) == FirstOccurrences(rows, |rows|)
  {
    KeepsFirstOccurrencesOfPrefix(rows, |rows|);
    assert rows[..|rows|] == rows;
  }

  /** Rows that are already pairwise distinct are kept as they are. */
  lemma {:induction false} DistinctRowsUnchanged(rows: seq<Row>)
    requires NoDuplicates(rows)
    ensures DropDuplicateRows(rows) == rows
  {
    if |rows| > 0 {
      var init, last := rows[..|rows| - 1], rows[|rows| - 1];
      DistinctRowsUnchanged(init);
      assert last !in init;
      assert rows == init + [last];
    }
  }

  /** Removing duplicates a second time changes nothing. */
  lemma DropDuplicateRowsIdempotent(rows: seq<Row>)
    ensures DropDuplicateRows(DropDuplicateRows(rows)) == DropDuplicateRows(rows)
  {
    DistinctRowsUnchanged(DropDuplicateRows(rows));
  }

  /** Nothing is removed exactly when the rows were already pairwise distinct. */
  lemma {:induction false} NothingRemovedIffDistinct(rows: seq<Row>)
    ensures |DropDuplicateRows(rows)| == |rows| <==> NoDuplicates(rows)
  {
    if NoDuplicates(rows) {
      DistinctRowsUnchanged(rows);
    }
    if |rows| > 0 && |DropDuplicateRows(rows)| == |rows| {
      var init, last := rows[..|rows| - 1], rows[|rows| - 1];
      assert rows == init + [last];
      NothingRemovedIffDistinct(init);
      DistinctRowsUnchanged(init);
      assert NoDuplicates(rows);
    }
  }

  /** `drop_duplicates` on a frame: the columns are untouched. A frame with
      no columns is `empty` to pandas and comes back as it is; otherwise the
      rows are de-duplicated, keeping each first occurrence, in their original
      relative order. */
  function DropDuplicates(t: Table): (r: Table)
    ensures r.names == t.names && r.numeric == t.numeric
    ensures Valid(t) ==> Valid(r)
    ensures |r.rows| <= |t.rows|
    ensures forall x :: x in r.rows <==> x in t.rows
    ensures |t.names| == 0 ==> r == t
    ensures |t.names| > 0 ==> NoDuplicates(r.rows) && r.rows == FirstOccurrences(t.rows, |t.rows|)
  {
    if |t.names| == 0 then t
    else
      var kept := DropDuplicateRows(t.rows);
      KeepsFirstOccurrences(t.rows);
      assert forall i :: 0 <= i < |kept| ==> kept[i] in t.rows;
      Table(t.names, t.numeric, kept)
  }

  /** The count `drop_duplicates` reports, `before - after`; it is never negative. */
  function RemovedCount(t: Table): (n: nat)
    ensures n == 0 <==> |t.names| == 0 || NoDuplicates(t.rows)
  {
    NothingRemovedIffDistinct(t.rows);
    |t.rows| - |DropDuplicates(t).rows|
  }

  /** The stage itself: a missing frame (`None`) fails inside the try block
      and gives `None`; a frame keeps its columns and, unless it has none, the
      first occurrence of each row, in order. */
  function DropDuplicatesStage(data: Option<Table>): (r: Option<Table>)
    ensures r.Some? <==> data.Some?
    ensures r.Some? ==> |r.value.rows| <= |data.value.rows|
    ensures r.Some? ==> r.value.names == data.value.names && r.value.numeric == data.value.numeric
    ensures r.Some? && |data.value.names| == 0 ==> r.value == data.value
    ensures r.Some? && |data.value.names| > 0 ==>
      NoDuplicates(r.value.rows) && r.value.rows == FirstOccurrences(data.value.rows, |data.value.rows|)
    ensures r.Some? ==> r.value == DropDuplicates(data.value)
  {
    match data
    case None => None
    case Some(t) => Some(DropDuplicates(t))
  }
}

/** Sparse-column pruning: `remove_columns_with_missing_values`, whose body
    `clean_data` repeats inline when a threshold is given. */
module Pruning {
  import opened Tables

  /** `missing_ratio > threshold` for column `j`, where the ratio is the null
      count over the row count. On a table with no rows the ratio is NaN,
      which compares greater than nothing, so no column is ever dropped. The
      ratio and the comparison are exact rather than float64. */
  predicate Dropped(t: Table, j: nat, threshold: real)
    requires Valid(t) && j < |t.names|
    ensures Dropped(t, j, threshold) ==> |t.rows| > 0
    ensures Dropped(t, j, threshold) && threshold >= 0.0 ==> NullCount(Column(t, j)) > 0
    ensures |t.rows| > 0 && threshold < 0.0 ==> Dropped(t, j, threshold)
  {
    |t.rows| > 0 && (NullCount(Column(t, j)) as real) / (|t.rows| as real) > threshold
  }

  /** The indices below `n` of the columns that survive, in ascending order. */
  function KeptBelow(t: Table, threshold: real, n: nat): (keep: seq<nat>)
    requires Valid(t) && n <= |t.names|
    ensures forall m :: 0 <= m < |keep| ==> keep[m] < n && !Dropped(t, keep[m], threshold)
    ensures forall a, b :: 0 <= a < b < |keep| ==> keep[a] < keep[b]
    ensures forall j :: 0 <= j < n && !Dropped(t, j, threshold) ==> j in keep
  {
    if n == 0 then []
    else
      var prev := KeptBelow(t, threshold, n - 1);
      if Dropped(t, n - 1, threshold) then prev
      else
        assert forall m :: 0 <= m < |prev| ==> (prev + [n - 1])[m] == prev[m];
        prev + [n - 1]
  }

  /** When no column below `n` is dropped, every index below `n` is kept. */
  lemma {:induction false} KeptBelowAll(t: Table, threshold: real, n: nat)
    requires Valid(t) && n <= |t.names|
    requires forall j :: 0 <= j < n ==> !Dropped(t, j, threshold)
    ensures |KeptBelow(t, threshold, n)| == n
    ensures forall m :: 0 <= m < n ==> KeptBelow(t, threshold, n)[m] == m
  {
    if n > 0 { KeptBelowAll(t, threshold, n - 1); }
  }

  /** The indices of all surviving columns. */
  function Kept(t: Table, threshold: real): seq<nat>
    requires Valid(t)
  {
    KeptBelow(t, threshold, |t.names|)
  }

  /** The elements of `s` at the positions `idx`, in that order. */
  function Pick<T>(s: seq<T>, idx: seq<nat>): (r: seq<T>)
    requires forall m :: 0 <= m < |idx| ==> idx[m] < |s|
    ensures |r| == |idx|
  {
    seq(|idx|, m requires 0 <= m < |idx| => s[idx[m]])
  }

  /** `data.drop(columns=columns_to_drop)`: the surviving columns, in their
      original relative order, with every row and every cell kept as it was. */
  function Prune(t: Table, threshold: real): (r: Table)
    requires Valid(t)
    ensures Valid(r)
    ensures |r.rows| == |t.rows|
    ensures |r.names| == |Kept(t, threshold)| <= |t.names|
    ensures forall m :: 0 <= m < |r.names| ==>
      r.names[m] == t.names[Kept(t, threshold)[m]] && r.numeric[m] == t.numeric[Kept(t, threshold)[m]]
    ensures forall i, m :: 0 <= i < |r.rows| && 0 <= m < |r.names| ==>
      |r.rows[i]| == |r.names| && r.rows[i][m] == t.rows[i][Kept(t, threshold)[m]]
  {
    var keep := Kept(t, threshold);
    assert |keep| <= |t.names| by {
      if |keep| > |t.names| {
        PigeonholeIncreasing(keep, |t.names|);
        assert false;
      }
    }
    Table(Pick(t.names, keep), Pick(t.numeric, keep),
          seq(|t.rows|, i requires 0 <= i < |t.rows| => Pick(t.rows[i], keep)))
  }

  /** A strictly increasing sequence of naturals below `n` has at most `n` elements. */
  lemma {:induction false} PigeonholeIncreasing(s: seq<nat>, n: nat)
    requires forall a, b :: 0 <= a < b < |s| ==> s[a] < s[b]
    requires forall m :: 0 <= m < |s| ==> s[m] < n
    ensures |s| <= n
  {
    if |s| > 0 {
      PigeonholeIncreasing(s[..|s| - 1], s[|s| - 1]);
    }
  }

  /** Surviving column `m` is original column `Kept[m]`, cell for cell. */
  lemma ColumnKept(t: Table, threshold: real, m: nat)
    requires Valid(t) && m < |Prune(t, threshold).names|
    ensures Column(Prune(t, threshold), m) == Column(t, Kept(t, threshold)[m])
  {
  }

  /** A column is dropped exactly when its null ratio strictly exceeds the threshold. */
  lemma PruneDropsExactly(t: Table, threshold: real, j: nat)
    requires Valid(t) && j < |t.names|
    ensures t.names[j] in Prune(t, threshold).names <==> !Dropped(t, j, threshold)
  {
    var r, keep := Prune(t, threshold), Kept(t, threshold);
    if !Dropped(t, j, threshold) {
      var m :| 0 <= m < |keep| && keep[m] == j;
      assert r.names[m] == t.names[j];
    }
    if t.names[j] in r.names {
      var m :| 0 <= m < |r.names| && r.names[m] == t.names[j];
      assert t.names[keep[m]] == t.names[j];
      assert keep[m] == j;
    }
  }

  /** Every column of the pruned table has a null ratio of at most the threshold. */
  lemma RetainedWithinThreshold(t: Table, threshold: real)
    requires Valid(t)
    ensures forall m :: 0 <= m < |Prune(t, threshold).names| ==> !Dropped(Prune(t, threshold), m, threshold)
  {
    forall m | 0 <= m < |Prune(t, threshold).names|
      ensures !Dropped(Prune(t, threshold), m, threshold)
    {
      ColumnKept(t, threshold, m);
    }
  }

  /** When no column qualifies for dropping, pruning returns the table unchanged. */
  lemma NothingDroppedIsIdentity(t: Table, threshold: real)
    requires Valid(t)
    requires forall j :: 0 <= j < |t.names| ==> !Dropped(t, j, threshold)
    ensures Prune(t, threshold) == t
  {
    var r := Prune(t, threshold);
    KeptBelowAll(t, threshold, |t.names|);
    assert r.names == t.names;
    assert r.numeric == t.numeric;
    forall i | 0 <= i < |t.rows| ensures r.rows[i] == t.rows[i] {
    }
  }

  lemma RatioAtMostOne(k: nat, n: nat)
    requires 0 < n && k <= n
    ensures (k as real) / (n as real) <= 1.0
  {
    assert (k as real) / (n as real) * (n as real) == k as real;
  }

  /** A threshold of 1.0 or more drops nothing: no ratio exceeds 1. */
  lemma ThresholdOneDropsNothing(t: Table, threshold: real)
    requires Valid(t) && threshold >= 1.0
    ensures Prune(t, threshold) == t
  {
    forall j | 0 <= j < |t.names| ensures !Dropped(t, j, threshold) {
      if |t.rows| > 0 { RatioAtMostOne(NullCount(Column(t, j)), |t.rows|); }
    }
    NothingDroppedIsIdentity(t, threshold);
  }

  /** A table without rows loses no column, whatever the threshold. */
  lemma ZeroRowsDropsNothing(t: Table, threshold: real)
    requires Valid(t) && |t.rows| == 0
    ensures Prune(t, threshold) == t
  {
    NothingDroppedIsIdentity(t, threshold);
  }

  /** Pruning a pruned table with the same threshold changes nothing. */
  lemma PruneIdempotent(t: Table, threshold: real)
    requires Valid(t)
    ensures Prune(Prune(t, threshold), threshold) == Prune(t, threshold)
  {
    RetainedWithinThreshold(t, threshold);
    NothingDroppedIsIdentity(Prune(t, threshold), threshold);
  }

  /** A column of the input survives pruning exactly when it is not over the
      threshold, and every surviving column is an input column with the same
      name and cells. */
  lemma PruneSurvivors(t: Table, threshold: real)
    requires Valid(t)
    ensures forall j :: 0 <= j < |t.names| ==>
      (t.names[j] in Prune(t, threshold).names <==> !Dropped(t, j, threshold))
    ensures forall m :: 0 <= m < |Prune(t, threshold).names| ==>
      exists j: nat :: j < |t.names| && Prune(t, threshold).names[m] == t.names[j]
                  && Column(Prune(t, threshold), m) == Column(t, j)
  {
    forall j | 0 <= j < |t.names|
      ensures t.names[j] in Prune(t, threshold).names <==> !Dropped(t, j, threshold)
    {
      PruneDropsExactly(t, threshold, j);
    }
    var r := Prune(t, threshold);
    forall m | 0 <= m < |r.names|
      ensures exists j: nat :: j < |t.names| && r.names[m] == t.names[j] && Column(r, m) == Column(t, j)
    {
      ColumnKept(t, threshold, m);
      var j := Kept(t, threshold)[m];
      assert j < |t.names| && r.names[m] == t.names[j] && Column(r, m) == Column(t, j);
    }
  }

  /** `remove_columns_with_missing_values`: a missing frame (`None`) fails
      inside the try block and gives `None`; otherwise the pruned frame, in
      which a column of the input survives exactly when its null ratio does
      not exceed the threshold, with its cells unchanged. */
  function RemoveColumnsWithMissingValues(data: Option<Table>, threshold: real): (r: Option<Table>)
    requires data.Some? ==> Valid(data.value)
    ensures r.Some? <==> data.Some?
    ensures r.Some? ==> Valid(r.value) && |r.value.rows| == |data.value.rows|
    ensures r.Some? ==> forall m :: 0 <= m < |r.value.names| ==> !Dropped(r.value, m, threshold)
    ensures r.Some? ==> forall j :: 0 <= j < |data.value.names| ==>
      (data.value.names[j] in r.value.names <==> !Dropped(data.value, j, threshold))
    ensures r.Some? ==> forall m :: 0 <= m < |r.value.names| ==>
      exists j: nat :: j < |data.value.names| && r.value.names[m] == data.value.names[j]
                  && Column(r.value, m) == Column(data.value, j)
    ensures r.Some? ==> r.value == Prune(data.value, threshold)
  {
    match data
    case None => None
    case Some(t) =>
      RetainedWithinThreshold(t, threshold);
      PruneSurvivors(t, threshold);
      Some(Prune(t, threshold))
  }
}

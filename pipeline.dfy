/** The composed pipeline `clean_data`: load, datetime conversion, missing-value
    audit, optional pruning, imputation, de-duplication. Loading and the
    datetime conversion are pandas calls outside the model, so they enter as
    the frames (or failures) they produce. */
module Cleaning {
  import opened Tables
  import opened Pruning
  import opened Imputation
  import opened Dedup

  /** How a call of `clean_data` ends: it returns a frame, it returns `None`,
      or an exception escapes it. */
  datatype Outcome = Returned(table: Table) | ReturnedNone | Raised

  /** The frame after the optional pruning step: pruned only when a
      threshold is given. */
  function PruneIfThreshold(t: Table, threshold: Option<real>): (r: Table)
    requires Valid(t)
    ensures Valid(r) && |r.rows| == |t.rows|
    ensures threshold.None? ==> r == t
    ensures threshold.Some? ==> Some(r) == RemoveColumnsWithMissingValues(Some(t), threshold.value)
  {
    if threshold.Some? then Prune(t, threshold.value) else t
  }

  /** Reference composition of the stages. `loaded` is what `load_data`
      returned and `converted` what `convert_to_datetime` returned for the
      loaded frame. A failed conversion yields `None`, which reaches
      `check_missing_values`; that call has no try block, so `None.isnull()`
      raises out of `clean_data`. A failed fill yields `None`, and
      `drop_duplicates(None)` turns it into `None` inside its own try block.
      When pruning removed every column, the frame is `empty` and keeps all
      of its rows. */
  function Cleaned(loaded: Option<Table>, converted: Option<Table>, strategy: string, threshold: Option<real>): (r: Outcome)
    requires converted.Some? ==> Valid(converted.value)
    ensures loaded.None? ==> r == ReturnedNone
    ensures loaded.Some? && converted.None? ==> r == Raised
    ensures loaded.Some? && converted.Some? ==>
      (r == ReturnedNone <==> !FillOutcome(PruneIfThreshold(converted.value, threshold), strategy).returned)
    ensures loaded.Some? && converted.Some? && strategy != "mean" && strategy != "median" && strategy != "mode" ==>
      r == ReturnedNone
    ensures loaded.Some? && converted.Some? && (strategy == "mean" || strategy == "median") ==> r.Returned?
    ensures r.Returned? ==>
      && Valid(r.table)
      && (|r.table.names| > 0 ==> NoDuplicates(r.table.rows))
      && |r.table.rows| <= |converted.value.rows|
      && r.table.names == PruneIfThreshold(converted.value, threshold).names
      && (threshold.None? ==> r.table.names == converted.value.names)
    ensures r.Returned? ==>
      var filled := FillOutcome(PruneIfThreshold(converted.value, threshold), strategy).frame;
      && (|r.table.names| > 0 ==> r.table.rows == FirstOccurrences(filled.rows, |filled.rows|))
      && (|r.table.names| == 0 ==> r.table.rows == filled.rows)
      && (forall x :: x in r.table.rows <==> x in filled.rows)
  {
    if loaded.None? then ReturnedNone
    else if converted.None? then Raised
    else
      var pruned := PruneIfThreshold(converted.value, threshold);
      var fill := FillOutcome(pruned, strategy);
      var deduped := DropDuplicatesStage(if fill.returned then Some(fill.frame) else None);
      if deduped.Some? then Returned(deduped.value) else ReturnedNone
  }

  /** `clean_data(file_path, datetime_column, fill_strategy, threshold)`. */
  method CleanData(loaded: Option<Table>, converted: Option<Table>, strategy: string, threshold: Option<real>)
    returns (r: Outcome)
    requires converted.Some? ==> Valid(converted.value)
    ensures r == Cleaned(loaded, converted, strategy, threshold)
  {
    if loaded.None? {
      // a failed load returns None; nothing else runs
      return ReturnedNone;
    }
    if converted.None? {
      // check_missing_values(None): None has no isnull()
      return Raised;
    }
    var t := converted.value;
    var missing := MissingCounts(t);
    if threshold.Some? {
      t := Prune(t, threshold.value);
    }
    var frame := new Frame(t);
    var ok := frame.FillMissingValues(strategy);
    var data := if ok then Some(frame.Snapshot()) else None;
    data := DropDuplicatesStage(data);
    r := if data.Some? then Returned(data.value) else ReturnedNone;
  }

  /** When pruning removes every column, the filled frame is `empty` to
      pandas, so `clean_data` returns one (column-less) row per input row. */
  lemma AllColumnsPrunedKeepsRows(loaded: Table, t: Table, strategy: string, threshold: Option<real>)
    requires Valid(t) && (strategy == "mean" || strategy == "median")
    requires |PruneIfThreshold(t, threshold).names| == 0
    ensures Cleaned(Some(loaded), Some(t), strategy, threshold).Returned?
    ensures |Cleaned(Some(loaded), Some(t), strategy, threshold).table.names| == 0
    ensures |Cleaned(Some(loaded), Some(t), strategy, threshold).table.rows| == |t.rows|
  {
  }

  /** Removing duplicate rows keeps a frame free of nulls. */
  lemma DropDuplicatesKeepsNoNulls(t: Table)
    requires NoNulls(t)
    ensures NoNulls(DropDuplicates(t))
  {
    var r := DropDuplicates(t);
    forall i, j | 0 <= i < |r.rows| && 0 <= j < |r.rows[i]| ensures r.rows[i][j].Some? {
      assert r.rows[i] in t.rows;
      var k :| 0 <= k < |t.rows| && t.rows[k] == r.rows[i];
      assert t.rows[k][j].Some?;
    }
  }

  /** Under "mode", `clean_data` returns a frame exactly when every column
      left after pruning has some value, and that frame has no null cell. */
  lemma ModeLeavesNoNulls(loaded: Table, t: Table, threshold: Option<real>)
    requires Valid(t)
    ensures Cleaned(Some(loaded), Some(t), "mode", threshold).Returned? <==>
      HaveValues(PruneIfThreshold(t, threshold), 0, |PruneIfThreshold(t, threshold).names|)
    ensures Cleaned(Some(loaded), Some(t), "mode", threshold).Returned? ==>
      NoNulls(Cleaned(Some(loaded), Some(t), "mode", threshold).table)
  {
    var pruned := PruneIfThreshold(t, threshold);
    if FillOutcome(pruned, "mode").returned {
      ModeFillLeavesNoNulls(pruned);
      assert FillOutcome(pruned, "mode").frame == FillAll(pruned, ModeStat);
      DropDuplicatesKeepsNoNulls(FillAll(pruned, ModeStat));
    }
  }
}

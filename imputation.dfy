/** Imputation: `fill_missing_values`. The source loops over the columns and
    reassigns `data[column]` in the caller's frame, so the operation is a
    method of a mutable `Frame`, specified by the pure `FillOutcome`. */
module Imputation {
  import opened Values
  import opened Stats
  import opened Tables

  /** The statistics a strategy string selects. */
  datatype Stat = MeanStat | MedianStat | ModeStat

  /** The numbers among the cells, in order (nulls and non-numbers skipped). */
  function NumbersOf(cells: seq<Cell>): seq<real> {
    if |cells| == 0 then []
    else
      (if cells[0].Some? && cells[0].value.Num? then [cells[0].value.x] else []) + NumbersOf(cells[1..])
  }

  /** In a column that holds only numbers, there is one number per non-null cell. */
  lemma {:induction false} NumbersMatchValues(cells: seq<Cell>)
    requires AllNumbers(cells)
    ensures |NumbersOf(cells)| == |PresentValues(cells)|
  {
    if |cells| > 0 { NumbersMatchValues(cells[1..]); }
  }

  /** A column whose non-null cells are all numbers. */
  predicate AllNumbers(cells: seq<Cell>) {
    forall k :: 0 <= k < |cells| && cells[k].Some? ==> cells[k].value.Num?
  }

  /** The statistic `fillna` receives for a column, or `None` where the
      column is left alone: a non-numeric column under mean or median (not
      selected by `select_dtypes`), or a column without any value (the
      statistic is NaN and `fillna(NaN)` is a no-op). */
  function Statistic(col: seq<Cell>, isNumeric: bool, s: Stat): (v: Option<Value>)
    requires isNumeric ==> AllNumbers(col)
    ensures v.Some? ==> |PresentValues(col)| > 0
    ensures v.Some? && isNumeric ==> v.value.Num?
    ensures s != ModeStat && !isNumeric ==> v.None?
  {
    var vs := PresentValues(col);
    if |vs| == 0 then None
    else if s == ModeStat then
      PresentValuesExactly(col);
      Some(Mode(vs))
    else if !isNumeric then None
    else
      NumbersMatchValues(col);
      var xs := NumbersOf(col);
      Some(Num(if s == MeanStat then Mean(xs) else Median(xs)))
  }

  /** In a well-formed frame the non-null cells of a numeric column are numbers. */
  lemma NumericColumnsHoldNumbers(t: Table)
    requires Valid(t)
    ensures forall j :: 0 <= j < |t.names| && t.numeric[j] ==> AllNumbers(Column(t, j))
  {
  }

  /** One statistic per column: what the fill loop passes to `fillna` for
      each column, computed from the column's values as they are before the
      loop starts. */
  function Statistics(t: Table, s: Stat): (fills: seq<Option<Value>>)
    requires Valid(t)
    ensures |fills| == |t.names|
    ensures forall j :: 0 <= j < |t.names| && fills[j].Some? && t.numeric[j] ==> fills[j].value.Num?
  {
    NumericColumnsHoldNumbers(t);
    seq(|t.names|, j requires 0 <= j < |t.names| => Statistic(Column(t, j), t.numeric[j], s))
  }

  /** Fill values that keep the frame well-formed: one per column, and a
      number wherever the column is numeric. */
  predicate Fits(t: Table, fills: seq<Option<Value>>) {
    && Valid(t)
    && |fills| == |t.names|
    && forall j :: 0 <= j < |t.names| && fills[j].Some? && t.numeric[j] ==> fills[j].value.Num?
  }

  /** `fillna(v)` on one cell: a null takes the fill value, if there is one. */
  function FillCell(c: Cell, v: Option<Value>): Cell {
    if c.None? && v.Some? then v else c
  }

  /** `data[column] = data[column].fillna(v)` for column `j`. */
  function FillColumnWith(t: Table, j: nat, v: Option<Value>): (r: Table)
    requires Valid(t) && j < |t.names|
    requires v.Some? && t.numeric[j] ==> v.value.Num?
    ensures Valid(r) && r.names == t.names && r.numeric == t.numeric && |r.rows| == |t.rows|
    ensures forall i, c :: 0 <= i < |t.rows| && 0 <= c < |t.names| ==>
      r.rows[i][c] == if c == j then FillCell(t.rows[i][j], v) else t.rows[i][c]
  {
    t.(rows := seq(|t.rows|, i requires 0 <= i < |t.rows| => t.rows[i][j := FillCell(t.rows[i][j], v)]))
  }

  /** The frame after the first `k` columns have been filled with `fills`. */
  function FillFirst(t: Table, fills: seq<Option<Value>>, k: nat): (r: Table)
    requires Fits(t, fills) && k <= |t.names|
    ensures Valid(r) && r.names == t.names && r.numeric == t.numeric && |r.rows| == |t.rows|
  {
    if k == 0 then t else FillColumnWith(FillFirst(t, fills, k - 1), k - 1, fills[k - 1])
  }

  /** The first `k` columns are filled, the others are as they were. */
  lemma {:induction false} FilledCell(t: Table, fills: seq<Option<Value>>, k: nat, i: nat, j: nat)
    requires Fits(t, fills) && k <= |t.names| && i < |t.rows| && j < |t.names|
    ensures FillFirst(t, fills, k).rows[i][j] == if j < k then FillCell(t.rows[i][j], fills[j]) else t.rows[i][j]
  {
    if k > 0 {
      FilledCell(t, fills, k - 1, i, j);
    }
  }

  /** Column `k`, not yet reached, is as it was, and so is its statistic. */
  lemma ColumnNotYetFilled(t: Table, fills: seq<Option<Value>>, k: nat)
    requires Fits(t, fills) && k < |t.names|
    ensures Column(FillFirst(t, fills, k), k) == Column(t, k)
  {
    forall i | 0 <= i < |t.rows| ensures FillFirst(t, fills, k).rows[i][k] == t.rows[i][k] {
      FilledCell(t, fills, k, i, k);
    }
  }

  /** `r` is `t` after the loop has processed the first `k` columns with
      statistic `s`: each of those columns has its nulls replaced by the
      column's statistic, and every other cell is as it was. */
  predicate FilledUpTo(t: Table, s: Stat, k: nat, r: Table)
    requires Valid(t) && Valid(r) && r.names == t.names && |r.rows| == |t.rows|
  {
    forall i, j :: 0 <= i < |t.rows| && 0 <= j < |t.names| ==>
      r.rows[i][j] == if j < k then FillCell(t.rows[i][j], Statistics(t, s)[j]) else t.rows[i][j]
  }

  /** The cells of `FillFirst` with the fill values of statistic `s`. */
  lemma FilledCellsWith(t: Table, s: Stat, k: nat)
    requires Valid(t) && k <= |t.names|
    ensures FilledUpTo(t, s, k, FillFirst(t, Statistics(t, s), k))
  {
    var r := FillFirst(t, Statistics(t, s), k);
    forall i, j | 0 <= i < |t.rows| && 0 <= j < |t.names|
      ensures r.rows[i][j] == if j < k then FillCell(t.rows[i][j], Statistics(t, s)[j]) else t.rows[i][j]
    {
      FilledCell(t, Statistics(t, s), k, i, j);
    }
  }

  /** The frame after the loop has processed the first `k` columns with
      statistic `s`. */
  function FillColumnsUpTo(t: Table, s: Stat, k: nat): (r: Table)
    requires Valid(t) && k <= |t.names|
    ensures Valid(r) && r.names == t.names && r.numeric == t.numeric && |r.rows| == |t.rows|
    ensures FilledUpTo(t, s, k, r)
  {
    FilledCellsWith(t, s, k);
    FillFirst(t, Statistics(t, s), k)
  }

  /** The frame after the whole loop: every column has its nulls replaced by
      its statistic. */
  function FillAll(t: Table, s: Stat): (r: Table)
    requires Valid(t)
    ensures Valid(r) && r.names == t.names && r.numeric == t.numeric && |r.rows| == |t.rows|
    ensures FilledUpTo(t, s, |t.names|, r)
  {
    FillColumnsUpTo(t, s, |t.names|)
  }

  /** Cell (i, j) after the loop has processed `k` columns with statistic `s`. */
  lemma FilledCellWith(t: Table, s: Stat, k: nat, i: nat, j: nat)
    requires Valid(t) && k <= |t.names| && i < |t.rows| && j < |t.names|
    ensures FillColumnsUpTo(t, s, k).rows[i][j] ==
      if j < k then FillCell(t.rows[i][j], Statistics(t, s)[j]) else t.rows[i][j]
  {
    FilledCell(t, Statistics(t, s), k, i, j);
  }

  /** The first column at or after `j` that has no non-null value. */
  function EmptyColumnFrom(t: Table, j: nat): (r: Option<nat>)
    requires Valid(t)
    ensures r.Some? ==> j <= r.value < |t.names| && |PresentValues(Column(t, r.value))| == 0
    ensures r.Some? ==> HaveValues(t, j, r.value)
    ensures r.None? ==> j <= |t.names| ==> HaveValues(t, j, |t.names|)
    decreases |t.names| - j
  {
    if j >= |t.names| then None
    else if |PresentValues(Column(t, j))| == 0 then Some(j)
    else EmptyColumnFrom(t, j + 1)
  }

  /** What `fill_missing_values` leaves behind: whether it returned the frame
      (rather than `None`), and the state of the caller's frame. */
  datatype FillReport = FillReport(returned: bool, frame: Table)

  /** Specification of `fill_missing_values(data, strategy)`. An unknown
      strategy raises before any column is assigned. Under "mode" the loop
      stops at the first column whose `mode()` is empty, after having
      overwritten every earlier column. */
  function FillOutcome(t: Table, strategy: string): (o: FillReport)
    requires Valid(t)
    ensures Valid(o.frame) && o.frame.names == t.names && o.frame.numeric == t.numeric
    ensures |o.frame.rows| == |t.rows|
    ensures o.returned <==>
      strategy == "mean" || strategy == "median" ||
      (strategy == "mode" && HaveValues(t, 0, |t.names|))
    ensures strategy != "mean" && strategy != "median" && strategy != "mode" ==> o.frame == t
    ensures strategy == "mean" ==> o.frame == FillAll(t, MeanStat)
    ensures strategy == "median" ==> o.frame == FillAll(t, MedianStat)
    ensures strategy == "mode" && o.returned ==> o.frame == FillAll(t, ModeStat)
    ensures strategy == "mode" && !o.returned ==>
      EmptyColumnFrom(t, 0).Some? && o.frame == FillColumnsUpTo(t, ModeStat, EmptyColumnFrom(t, 0).value)
  {
    if strategy == "mean" then FillReport(true, FillAll(t, MeanStat))
    else if strategy == "median" then FillReport(true, FillAll(t, MedianStat))
    else if strategy == "mode" then
      match EmptyColumnFrom(t, 0)
      case None => FillReport(true, FillAll(t, ModeStat))
      case Some(k) => FillReport(false, FillColumnsUpTo(t, ModeStat, k))
    else FillReport(false, t)
  }

  /** A cell that held a value keeps it, whatever the fill values and
      however far the loop got. */
  lemma PresentCellsUntouched(t: Table, fills: seq<Option<Value>>, k: nat)
    requires Fits(t, fills) && k <= |t.names|
    ensures forall i, j :: 0 <= i < |t.rows| && 0 <= j < |t.names| && t.rows[i][j].Some? ==>
      FillFirst(t, fills, k).rows[i][j] == t.rows[i][j]
  {
    forall i, j | 0 <= i < |t.rows| && 0 <= j < |t.names| && t.rows[i][j].Some?
      ensures FillFirst(t, fills, k).rows[i][j] == t.rows[i][j]
    {
      FilledCell(t, fills, k, i, j);
    }
  }

  /** Mean and median leave non-numeric columns unchanged. */
  lemma MeanMedianOnlyNumeric(t: Table, s: Stat, j: nat)
    requires Valid(t) && j < |t.names| && s != ModeStat && !t.numeric[j]
    ensures forall i :: 0 <= i < |t.rows| ==> FillAll(t, s).rows[i][j] == t.rows[i][j]
  {
    assert Statistics(t, s)[j].None?;
    forall i | 0 <= i < |t.rows| ensures FillAll(t, s).rows[i][j] == t.rows[i][j] {
      FilledCellWith(t, s, |t.names|, i, j);
    }
  }

  /** A column without any value is all null, and mean and median leave it so. */
  lemma EmptyColumnStaysNull(t: Table, s: Stat, j: nat)
    requires Valid(t) && j < |t.names| && s != ModeStat && |PresentValues(Column(t, j))| == 0
    ensures forall i :: 0 <= i < |t.rows| ==> t.rows[i][j].None? && FillAll(t, s).rows[i][j].None?
  {
    var col := Column(t, j);
    PresentValuesExactly(col);
    assert Statistics(t, s)[j].None?;
    forall i | 0 <= i < |t.rows| ensures t.rows[i][j].None? && FillAll(t, s).rows[i][j].None? {
      assert col[i] == t.rows[i][j];
      FilledCellWith(t, s, |t.names|, i, j);
    }
  }

  /** The numbers of numeric column `j`. */
  function ColumnNumbers(t: Table, j: nat): (xs: seq<real>)
    requires Valid(t) && j < |t.names| && t.numeric[j]
    ensures |xs| == |PresentValues(Column(t, j))|
  {
    NumericColumnsHoldNumbers(t);
    NumbersMatchValues(Column(t, j));
    NumbersOf(Column(t, j))
  }

  /** Under "mean", every null of a numeric column with some value becomes
      the mean of that column's non-null values; the other cells stay. */
  lemma MeanFillsNulls(t: Table, j: nat)
    requires Valid(t) && j < |t.names| && t.numeric[j] && |PresentValues(Column(t, j))| > 0
    ensures forall i :: 0 <= i < |t.rows| ==>
      FillAll(t, MeanStat).rows[i][j] ==
        if t.rows[i][j].None? then Some(Num(Mean(ColumnNumbers(t, j)))) else t.rows[i][j]
  {
    assert Statistics(t, MeanStat)[j] == Some(Num(Mean(ColumnNumbers(t, j))));
    forall i | 0 <= i < |t.rows| ensures FillAll(t, MeanStat).rows[i][j] ==
      if t.rows[i][j].None? then Some(Num(Mean(ColumnNumbers(t, j)))) else t.rows[i][j]
    {
      FilledCellWith(t, MeanStat, |t.names|, i, j);
    }
  }

  /** Under "median", every null of a numeric column with some value becomes
      the median of that column's non-null values; the other cells stay. */
  lemma MedianFillsNulls(t: Table, j: nat)
    requires Valid(t) && j < |t.names| && t.numeric[j] && |PresentValues(Column(t, j))| > 0
    ensures forall i :: 0 <= i < |t.rows| ==>
      FillAll(t, MedianStat).rows[i][j] ==
        if t.rows[i][j].None? then Some(Num(Median(ColumnNumbers(t, j)))) else t.rows[i][j]
  {
    assert Statistics(t, MedianStat)[j] == Some(Num(Median(ColumnNumbers(t, j))));
    forall i | 0 <= i < |t.rows| ensures FillAll(t, MedianStat).rows[i][j] ==
      if t.rows[i][j].None? then Some(Num(Median(ColumnNumbers(t, j)))) else t.rows[i][j]
    {
      FilledCellWith(t, MedianStat, |t.names|, i, j);
    }
  }

  /** Under "mode", once the loop is past column `j` and that column has
      some value, every null in it is the smallest of its most frequent
      values; the other cells stay. */
  lemma ModeFillsNulls(t: Table, k: nat, j: nat)
    requires Valid(t) && j < k <= |t.names| && |PresentValues(Column(t, j))| > 0
    ensures forall i :: 0 <= i < |t.rows| ==>
      FillColumnsUpTo(t, ModeStat, k).rows[i][j] ==
        if t.rows[i][j].None? then Some(Mode(PresentValues(Column(t, j)))) else t.rows[i][j]
  {
    assert Statistics(t, ModeStat)[j] == Some(Mode(PresentValues(Column(t, j))));
    forall i | 0 <= i < |t.rows| ensures FillColumnsUpTo(t, ModeStat, k).rows[i][j] ==
      if t.rows[i][j].None? then Some(Mode(PresentValues(Column(t, j)))) else t.rows[i][j]
    {
      FilledCellWith(t, ModeStat, k, i, j);
    }
  }

  /** A "mode" fill over columns that all have some value leaves no null. */
  lemma ModeFillLeavesNoNulls(t: Table)
    requires Valid(t)
    requires HaveValues(t, 0, |t.names|)
    ensures NoNulls(FillAll(t, ModeStat))
  {
    var r := FillAll(t, ModeStat);
    forall i, j | 0 <= i < |r.rows| && 0 <= j < |r.rows[i]| ensures r.rows[i][j].Some? {
      assert Statistics(t, ModeStat)[j].Some?;
      FilledCellWith(t, ModeStat, |t.names|, i, j);
    }
  }

  /** Every column from `lo` up to `hi` has at least one value. */
  predicate HaveValues(t: Table, lo: nat, hi: nat)
    requires Valid(t) && hi <= |t.names|
  {
    forall c :: lo <= c < hi ==> |PresentValues(Column(t, c))| > 0
  }

  /** The first empty column is the first column after a run of non-empty ones. */
  lemma {:induction false} FirstEmptyColumn(t: Table, start: nat, j: nat)
    requires Valid(t) && start <= j < |t.names|
    requires HaveValues(t, start, j) && |PresentValues(Column(t, j))| == 0
    ensures EmptyColumnFrom(t, start) == Some(j)
    decreases j - start
  {
    if start < j {
      FirstEmptyColumn(t, start + 1, j);
    }
  }

  /** With every column non-empty there is no first empty column. */
  lemma {:induction false} NoEmptyColumn(t: Table, start: nat)
    requires Valid(t) && start <= |t.names| && HaveValues(t, start, |t.names|)
    ensures EmptyColumnFrom(t, start).None?
    decreases |t.names| - start
  {
    if start < |t.names| {
      NoEmptyColumn(t, start + 1);
    }
  }

  /** A run of non-empty columns grows by one non-empty column. */
  lemma HaveValuesExtend(t: Table, lo: nat, hi: nat)
    requires Valid(t) && hi < |t.names| && HaveValues(t, lo, hi) && |PresentValues(Column(t, hi))| > 0
    ensures HaveValues(t, lo, hi + 1)
  {
  }

  /** A failed "mode" fill returns `None` and leaves the caller's frame as the
      loop left it at the first empty column. */
  lemma ModeFailureFrame(t: Table, k: nat)
    requires Valid(t) && EmptyColumnFrom(t, 0) == Some(k)
    ensures FillOutcome(t, "mode") == FillReport(false, FillColumnsUpTo(t, ModeStat, k))
  {
  }

  /** A column with some value has a mode to fill with. */
  lemma ModeExists(t: Table, j: nat)
    requires Valid(t) && j < |t.names| && |PresentValues(Column(t, j))| > 0
    ensures Statistics(t, ModeStat)[j].Some?
  {
  }

  /** After `k` turns of the mode loop over columns that all have some value,
      those columns have no null left. */
  lemma ModePrefixFilled(t: Table, k: nat)
    requires Valid(t) && k <= |t.names| && HaveValues(t, 0, k)
    ensures forall i, j :: 0 <= i < |t.rows| && 0 <= j < k ==> FillColumnsUpTo(t, ModeStat, k).rows[i][j].Some?
  {
    forall i, j | 0 <= i < |t.rows| && 0 <= j < k ensures FillColumnsUpTo(t, ModeStat, k).rows[i][j].Some? {
      ModeExists(t, j);
      FilledCellWith(t, ModeStat, k, i, j);
    }
  }

  /** The columns the loop has not reached are as they were. */
  lemma LaterColumnsUntouched(t: Table, fills: seq<Option<Value>>, k: nat)
    requires Fits(t, fills) && k <= |t.names|
    ensures forall i, j :: 0 <= i < |t.rows| && k <= j < |t.names| ==> FillFirst(t, fills, k).rows[i][j] == t.rows[i][j]
  {
    forall i, j | 0 <= i < |t.rows| && k <= j < |t.names| ensures FillFirst(t, fills, k).rows[i][j] == t.rows[i][j] {
      FilledCell(t, fills, k, i, j);
    }
  }

  /** A failed "mode" fill returns `None` but leaves the caller's frame
      changed: every column before the first empty one has no null left
      (`ModeFillsNulls` says with what), and every cell that held a value or
      lies at or after the empty column is as it was. */
  lemma ModeFailureLeavesEarlierColumnsFilled(t: Table, k: nat)
    requires Valid(t) && EmptyColumnFrom(t, 0) == Some(k)
    ensures !FillOutcome(t, "mode").returned
    ensures FillOutcome(t, "mode").frame == FillColumnsUpTo(t, ModeStat, k)
    ensures forall i, j :: 0 <= i < |t.rows| && 0 <= j < k ==> FillColumnsUpTo(t, ModeStat, k).rows[i][j].Some?
    ensures forall i, j :: 0 <= i < |t.rows| && 0 <= j < |t.names| && (k <= j || t.rows[i][j].Some?) ==>
      FillColumnsUpTo(t, ModeStat, k).rows[i][j] == t.rows[i][j]
  {
    ModeFailureFrame(t, k);
    ModePrefixFilled(t, k);
    LaterColumnsUntouched(t, Statistics(t, ModeStat), k);
    PresentCellsUntouched(t, Statistics(t, ModeStat), k);
  }

  /** The cells of a column after `fillna(v)`. */
  function FillCells(cells: seq<Cell>, v: Option<Value>): (r: seq<Cell>)
    ensures |r| == |cells|
  {
    seq(|cells|, i requires 0 <= i < |cells| => FillCell(cells[i], v))
  }

  /** `n` copies of `m` added up. */
  function Times(n: nat, m: real): (r: real)
    ensures r == (n as real) * m
  {
    if n == 0 then 0.0 else m + Times(n - 1, m)
  }

  /** Filling the nulls of a number column with `m` adds `m` once per null to
      its sum, and leaves one number per cell. */
  lemma {:induction false} FilledSum(cells: seq<Cell>, m: real)
    requires AllNumbers(cells)
    ensures |NumbersOf(FillCells(cells, Some(Num(m))))| == |cells|
    ensures Sum(NumbersOf(FillCells(cells, Some(Num(m))))) == Sum(NumbersOf(cells)) + Times(NullCount(cells), m)
  {
    if |cells| > 0 {
      var filled := FillCells(cells, Some(Num(m)));
      var rest := NumbersOf(cells[1..]);
      var frest := NumbersOf(filled[1..]);
      assert filled[1..] == FillCells(cells[1..], Some(Num(m)));
      assert AllNumbers(cells[1..]) by {
        forall k | 0 <= k < |cells[1..]| && cells[1..][k].Some? ensures cells[1..][k].value.Num? {
          assert cells[1..][k] == cells[k + 1];
        }
      }
      FilledSum(cells[1..], m);
      var head := if cells[0].Some? then cells[0].value.x else m;
      assert NumbersOf(filled) == [head] + frest;
      assert ([head] + frest)[1..] == frest;
      if cells[0].Some? {
        assert NumbersOf(cells) == [head] + rest;
        assert ([head] + rest)[1..] == rest;
      } else {
        assert NumbersOf(cells) == [] + rest == rest;
      }
    }
  }

  /** Adding `k` more copies of the mean of `n` values keeps the mean. */
  lemma MeanOfPaddedSum(total: real, n: nat, k: nat)
    requires n > 0
    ensures (total + Times(k, total / (n as real))) / ((n + k) as real) == total / (n as real)
  {
    var m := total / (n as real);
    assert total == m * (n as real);
    assert total + (k as real) * m == m * ((n + k) as real);
  }

  /** The mean of a numeric column is the same after a "mean" fill as the mean
      of its non-null values before, and the column has no null left. */
  lemma MeanFillPreservesMean(t: Table, j: nat)
    requires Valid(t) && j < |t.names| && t.numeric[j] && |PresentValues(Column(t, j))| > 0
    ensures forall i :: 0 <= i < |t.rows| ==> FillAll(t, MeanStat).rows[i][j].Some?
    ensures |ColumnNumbers(FillAll(t, MeanStat), j)| == |t.rows|
    ensures Mean(ColumnNumbers(FillAll(t, MeanStat), j)) == Mean(ColumnNumbers(t, j))
  {
    var col := Column(t, j);
    var xs := ColumnNumbers(t, j);
    var m := Mean(xs);
    var after := FillAll(t, MeanStat);
    var filled := FillCells(col, Some(Num(m)));
    assert Column(after, j) == filled by {
      MeanFillsNulls(t, j);
    }
    NumericColumnsHoldNumbers(t);
    FilledSum(col, m);
    var ys := ColumnNumbers(after, j);
    assert ys == NumbersOf(filled);
    assert |ys| == |xs| + NullCount(col);
    assert Sum(ys) == Sum(xs) + Times(NullCount(col), m);
    MeanOfPaddedSum(Sum(xs), |xs|, NullCount(col));
  }

  /** One turn of the fill loop: filling column `k` with the statistic of its
      current cells extends the filled prefix by one column. */
  lemma FillStep(t: Table, s: Stat, k: nat)
    requires Valid(t) && k < |t.names|
    ensures Column(FillColumnsUpTo(t, s, k), k) == Column(t, k)
    ensures FillColumnWith(FillColumnsUpTo(t, s, k), k, Statistic(Column(t, k), t.numeric[k], s))
      == FillColumnsUpTo(t, s, k + 1)
  {
    ColumnNotYetFilled(t, Statistics(t, s), k);
  }

  /** A data frame whose columns `fill_missing_values` reassigns in place. */
  class Frame {
    var names: seq<string>
    var numeric: seq<bool>
    var rows: seq<Row>

    function Snapshot(): Table
      reads this
    {
      Table(names, numeric, rows)
    }

    constructor (t: Table)
      ensures Snapshot() == t
    {
      names, numeric, rows := t.names, t.numeric, t.rows;
    }

    /** `data[column] = data[column].fillna(v)` for column `j`. */
    method FillColumn(j: nat, v: Option<Value>)
      requires Valid(Snapshot()) && j < |names|
      requires v.Some? && numeric[j] ==> v.value.Num?
      modifies this
      ensures Snapshot() == FillColumnWith(old(Snapshot()), j, v)
    {
      rows := FillColumnWith(Snapshot(), j, v).rows;
    }

    /** One turn of the fill loop over column `j`: compute the statistic of
        the column as it stands and `fillna` it, or stop when `s` is the mode
        and the column has none. */
    method FillNextColumn(ghost t0: Table, s: Stat, j: nat) returns (stop: bool)
      requires Valid(t0) && j < |t0.names| && Snapshot() == FillColumnsUpTo(t0, s, j)
      modifies this
      ensures stop <==> s == ModeStat && |PresentValues(Column(t0, j))| == 0
      ensures stop ==> Snapshot() == old(Snapshot())
      ensures !stop ==> Snapshot() == FillColumnsUpTo(t0, s, j + 1)
    {
      FillStep(t0, s, j);
      var col := Column(Snapshot(), j);
      if s == ModeStat && |PresentValues(col)| == 0 {
        return true;
      }
      NumericColumnsHoldNumbers(t0);
      var v := Statistic(col, numeric[j], s);
      FillColumn(j, v);
      stop := false;
    }

    /** The fill loop for statistic `s`: every column in turn, stopping at
        the first column without a mode when `s` is the mode. */
    method FillEachColumn(s: Stat) returns (ok: bool)
      requires Valid(Snapshot())
      modifies this
      ensures ok <==> s != ModeStat || EmptyColumnFrom(old(Snapshot()), 0).None?
      ensures ok ==> Snapshot() == FillAll(old(Snapshot()), s)
      ensures !ok ==> Snapshot() == FillColumnsUpTo(old(Snapshot()), s, EmptyColumnFrom(old(Snapshot()), 0).value)
    {
      ghost var t0 := Snapshot();
      var j := 0;
      while j < |names|
        invariant 0 <= j <= |t0.names|
        invariant Snapshot() == FillColumnsUpTo(t0, s, j)
        invariant s == ModeStat ==> HaveValues(t0, 0, j)
      {
        var stop := FillNextColumn(t0, s, j);
        if stop {
          // mode() is empty, so mode()[0] raises; earlier columns stay overwritten
          FirstEmptyColumn(t0, 0, j);
          return false;
        }
        if s == ModeStat {
          HaveValuesExtend(t0, 0, j);
        }
        j := j + 1;
      }
      if s == ModeStat {
        NoEmptyColumn(t0, 0);
      }
      ok := true;
    }

    /** `fill_missing_values(self, strategy)`: returns whether the frame was
        returned (true) or `None` (false); either way the frame is left as
        `FillOutcome` says, including a partially filled frame. */
    method FillMissingValues(strategy: string) returns (ok: bool)
      requires Valid(Snapshot())
      modifies this
      ensures ok == FillOutcome(old(Snapshot()), strategy).returned
      ensures Snapshot() == FillOutcome(old(Snapshot()), strategy).frame
    {
      if strategy == "mean" {
        ok := FillEachColumn(MeanStat);
      } else if strategy == "median" {
        ok := FillEachColumn(MedianStat);
      } else if strategy == "mode" {
        ok := FillEachColumn(ModeStat);
      } else {
        // ValueError: raised before any column is assigned
        ok := false;
      }
    }
  }
}

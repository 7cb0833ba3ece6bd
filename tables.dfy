/** The in-memory table every cleaning stage works on, and the read-only
    missing-value audit (`check_missing_values`). */
module Tables {
  import opened Values

  datatype Option<T> = None | Some(value: T)

  /** A cell is a value or null (`None`/`NaN` in the frame). */
  type Cell = Option<Value>
  type Row = seq<Cell>

  /** Column names in order, a "numeric dtype" flag per column, and the rows. */
  datatype Table = Table(names: seq<string>, numeric: seq<bool>, rows: seq<Row>)

  /** Well-formed frame: one flag per column, unique column names, every row
      as wide as the header, and numeric columns holding only numbers. */
  predicate Valid(t: Table) {
    && |t.numeric| == |t.names|
    && (forall a, b :: 0 <= a < b < |t.names| ==> t.names[a] != t.names[b])
    && (forall i :: 0 <= i < |t.rows| ==> |t.rows[i]| == |t.names|)
    && (forall i, j :: 0 <= i < |t.rows| && 0 <= j < |t.names| && t.numeric[j] && t.rows[i][j].Some?
          ==> t.rows[i][j].value.Num?)
  }

  /** Column `j`, top to bottom. */
  function Column(t: Table, j: nat): (c: seq<Cell>)
    requires Valid(t) && j < |t.names|
    ensures |c| == |t.rows|
    ensures forall i :: 0 <= i < |t.rows| ==> c[i] == t.rows[i][j]
  {
    seq(|t.rows|, i requires 0 <= i < |t.rows| => t.rows[i][j])
  }

  /** `isnull().sum()` of one column: the number of null cells. */
  function NullCount(cells: seq<Cell>): (n: nat)
    ensures n <= |cells|
  {
    if |cells| == 0 then 0
    else (if cells[0].None? then 1 else 0) + NullCount(cells[1..])
  }

  /** The null count is the multiplicity of `None` among the cells. */
  lemma {:induction false} NullCountIsOccurrences(cells: seq<Cell>)
    ensures NullCount(cells) == multiset(cells)[None]
  {
    if |cells| > 0 {
      NullCountIsOccurrences(cells[1..]);
      assert cells == [cells[0]] + cells[1..];
    }
  }

  /** The non-null values of a column, in order (`dropna()`). */
  function PresentValues(cells: seq<Cell>): (vs: seq<Value>)
    ensures |vs| + NullCount(cells) == |cells|
  {
    if |cells| == 0 then []
    else (if cells[0].Some? then [cells[0].value] else []) + PresentValues(cells[1..])
  }

  /** Every value `dropna()` keeps comes from a non-null cell, and every
      non-null cell's value is kept. */
  lemma {:induction false} PresentValuesExactly(cells: seq<Cell>)
    ensures forall v :: v in PresentValues(cells) ==> Some(v) in cells
    ensures forall k :: 0 <= k < |cells| && cells[k].Some? ==> cells[k].value in PresentValues(cells)
  {
    if |cells| > 0 {
      PresentValuesExactly(cells[1..]);
      assert cells == [cells[0]] + cells[1..];
    }
  }

  /** Each value occurs among the `dropna()` values exactly as often as it
      occurs (non-null) among the cells, so counting statistics such as
      `mode()` see the column's own frequencies. */
  lemma {:induction false} PresentValuesCounts(cells: seq<Cell>, v: Value)
    ensures multiset(PresentValues(cells))[v] == multiset(cells)[Some(v)]
  {
    if |cells| > 0 {
      PresentValuesCounts(cells[1..], v);
      assert cells == [cells[0]] + cells[1..];
    }
  }

  /** `check_missing_values`: the null count of every column, by position. It
      is a query, so the table is untouched by construction. */
  function MissingCounts(t: Table): (counts: seq<nat>)
    requires Valid(t)
    ensures |counts| == |t.names|
    ensures forall j :: 0 <= j < |t.names| ==> counts[j] <= |t.rows|
  {
    seq(|t.names|, j requires 0 <= j < |t.names| => NullCount(Column(t, j)))
  }

  /** Each reported count is the number of null cells in its column. */
  lemma MissingCountsAreNullOccurrences(t: Table)
    requires Valid(t)
    ensures forall j :: 0 <= j < |t.names| ==> MissingCounts(t)[j] == multiset(Column(t, j))[None]
  {
    forall j | 0 <= j < |t.names| ensures MissingCounts(t)[j] == multiset(Column(t, j))[None] {
      NullCountIsOccurrences(Column(t, j));
    }
  }

  /** No cell of the table is null. */
  predicate NoNulls(t: Table) {
    forall i, j :: 0 <= i < |t.rows| && 0 <= j < |t.rows[i]| ==> t.rows[i][j].Some?
  }
}

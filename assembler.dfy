/** The summary table of pyhandy/datautils.py lines 78-90: one row per column,
    flagged, sorted by four keys with NaN last, then stripped of the index
    flag, of the correlation column when there is no target, and of the
    statistics that are NaN in every row. */
module ResultAssembler {
  import opened Frames
  import opened Collections
  import opened Sorting
  import opened Records
  import Strings
  import TypeClassifier
  import opened ColumnProfiler

  /** A summary row: its label (the `ColumnName` index), the sort keys
      `DataType` and `CorrelationWithTarget`, the `is_index` flag of line 80
      and the column's record. */
  datatype Row = Row(name: string, tag: string, correlation: Option<real>, isIndex: bool, record: Dict)

  /** The visible table: its statistic columns in order, and its rows. */
  datatype Table = Table(columns: seq<string>, rows: seq<Row>)

  /** The number a correlation cell holds, `None` for NaN. */
  function CorrelationValue(c: Cell): (x: Option<real>)
    ensures x.Some? <==> c.Some? && c.value.Scalar? && c.value.v.Num?
  {
    match c
    case Some(Scalar(Num(x))) => Some(x)
    case _ => None
  }

  /** One column of line 78: a label shared with another column selects a
      frame, whose truth value raises ValueError; otherwise the column is
      tagged and summarised. */
  function ColumnOutcome(names: seq<string>, col: Column, ctx: Context): (r: Result<Row>)
    ensures r.Ok? ==> r.value.name == col.name && r.value.tag == TypeClassifier.TypeTag(col) && !r.value.isIndex
    ensures r.Ok? ==>
      SummaryRecord(col, TypeClassifier.TypeTag(col), ctx).Ok? &&
      r.value.record == SummaryRecord(col, TypeClassifier.TypeTag(col), ctx).value
    ensures r.Ok? ==> r.value.correlation == CorrelationValue(CorrelationCell(col, TypeClassifier.TypeTag(col), ctx))
    ensures multiset(names)[col.name] > 1 ==> r == Err(ValueError)
    ensures multiset(names)[col.name] <= 1 ==>
      (r.Ok? <==> SummaryRecord(col, TypeClassifier.TypeTag(col), ctx).Ok?)
    ensures multiset(names)[col.name] <= 1 && SummaryRecord(col, TypeClassifier.TypeTag(col), ctx).Err? ==>
      r == Err(SummaryRecord(col, TypeClassifier.TypeTag(col), ctx).error)
  {
    if multiset(names)[col.name] > 1 then Err(ValueError)
    else
      var tag := TypeClassifier.TypeTag(col);
      match SummaryRecord(col, tag, ctx)
      case Err(e) => Err(e)
      case Ok(d) => Ok(Row(col.name, tag, CorrelationValue(CorrelationCell(col, tag, ctx)), false, d))
  }

  /** The list comprehension of line 78 over the columns, left to right: the
      first column that raises decides the error. */
  function Summaries(names: seq<string>, cols: seq<Column>, ctx: Context): (r: Result<seq<Row>>)
    ensures r.Ok? <==> forall i :: 0 <= i < |cols| ==> ColumnOutcome(names, cols[i], ctx).Ok?
    ensures r.Ok? ==>
      |r.value| == |cols| && forall i :: 0 <= i < |cols| ==> r.value[i] == ColumnOutcome(names, cols[i], ctx).value
    ensures r.Err? ==> exists i ::
      && 0 <= i < |cols| && ColumnOutcome(names, cols[i], ctx).Err?
      && r.error == ColumnOutcome(names, cols[i], ctx).error
      && forall j :: 0 <= j < i ==> ColumnOutcome(names, cols[j], ctx).Ok?
    ensures r.Err? ==> r.error in {ValueError, IndexError, TypeError}
  {
    MapResults(cols, (c: Column) => ColumnOutcome(names, c, ctx))
  }

  // The sort of line 81.

  /** `CorrelationWithTarget` descending with NaN last. */
  predicate CorrelationBefore(x: Option<real>, y: Option<real>) {
    x.Some? && (y.None? || x.value > y.value)
  }

  /** Row `a` comes before row `b`: index first, then `DataType` ascending,
      then `CorrelationWithTarget` descending with NaN last, then
      `ColumnName` ascending. */
  predicate RowBefore(a: Row, b: Row) {
    if a.isIndex != b.isIndex then a.isIndex
    else if a.tag != b.tag then Strings.Less(a.tag, b.tag)
    else if a.correlation != b.correlation then CorrelationBefore(a.correlation, b.correlation)
    else Strings.Less(a.name, b.name)
  }

  predicate RowLeq(a: Row, b: Row) {
    !RowBefore(b, a)
  }

  /** The four sort keys of a row. */
  function SortKey(r: Row): (bool, string, Option<real>, string) {
    (r.isIndex, r.tag, r.correlation, r.name)
  }

  lemma RowBeforeIrreflexive(a: Row)
    ensures !RowBefore(a, a)
  {
    Strings.LessIrreflexive(a.name);
  }

  lemma RowBeforeTransitive(a: Row, b: Row, c: Row)
    requires RowBefore(a, b) && RowBefore(b, c)
    ensures RowBefore(a, c)
  {
    if a.isIndex == b.isIndex && b.isIndex == c.isIndex {
      if a.tag != b.tag && b.tag != c.tag {
        Strings.LessTransitive(a.tag, b.tag, c.tag);
        if a.tag == c.tag {
          Strings.LessIrreflexive(a.tag);
        }
      } else if a.tag == b.tag && b.tag == c.tag {
        if a.correlation == b.correlation && b.correlation == c.correlation {
          Strings.LessTransitive(a.name, b.name, c.name);
        }
      }
    }
  }

  /** Two rows whose four keys agree are the only ties. */
  lemma RowBeforeTrichotomy(a: Row, b: Row)
    ensures SortKey(a) == SortKey(b) || RowBefore(a, b) || RowBefore(b, a)
  {
    Strings.LessTrichotomy(a.tag, b.tag);
    Strings.LessTrichotomy(a.name, b.name);
  }

  lemma RowLeqTotalPreorder()
    ensures TotalPreorder(RowLeq)
  {
    forall a, b ensures RowLeq(a, b) || RowLeq(b, a) {
      if RowBefore(a, b) && RowBefore(b, a) {
        RowBeforeTransitive(a, b, a);
        RowBeforeIrreflexive(a);
      }
    }
    forall a, b, c | RowLeq(a, b) && RowLeq(b, c) ensures RowLeq(a, c) {
      RowBeforeTrichotomy(a, b);
      if RowBefore(c, a) && RowBefore(a, b) {
        RowBeforeTransitive(c, a, b);
      }
      if RowBefore(c, a) && SortKey(a) == SortKey(b) {
        assert RowBefore(c, b);
      }
    }
  }

  /** `sort_values(['is_index', 'DataType', 'CorrelationWithTarget', 'ColumnName'], ...)`. */
  function SortRows(rows: seq<Row>): (r: seq<Row>)
    ensures multiset(r) == multiset(rows)
  {
    SortBy(rows, RowLeq)
  }

  predicate DistinctNames(rows: seq<Row>) {
    forall i, j :: 0 <= i < j < |rows| ==> rows[i].name != rows[j].name
  }

  /** The sorted rows are ordered by the four keys; with distinct labels no
      two rows tie, so every ordered rearrangement of the rows, stable or not,
      is this one. */
  lemma SortRowsOrdered(rows: seq<Row>, other: seq<Row>)
    requires DistinctNames(rows)
    requires multiset(other) == multiset(rows) && SortedBy(other, RowLeq)
    ensures SortedBy(SortRows(rows), RowLeq)
    ensures SortRows(rows) == other
  {
    RowLeqTotalPreorder();
    SortBySorted(rows, RowLeq);
    var s := SortRows(rows);
    forall x, y | x in s && y in s && RowLeq(x, y) && RowLeq(y, x) ensures x == y {
      assert x in multiset(rows) && y in multiset(rows);
      var i :| 0 <= i < |rows| && rows[i] == x;
      var j :| 0 <= j < |rows| && rows[j] == y;
      RowBeforeTrichotomy(x, y);
    }
    SortedPermutationsEqual(s, other, RowLeq);
  }

  /** Line 80 as evidently intended: the index row, which the index step put
      first, is flagged. */
  function IndexFlags(rows: seq<Row>, hasIndex: bool): (r: seq<Row>)
    ensures |r| == |rows|
    ensures forall i :: 0 <= i < |rows| ==>
      r[i] == rows[i].(isIndex := hasIndex && i == 0)
  {
    seq(|rows|, i requires 0 <= i < |rows| => rows[i].(isIndex := hasIndex && i == 0))
  }

  /** Line 80 as written: after `reset_index` the frame's index is a fresh
      unnamed one, so `ind == data.index.name` holds for no label and every
      row is flagged False. */
  function IndexFlagsAsWritten(rows: seq<Row>, hasIndex: bool): (r: seq<Row>)
    ensures |r| == |rows|
    ensures forall i :: 0 <= i < |rows| ==> r[i] == rows[i].(isIndex := false)
  {
    seq(|rows|, i requires 0 <= i < |rows| => rows[i].(isIndex := false))
  }

  /** Rows produced without error carry distinct labels: a label held by two
      columns makes its column raise ValueError at line 78. */
  lemma SummariesDistinctNames(cols: seq<Column>, ctx: Context, hasIndex: bool)
    requires Summaries(Names(cols), cols, ctx).Ok?
    ensures DistinctNames(Summaries(Names(cols), cols, ctx).value)
    ensures DistinctNames(IndexFlags(Summaries(Names(cols), cols, ctx).value, hasIndex))
  {
    var names := Names(cols);
    var rows := Summaries(names, cols, ctx).value;
    forall i | 0 <= i < |rows| ensures rows[i].name == names[i] && multiset(names)[names[i]] <= 1 {
      assert ColumnOutcome(names, cols[i], ctx).Ok?;
    }
    LabelsOnce(rows, names);
    FlagsKeepDistinctNames(rows, hasIndex);
  }

  /** Rows labelled by names that each occur once have distinct labels. */
  lemma LabelsOnce(rows: seq<Row>, names: seq<string>)
    requires |rows| == |names|
    requires forall i :: 0 <= i < |rows| ==> rows[i].name == names[i] && multiset(names)[names[i]] <= 1
    ensures DistinctNames(rows)
  {
    forall i, j | 0 <= i < j < |rows| ensures rows[i].name != rows[j].name {
      AtMostOnce(names, i, j);
    }
  }

  /** Flagging the index row changes no label. */
  lemma FlagsKeepDistinctNames(rows: seq<Row>, hasIndex: bool)
    requires DistinctNames(rows)
    ensures DistinctNames(IndexFlags(rows, hasIndex))
  {
  }

  /** With the intended flags the index row comes first after the sort. */
  lemma IndexRowFirst(rows: seq<Row>)
    requires rows != []
    requires forall i :: 0 <= i < |rows| ==> !rows[i].isIndex
    ensures SortRows(IndexFlags(rows, true))[0] == rows[0].(isIndex := true)
  {
    var flagged := IndexFlags(rows, true);
    RowLeqTotalPreorder();
    SortByHeadIsMinimum(flagged, RowLeq, 0);
  }

  /** An object-typed index ('id*') and a float column ('x'): as written, the
      float column sorts first because 'float64' < 'object'; as intended, the
      index row does. */
  lemma IndexNotFirstAsWritten(d: Dict)
    ensures var rows := [Row("id*", "object", None, false, d), Row("x", "float64", None, false, d)];
      && SortRows(IndexFlagsAsWritten(rows, true))[0].name == "x"
      && SortRows(IndexFlags(rows, true))[0].name == "id*"
  {
    var rows := [Row("id*", "object", None, false, d), Row("x", "float64", None, false, d)];
    RowLeqTotalPreorder();
    var asWritten := IndexFlagsAsWritten(rows, true);
    assert Strings.Less("float64", "object");
    assert !Strings.Less("object", "float64");
    SortByHeadIsMinimum(asWritten, RowLeq, 1);
    IndexRowFirst(rows);
  }

  // The columns of the table and the two drops of lines 81-90.

  /** `pd.DataFrame(summary_rows, columns=summary_rows[0].keys())
      .set_index('ColumnName')`: the first record's keys but the row label. */
  function Tabulate(rows: seq<Row>): (t: Table)
    requires rows != []
    ensures t.rows == rows
    ensures Subsequence(t.columns, rows[0].record.keys)
    ensures forall c :: c in t.columns <==> c in rows[0].record.keys && c != "ColumnName"
  {
    Table(Filter(rows[0].record.keys, (k: string) => k != "ColumnName"), rows)
  }

  /** `df.drop(name, axis=1)` for a column the table has; the rows keep their
      records, which the table no longer shows under that name. */
  function DropColumn(t: Table, name: string): (r: Table)
    ensures r.rows == t.rows
    ensures Subsequence(r.columns, t.columns)
    ensures forall c :: c in r.columns <==> c in t.columns && c != name
  {
    Table(Filter(t.columns, (c: string) => c != name), t.rows)
  }

  /** The cell of a row under a column. */
  function CellAt(row: Row, c: string): Cell {
    Lookup(row.record, c)
  }

  /** Some row has a value (not NaN) under the column. */
  predicate AnyFilled(rows: seq<Row>, c: string) {
    exists i :: 0 <= i < |rows| && CellAt(rows[i], c).Some?
  }

  /** `df.dropna(how="all", axis=1)`: a column goes exactly when every row is
      NaN in it. */
  function PruneNullColumns(t: Table): (r: Table)
    ensures r.rows == t.rows
    ensures Subsequence(r.columns, t.columns)
    ensures forall c :: c in r.columns <==> c in t.columns && AnyFilled(t.rows, c)
  {
    Table(Filter(t.columns, (c: string) => AnyFilled(t.rows, c)), t.rows)
  }

  /** A column of the first record that the returned table shows: not the
      row label, not the correlation without a target, and not all-NaN when
      the caller asks to drop those. */
  predicate Shown(c: string, hasTarget: bool, dropNullStats: bool, rows: seq<Row>) {
    && c != "ColumnName"
    && (hasTarget || c != "CorrelationWithTarget")
    && (!dropNullStats || AnyFilled(rows, c))
  }

  /** Pruning a table none of whose columns is empty returns it unchanged;
      so pruning twice is pruning once. */
  lemma PruneWithoutEmptyColumns(t: Table)
    requires forall i :: 0 <= i < |t.columns| ==> AnyFilled(t.rows, t.columns[i])
    ensures PruneNullColumns(t) == t
  {
    FilterKeepsAll(t.columns, (c: string) => AnyFilled(t.rows, c));
  }

  lemma PruneIdempotent(t: Table)
    ensures PruneNullColumns(PruneNullColumns(t)) == PruneNullColumns(t)
  {
    var p := PruneNullColumns(t);
    PruneWithoutEmptyColumns(p);
  }

  /** The sort keys a row carries are the cells its table row shows. */
  predicate KeysMatchCells(row: Row) {
    && CellAt(row, "ColumnName") == Some(Tag(row.name))
    && CellAt(row, "DataType") == Some(Tag(row.tag))
    && CorrelationValue(CellAt(row, "CorrelationWithTarget")) == row.correlation
  }
}

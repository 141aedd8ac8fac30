/** `get_data_summary` itself (pyhandy/datautils.py lines 5-90): resolve and
    check the target, register the metrics, note missing data, add the index
    column, summarise every column, then sort, drop and prune the table. */
module DataSummary {
  import opened Frames
  import opened Collections
  import opened Sorting
  import opened Records
  import opened MetricRegistry
  import opened ColumnProfiler
  import opened IndexNormalizer
  import opened ResultAssembler

  /** What line 84 prints: the row count and the column count without the
      index column, and whether line 86 adds its note about the index. */
  datatype Shape = Shape(rows: nat, columns: int, indexNote: bool)

  /** The returned table, the printed shape and whether the warning about
      missing data was given. */
  datatype Summary = Summary(table: Table, shape: Shape, warned: bool)

  /** Some column of the frame has a missing cell (`data.isnull().values.any()`). */
  function FrameHasNull(columns: seq<Column>): (b: bool)
    ensures b <==> exists i :: 0 <= i < |columns| && HasNull(columns[i].cells)
  {
    if columns == [] then false
    else
      assert forall i :: 1 <= i < |columns| ==> columns[i] == columns[1..][i - 1];
      HasNull(columns[0].cells) || FrameHasNull(columns[1..])
  }

  /** Lines 49-51 as evidently intended: with a target, warn when the frame
      or the target has a missing cell. */
  function NanWarning(data: Frame, target: Option<Column>): (warned: bool)
    ensures warned <==>
      target.Some? &&
      ((exists i :: 0 <= i < |data.columns| && HasNull(data.columns[i].cells)) || HasNull(target.value.cells))
  {
    target.Some? && (FrameHasNull(data.columns) || HasNull(target.value.cells))
  }

  /** Lines 49-51 as written: `logging` is never imported, so reaching the
      warning raises NameError. */
  function NanCheckAsWritten(data: Frame, target: Option<Column>): (r: Result<bool>)
    ensures r.Err? <==> NanWarning(data, target)
    ensures r.Err? ==> r.error == NameError
  {
    if target.Some? && (FrameHasNull(data.columns) || HasNull(target.value.cells)) then Err(NameError)
    else Ok(false)
  }

  /** A target together with a single missing cell anywhere in the frame is
      enough: as written the call raises, as intended it warns. */
  lemma NanCheckRaises(data: Frame, t: Column, k: nat, j: nat)
    requires k < |data.columns| && j < |data.columns[k].cells| && data.columns[k].cells[j].Missing?
    ensures NanCheckAsWritten(data, Some(t)) == Err(NameError)
    ensures NanWarning(data, Some(t))
  {
    assert HasNull(data.columns[k].cells);
  }

  /** Lines 38-40: a resolved target whose dtype is refused. */
  predicate TargetRejected(targetData: Option<Column>) {
    targetData.Some? && RejectedTargetDtype(targetData.value.dtype)
  }

  /** The context every column's summary shares once the target is resolved. */
  function SummaryContext(targetData: Option<Column>, targetMetric: TargetMetricSpec,
                          extra: seq<ColumnMetric>, lib: Numerics): (ctx: Context)
    ensures ctx.target == targetData && ctx.extra == extra && ctx.lib == lib
    ensures |ctx.targetMetrics| == (match targetMetric
      case NoTargetMetric => 0
      case SingleMetric(_) => 1
      case MetricDict(ms) => |ms|)
  {
    Context(targetData, TargetMetrics(targetMetric, targetData), extra, lib)
  }

  /** Metric names keep clear of the labels the table itself uses. */
  predicate NamesClearOfReserved(targetMetric: TargetMetricSpec, extra: seq<ColumnMetric>) {
    && (targetMetric.MetricDict? ==>
          forall i :: 0 <= i < |targetMetric.metrics| ==> targetMetric.metrics[i].name !in RESERVED)
    && (forall i :: 0 <= i < |extra| ==> extra[i].name !in RESERVED)
  }

  lemma ContextReservedFree(targetData: Option<Column>, targetMetric: TargetMetricSpec,
                            extra: seq<ColumnMetric>, lib: Numerics)
    requires NamesClearOfReserved(targetMetric, extra)
    ensures ReservedFree(SummaryContext(targetData, targetMetric, extra, lib))
  {
  }

  /** Lines 79-90 on the per-column rows: flag the index row, sort, drop the
      flag, drop the correlation without a target, prune the all-NaN columns
      when asked. */
  method AssembleTable(rows: seq<Row>, hasIndex: bool, hasTarget: bool, dropNullStats: bool)
    returns (info: Table)
    requires rows != []
    requires forall i :: 0 <= i < |rows| ==> !rows[i].isIndex
    requires forall i :: 0 <= i < |rows| ==> KeysMatchCells(rows[i])
    ensures info.rows == SortRows(IndexFlags(rows, hasIndex))
    ensures multiset(info.rows) == multiset(IndexFlags(rows, hasIndex))
    ensures forall i :: 0 <= i < |info.rows| ==> KeysMatchCells(info.rows[i])
    ensures SortedBy(info.rows, RowLeq)
    ensures hasIndex ==> info.rows[0] == rows[0].(isIndex := true)
    ensures forall c :: c in info.columns <==>
      && c in rows[0].record.keys && c != "ColumnName"
      && (hasTarget || c != "CorrelationWithTarget")
      && (!dropNullStats || AnyFilled(info.rows, c))
    // The columns keep the first record's key order, each once.
    ensures info.columns == Filter(rows[0].record.keys, (c: string) => Shown(c, hasTarget, dropNullStats, info.rows))
    ensures NoDuplicates(rows[0].record.keys) ==> NoDuplicates(info.columns)
  {
    info := Tabulate(rows);
    info := info.(rows := IndexFlags(info.rows, hasIndex));
    info := info.(rows := SortRows(info.rows));
    RowLeqTotalPreorder();
    SortBySorted(IndexFlags(rows, hasIndex), RowLeq);
    if hasIndex {
      IndexRowFirst(rows);
    }
    forall i | 0 <= i < |info.rows| ensures KeysMatchCells(info.rows[i]) {
      assert info.rows[i] in multiset(IndexFlags(rows, hasIndex));
      var k :| 0 <= k < |rows| && IndexFlags(rows, hasIndex)[k] == info.rows[i];
      assert KeysMatchCells(rows[k]);
    }
    var keys := rows[0].record.keys;
    var sorted := info.rows;
    var labelled := (k: string) => k != "ColumnName";
    var targeted := (c: string) => c != "ColumnName" && (hasTarget || c != "CorrelationWithTarget");
    var shown := (c: string) => Shown(c, hasTarget, dropNullStats, sorted);
    if !hasTarget {
      info := DropColumn(info, "CorrelationWithTarget");
      FilterFilter(keys, labelled, (c: string) => c != "CorrelationWithTarget", targeted);
    } else {
      FilterSame(keys, labelled, targeted);
    }
    if dropNullStats {
      info := PruneNullColumns(info);
      FilterFilter(keys, targeted, (c: string) => AnyFilled(sorted, c), shown);
    } else {
      FilterSame(keys, targeted, shown);
    }
    if NoDuplicates(keys) {
      FilterNoDuplicates(keys, shown);
    }
  }

  /** What a produced summary is, given the resolved target, the shared
      context and the frame after the index step. */
  ghost predicate Describes(s: Summary, data: Frame, targetData: Option<Column>, ctx: Context,
                      n: Normalized, dropNullStats: bool) {
    && Summaries(Names(n.columns), n.columns, ctx).Ok?
    && var rows := Summaries(Names(n.columns), n.columns, ctx).value;
       && rows != []
       // The rows are the flagged per-column rows, ordered by the four keys;
       // their labels are distinct, so `SortRowsOrdered` makes this order
       // the only one.
       && DistinctNames(IndexFlags(rows, n.hasIndex))
       && s.table.rows == SortRows(IndexFlags(rows, n.hasIndex))
       && multiset(s.table.rows) == multiset(IndexFlags(rows, n.hasIndex))
       && SortedBy(s.table.rows, RowLeq)
       && (forall i :: 0 <= i < |s.table.rows| ==> KeysMatchCells(s.table.rows[i]))
       && (n.hasIndex ==>
             s.table.rows != [] && s.table.rows[0].name == n.columns[0].name && s.table.rows[0].isIndex)
       // The columns: the written names but the row label, less the
       // correlation without a target, less the all-NaN ones when asked ...
       && (forall c :: c in s.table.columns <==>
             && c in WrittenNames(ctx) && c != "ColumnName"
             && (targetData.Some? || c != "CorrelationWithTarget")
             && (!dropNullStats || AnyFilled(s.table.rows, c)))
       // ... in the order the dict display first writes them, each once.
       && s.table.columns == Filter(Distinct(WrittenNames(ctx)),
            (c: string) => Shown(c, targetData.Some?, dropNullStats, s.table.rows))
       && NoDuplicates(s.table.columns)
       && s.shape == Shape(|data.index.labels|, |data.columns|, n.hasIndex)
       && s.warned == NanWarning(data, targetData)
  }

  method GetDataSummary(data: Frame, target: TargetSpec, targetMetric: TargetMetricSpec,
                        includeIndex: bool, dropNullStats: bool, extra: seq<ColumnMetric>,
                        lib: Numerics, unnamedLabel: string)
    returns (r: Result<Summary>)
    requires NamesClearOfReserved(targetMetric, extra)
    // Errors, in the order the code meets them.
    ensures target.ByName? && target.key !in Names(data.columns) ==> r == Err(KeyError)
    ensures ResolveTarget(data, target).Err? ==> r == Err(ResolveTarget(data, target).error)
    ensures
      (ResolveTarget(data, target).Ok? && ResolveTarget(data, target).value.Some? &&
       RejectedTargetDtype(ResolveTarget(data, target).value.value.dtype))
      ==> r == Err(TypeError)
    ensures
      (ResolveTarget(data, target).Ok? && !TargetRejected(ResolveTarget(data, target).value) &&
       NormalizeIndex(data, includeIndex, unnamedLabel).Err?)
      ==> r == Err(ValueError)
    ensures
      (ResolveTarget(data, target).Ok? && !TargetRejected(ResolveTarget(data, target).value) &&
       NormalizeIndex(data, includeIndex, unnamedLabel).Ok? &&
       NormalizeIndex(data, includeIndex, unnamedLabel).value.columns == [])
      ==> r == Err(IndexError)
    // The first column whose summary raises decides the error; with none
    // raising, the summary is produced.
    ensures
      (ResolveTarget(data, target).Ok? && !TargetRejected(ResolveTarget(data, target).value) &&
       NormalizeIndex(data, includeIndex, unnamedLabel).Ok?) ==>
      var ctx := SummaryContext(ResolveTarget(data, target).value, targetMetric, extra, lib);
      var cols := NormalizeIndex(data, includeIndex, unnamedLabel).value.columns;
      && (Summaries(Names(cols), cols, ctx).Err? ==> r == Err(Summaries(Names(cols), cols, ctx).error))
      && (Summaries(Names(cols), cols, ctx).Ok? && cols != [] ==> r.Ok?)
    ensures r.Ok? ==>
      && ResolveTarget(data, target).Ok?
      && !TargetRejected(ResolveTarget(data, target).value)
      && NormalizeIndex(data, includeIndex, unnamedLabel).Ok?
      && Describes(r.value, data, ResolveTarget(data, target).value,
           SummaryContext(ResolveTarget(data, target).value, targetMetric, extra, lib),
           NormalizeIndex(data, includeIndex, unnamedLabel).value, dropNullStats)
  {
    var resolved := ResolveTarget(data, target);
    if resolved.Err? {
      return Err(resolved.error);
    }
    var targetData := resolved.value;
    if targetData.Some? && RejectedTargetDtype(targetData.value.dtype) {
      return Err(TypeError);
    }
    var ctx := SummaryContext(targetData, targetMetric, extra, lib);

    var normalized := NormalizeIndex(data, includeIndex, unnamedLabel);
    if normalized.Err? {
      return Err(normalized.error);
    }
    var frame := normalized.value;
    ReportedColumnsAreTheFrames(data, includeIndex, unnamedLabel);

    ContextReservedFree(targetData, targetMetric, extra, lib);
    r := SummarizeFrame(data, targetData, ctx, frame, dropNullStats);
  }

  /** Lines 78-90 once the target is checked and the index step is done: one
      row per column, the first column that raises deciding the error, then
      the table and the printed shape. */
  method SummarizeFrame(data: Frame, targetData: Option<Column>, ctx: Context, frame: Normalized,
                        dropNullStats: bool)
    returns (r: Result<Summary>)
    requires ReservedFree(ctx)
    requires ReportedColumns(frame) == |data.columns|
    ensures Summaries(Names(frame.columns), frame.columns, ctx).Err? ==>
      r == Err(Summaries(Names(frame.columns), frame.columns, ctx).error)
    ensures frame.columns == [] ==> r == Err(IndexError)
    ensures Summaries(Names(frame.columns), frame.columns, ctx).Ok? && frame.columns != [] ==>
      r.Ok? && Describes(r.value, data, targetData, ctx, frame, dropNullStats)
  {
    var summaries := Summaries(Names(frame.columns), frame.columns, ctx);
    if summaries.Err? {
      return Err(summaries.error);
    }
    var rows := summaries.value;
    if rows == [] {
      return Err(IndexError);
    }
    FirstRecordKeys(rows, frame.columns, ctx);
    SummariesDistinctNames(frame.columns, ctx, frame.hasIndex);
    SummaryKeysMatchCells(Names(frame.columns), frame.columns, ctx);
    var info := AssembleTable(rows, frame.hasIndex, targetData.Some?, dropNullStats);
    r := Ok(Summary(info, Shape(|data.index.labels|, ReportedColumns(frame), frame.hasIndex), NanWarning(data, targetData)));
  }

  /** The table's columns come from the first record, whose keys are the
      written names. */
  lemma FirstRecordKeys(rows: seq<Row>, cols: seq<Column>, ctx: Context)
    requires Summaries(Names(cols), cols, ctx) == Ok(rows) && rows != []
    ensures rows[0].record.keys == Distinct(WrittenNames(ctx))
    ensures forall c :: c in rows[0].record.keys <==> c in WrittenNames(ctx)
    ensures forall i :: 0 <= i < |rows| ==> !rows[i].isIndex && rows[i].name == cols[i].name
  {
    var d := rows[0].record;
    assert d == SummaryRecord(cols[0], TypeClassifier.TypeTag(cols[0]), ctx).value;
    DistinctSameMembers(WrittenNames(ctx));
    RowsLabelled(rows, cols, ctx);
  }

  lemma RowsLabelled(rows: seq<Row>, cols: seq<Column>, ctx: Context)
    requires Summaries(Names(cols), cols, ctx) == Ok(rows)
    ensures forall i :: 0 <= i < |rows| ==> !rows[i].isIndex && rows[i].name == cols[i].name
  {
  }

  /** When no metric takes a label the table uses, every row's keys are its
      own `ColumnName`, `DataType` and `CorrelationWithTarget` cells. */
  lemma SummaryKeysMatchCells(names: seq<string>, cols: seq<Column>, ctx: Context)
    requires ReservedFree(ctx)
    requires Summaries(names, cols, ctx).Ok?
    ensures forall i :: 0 <= i < |cols| ==> KeysMatchCells(Summaries(names, cols, ctx).value[i])
  {
    forall i | 0 <= i < |cols| ensures KeysMatchCells(Summaries(names, cols, ctx).value[i]) {
      RowKeysMatchCells(names, cols, ctx, i);
    }
  }

  lemma RowKeysMatchCells(names: seq<string>, cols: seq<Column>, ctx: Context, i: nat)
    requires ReservedFree(ctx)
    requires Summaries(names, cols, ctx).Ok?
    requires i < |cols|
    ensures KeysMatchCells(Summaries(names, cols, ctx).value[i])
  {
    RecordHead(cols[i], TypeClassifier.TypeTag(cols[i]), ctx);
  }
}

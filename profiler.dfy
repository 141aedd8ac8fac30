/** The per-column summary of pyhandy/datautils.py lines 53-69: a dict display
    that fills each statistic or leaves it NaN according to the column's type
    tag, followed by the user's metrics. */
module ColumnProfiler {
  import opened Frames
  import opened Collections
  import opened Sorting
  import opened Records
  import Strings
  import TypeClassifier
  import opened MetricRegistry

  /** pandas' statistics and numpy's correlation as total functions whose
      values the model does not interpret; `None` is NaN. `mode` stands for
      `col.mode().values[0]` and is asked only when the column has values. */
  datatype Numerics = Numerics(
    mean: Column -> Option<Value>,
    median: Column -> Option<Value>,
    mode: Column -> Value,
    min: Column -> Option<Value>,
    max: Column -> Option<Value>,
    corr: (Column, Column) -> Option<real>)

  /** What every column's summary shares: the resolved target, the registered
      target metrics, the extra metrics and the numerical library. */
  datatype Context = Context(
    target: Option<Column>,
    targetMetrics: seq<GatedMetric>,
    extra: seq<ColumnMetric>,
    lib: Numerics)

  // The type tests of lines 60-67, as written.

  predicate MeanGate(tag: string) {
    tag !in ["category", "binary", "object", "datetime64[ns]"]
  }

  predicate MedianGate(tag: string) {
    tag !in ["category", "object", "datetime64[ns]"]
  }

  predicate ModeGate(tag: string) {
    !Strings.Contains(tag, "datetime")
  }

  predicate ExtremesGate(tag: string) {
    tag !in ["category", "binary", "object"]
  }

  predicate DistinctGate(tag: string) {
    tag in ["category", "binary", "object"]
  }

  /** `col.isnull().sum() / len(col)`: NaN (numpy's 0/0) for a column without
      rows, otherwise the share of missing cells. */
  function MissingPercent(cells: seq<Datum>): (c: Cell)
    ensures c.None? <==> cells == []
    ensures c.Some? ==> c.value.Fraction? && c.value.whole == |cells|
    ensures c.Some? ==> c.value.part <= c.value.whole
    ensures c.Some? ==> (c.value.part == 0 <==> forall i :: 0 <= i < |cells| ==> cells[i].Present?)
    ensures c.Some? ==> c.value.part + |NonNull(cells)| == c.value.whole
  {
    if cells == [] then None else Some(Fraction(NullCount(cells), |cells|))
  }

  /** Line 58: the correlation with the target, NaN unless there is a target
      and the tag compares with it. */
  function CorrelationCell(col: Column, tag: string, ctx: Context): (c: Cell)
    ensures c.Some? ==> ctx.target.Some? && ComparesWithTarget(tag) && c.value.Scalar? && c.value.v.Num?
    ensures ctx.target.Some? && ComparesWithTarget(tag) ==>
      (c.Some? <==> ctx.lib.corr(col, ctx.target.value).Some?)
  {
    if ctx.target.Some? && ComparesWithTarget(tag) then
      match ctx.lib.corr(col, ctx.target.value)
      case None => None
      case Some(x) => Some(Scalar(Num(x)))
    else None
  }

  /** Line 62: `col.mode().values[0]` raises IndexError when the column has no
      values, since `mode()` then returns an empty series. */
  function ModeCell(col: Column, tag: string, lib: Numerics): (r: Result<Cell>)
    ensures r.Err? <==> ModeGate(tag) && NonNull(col.cells) == []
    ensures r.Err? ==> r.error == IndexError
    ensures r.Ok? ==> (r.value.Some? <==> ModeGate(tag))
  {
    if !ModeGate(tag) then Ok(None)
    else if NonNull(col.cells) == [] then Err(IndexError)
    else Ok(Some(Scalar(lib.mode(col))))
  }

  /** Line 65: `col.nunique()`, the number of distinct non-missing values. */
  function NumOfUnique(cells: seq<Datum>): (c: Cell)
    ensures c == Some(Count(|Elements(NonNull(cells))|))
  {
    DistinctCardinality(NonNull(cells));
    Some(Count(|Distinct(NonNull(cells))|))
  }

  /** Two of the values do not compare in Python. */
  predicate Incomparable(vs: seq<Value>) {
    exists i, j :: 0 <= i < |vs| && 0 <= j < |vs| && !Comparable(vs[i], vs[j])
  }

  lemma IncomparableDistinct(vs: seq<Value>)
    ensures Incomparable(Distinct(vs)) <==> Incomparable(vs)
  {
    IncomparableCarries(vs, Distinct(vs));
    IncomparableCarries(Distinct(vs), vs);
  }

  /** A pair that does not compare is still there in any sequence holding
      every value of the first. */
  lemma IncomparableCarries(a: seq<Value>, b: seq<Value>)
    requires forall i :: 0 <= i < |a| ==> a[i] in b
    ensures Incomparable(a) ==> Incomparable(b)
  {
    if Incomparable(a) {
      var i, j :| 0 <= i < |a| && 0 <= j < |a| && !Comparable(a[i], a[j]);
      var i' :| 0 <= i' < |b| && b[i'] == a[i];
      var j' :| 0 <= j' < |b| && b[j'] == a[j];
      assert !Comparable(b[i'], b[j']);
    }
  }

  /** Line 66: `sorted(col.dropna().unique())` for the distinct-valued tags;
      `sorted` raises TypeError when two of the values do not compare. */
  function UniqueValuesCell(col: Column, tag: string): (r: Result<Cell>)
    ensures r.Err? <==> DistinctGate(tag) && Incomparable(NonNull(col.cells))
    ensures r.Err? ==> r.error == TypeError
    ensures r.Ok? ==> (r.value.Some? <==> DistinctGate(tag))
    ensures r.Ok? && r.value.Some? ==> r.value.value.Ordered?
  {
    if !DistinctGate(tag) then Ok(None)
    else
      var d := Distinct(NonNull(col.cells));
      IncomparableDistinct(NonNull(col.cells));
      if Incomparable(d) then Err(TypeError)
      else Ok(Some(Ordered(SortBy(d, ValueLeq))))
  }

  predicate Geq(a: nat, b: nat) {
    a >= b
  }

  /** Line 67: `col.value_counts() / len(col)`, kept as the per-value counts
      over the column length; `value_counts` lists them largest first. */
  function FracUniqueCell(col: Column, tag: string): (c: Cell)
    ensures c.Some? <==> DistinctGate(tag)
    ensures c.Some? ==> c.value.Shares? && c.value.whole == |col.cells|
  {
    if DistinctGate(tag) then
      var vs := NonNull(col.cells);
      Some(Shares(SortBy(CountsOf(Distinct(vs), vs), Geq), |col.cells|))
    else None
  }

  // The dict display of lines 53-69, entry by entry.

  const HEAD_NAMES := ["ColumnName", "DataType", "MissingPercent", "CorrelationWithTarget"]
  const STAT_NAMES := ["Mean", "Median", "Mode", "MinValue", "MaxValue", "NumOfUnique", "UniqueValues", "FracUnique"]

  /** The four leading entries of the display, in order. */
  function HeadEntries(name: string, tag: string, missing: Cell, corr: Cell): (r: seq<(string, Cell)>)
    ensures EntryKeys(r) == HEAD_NAMES
  {
    [ ("ColumnName", Some(Tag(name))),
      ("DataType", Some(Tag(tag))),
      ("MissingPercent", missing),
      ("CorrelationWithTarget", corr) ]
  }

  function Head(col: Column, tag: string, ctx: Context): seq<(string, Cell)> {
    HeadEntries(col.name, tag, MissingPercent(col.cells), CorrelationCell(col, tag, ctx))
  }

  /** `**{name: f(col, data_type) for name, f in target_metric_dict.items()}`. */
  function MetricEntries(col: Column, tag: string, ms: seq<GatedMetric>): (r: seq<(string, Cell)>)
    ensures |r| == |ms|
    ensures forall i :: 0 <= i < |ms| ==> r[i] == (ms[i].name, Lift(ms[i].apply(col, tag)))
  {
    seq(|ms|, i requires 0 <= i < |ms| => (ms[i].name, Lift(ms[i].apply(col, tag))))
  }

  /** `**{name: f(col) for name, f in extra_summary_metrics.items()}`. */
  function ExtraEntries(col: Column, extra: seq<ColumnMetric>): (r: seq<(string, Cell)>)
    ensures |r| == |extra|
    ensures forall i :: 0 <= i < |extra| ==> r[i] == (extra[i].name, Lift(extra[i].apply(col)))
  {
    seq(|extra|, i requires 0 <= i < |extra| => (extra[i].name, Lift(extra[i].apply(col))))
  }

  /** `f(col) if <test> else np.nan`. */
  function Gate(test: bool, f: Column -> Option<Value>, col: Column): (c: Cell)
    ensures c.Some? ==> test
  {
    if test then Lift(f(col)) else None
  }

  /** The eight statistics of the display, in order. */
  function StatEntries(mean: Cell, median: Cell, mode: Cell, min: Cell, max: Cell,
                       count: Cell, unique: Cell, frac: Cell): (r: seq<(string, Cell)>)
    ensures EntryKeys(r) == STAT_NAMES
  {
    [ ("Mean", mean), ("Median", median), ("Mode", mode), ("MinValue", min), ("MaxValue", max),
      ("NumOfUnique", count), ("UniqueValues", unique), ("FracUnique", frac) ]
  }

  function Stats(col: Column, tag: string, lib: Numerics, mode: Cell, unique: Cell): seq<(string, Cell)> {
    StatEntries(
      Gate(MeanGate(tag), lib.mean, col),
      Gate(MedianGate(tag), lib.median, col),
      mode,
      Gate(ExtremesGate(tag), lib.min, col),
      Gate(ExtremesGate(tag), lib.max, col),
      NumOfUnique(col.cells),
      unique,
      FracUniqueCell(col, tag))
  }

  function MetricNames(ms: seq<GatedMetric>): (r: seq<string>)
    ensures |r| == |ms|
    ensures forall i :: 0 <= i < |ms| ==> r[i] == ms[i].name
  {
    seq(|ms|, i requires 0 <= i < |ms| => ms[i].name)
  }

  function ExtraNames(extra: seq<ColumnMetric>): (r: seq<string>)
    ensures |r| == |extra|
    ensures forall i :: 0 <= i < |extra| ==> r[i] == extra[i].name
  {
    seq(|extra|, i requires 0 <= i < |extra| => extra[i].name)
  }

  /** The keys the dict display writes, in order; the target metrics twice,
      because line 59 unpacks `target_metric_dict` twice. */
  function WrittenNames(ctx: Context): seq<string> {
    HEAD_NAMES + MetricNames(ctx.targetMetrics) + MetricNames(ctx.targetMetrics) + STAT_NAMES + ExtraNames(ctx.extra)
  }

  /** `get_col_summary(col, data_type)`. Entries are evaluated left to right,
      so a missing mode raises before an unsortable unique-value list. The
      keys are the written names in order of first writing, whatever the
      column. */
  function SummaryRecord(col: Column, tag: string, ctx: Context): (r: Result<Dict>)
    ensures r.Ok? ==> WellFormed(r.value) && r.value.keys == Distinct(WrittenNames(ctx))
    ensures r.Err? ==> r.error == IndexError || r.error == TypeError
    ensures r == Err(IndexError) <==> ModeGate(tag) && NonNull(col.cells) == []
    ensures r == Err(TypeError) <==>
      !(ModeGate(tag) && NonNull(col.cells) == []) && DistinctGate(tag) && Incomparable(NonNull(col.cells))
  {
    var mode := ModeCell(col, tag, ctx.lib);
    if mode.Err? then Err(mode.error)
    else
      var unique := UniqueValuesCell(col, tag);
      if unique.Err? then Err(unique.error)
      else
        var entries := Entries(col, tag, ctx, mode.value, unique.value);
        EntriesNames(col, tag, ctx, mode.value, unique.value);
        KeysAfterEmpty(WrittenNames(ctx));
        Ok(PutAll(EMPTY, entries))
  }

  function Entries(col: Column, tag: string, ctx: Context, mode: Cell, unique: Cell): seq<(string, Cell)> {
    Head(col, tag, ctx) + Later(col, tag, ctx, mode, unique)
  }

  /** Everything the display writes after the four leading entries. */
  function Later(col: Column, tag: string, ctx: Context, mode: Cell, unique: Cell): seq<(string, Cell)> {
    MetricEntries(col, tag, ctx.targetMetrics)
      + MetricEntries(col, tag, ctx.targetMetrics)
      + Stats(col, tag, ctx.lib, mode, unique)
      + ExtraEntries(col, ctx.extra)
  }

  lemma EntriesNames(col: Column, tag: string, ctx: Context, mode: Cell, unique: Cell)
    ensures EntryKeys(Entries(col, tag, ctx, mode, unique)) == WrittenNames(ctx)
  {
    var m, x := MetricEntries(col, tag, ctx.targetMetrics), ExtraEntries(col, ctx.extra);
    assert EntryKeys(m) == MetricNames(ctx.targetMetrics);
    assert EntryKeys(x) == ExtraNames(ctx.extra);
    DisplayKeys(Head(col, tag, ctx), m, Stats(col, tag, ctx.lib, mode, unique), x);
  }

  lemma DisplayKeys(h: seq<(string, Cell)>, m: seq<(string, Cell)>, s: seq<(string, Cell)>, x: seq<(string, Cell)>)
    ensures EntryKeys(h + (m + m + s + x)) == EntryKeys(h) + EntryKeys(m) + EntryKeys(m) + EntryKeys(s) + EntryKeys(x)
  {
    EntryKeysConcat(h, m + m + s + x);
    EntryKeysConcat(m + m + s, x);
    EntryKeysConcat(m + m, s);
    EntryKeysConcat(m, m);
  }

  // What the summary promises about its cells.

  lemma ValueLeqTotalPreorder()
    ensures TotalPreorder(ValueLeq)
  {
    forall a, b ensures ValueLeq(a, b) || ValueLeq(b, a) {
      ValueLessTrichotomy(a, b);
      ValueLessIrreflexive(a);
      if ValueLess(a, b) && ValueLess(b, a) {
        ValueLessTransitive(a, b, a);
      }
    }
    forall a, b, c | ValueLeq(a, b) && ValueLeq(b, c) ensures ValueLeq(a, c) {
      ValueLessTrichotomy(a, b);
      if ValueLess(c, a) && ValueLess(a, b) {
        ValueLessTransitive(c, a, b);
      }
    }
  }

  /** UniqueValues lists every distinct non-missing value once, in strictly
      ascending order, and has NumOfUnique entries. */
  lemma UniqueValuesAscending(col: Column, tag: string)
    requires UniqueValuesCell(col, tag).Ok? && UniqueValuesCell(col, tag).value.Some?
    ensures var u := UniqueValuesCell(col, tag).value.value.values;
      && (forall i, j :: 0 <= i < j < |u| ==> ValueLess(u[i], u[j]))
      && (forall v :: v in u <==> v in NonNull(col.cells))
      && NumOfUnique(col.cells) == Some(Count(|u|))
  {
    SortedDistinct(NonNull(col.cells));
  }

  lemma SortedDistinct(vs: seq<Value>)
    ensures var u := SortBy(Distinct(vs), ValueLeq);
      && (forall i, j :: 0 <= i < j < |u| ==> ValueLess(u[i], u[j]))
      && (forall v :: v in u <==> v in vs)
      && |u| == |Elements(vs)|
  {
    var d := Distinct(vs);
    SortedStrictly(d);
    DistinctCardinality(vs);
    forall v ensures v in SortBy(d, ValueLeq) <==> v in vs {
      assert v in SortBy(d, ValueLeq) <==> v in multiset(d);
      if v in vs {
        var k :| 0 <= k < |vs| && vs[k] == v;
      }
    }
  }

  /** Sorting values that are pairwise distinct leaves them strictly ascending. */
  lemma SortedStrictly(d: seq<Value>)
    requires NoDuplicates(d)
    ensures var u := SortBy(d, ValueLeq); forall i, j :: 0 <= i < j < |u| ==> ValueLess(u[i], u[j])
  {
    var u := SortBy(d, ValueLeq);
    ValueLeqTotalPreorder();
    SortBySorted(d, ValueLeq);
    PermutationKeepsNoDuplicates(d, u);
    forall i, j | 0 <= i < j < |u| ensures ValueLess(u[i], u[j]) {
      ValueLessTrichotomy(u[i], u[j]);
    }
  }

  /** FracUnique holds one count per distinct non-missing value, largest
      first; each count is at least one and together they count every
      non-missing cell. */
  lemma FracUniqueCounts(col: Column, tag: string)
    requires DistinctGate(tag)
    ensures var c := FracUniqueCell(col, tag).value.counts;
      && (forall i, j :: 0 <= i < j < |c| ==> c[i] >= c[j])
      && |c| == |Elements(NonNull(col.cells))|
      && (forall i :: 0 <= i < |c| ==> c[i] >= 1)
      && Sum(c) == |NonNull(col.cells)|
      && multiset(c) == multiset(CountsOf(Distinct(NonNull(col.cells)), NonNull(col.cells)))
  {
    SortedCounts(NonNull(col.cells));
  }

  lemma SortedCounts(vs: seq<Value>)
    ensures var c := SortBy(CountsOf(Distinct(vs), vs), Geq);
      && (forall i, j :: 0 <= i < j < |c| ==> c[i] >= c[j])
      && |c| == |Elements(vs)|
      && (forall i :: 0 <= i < |c| ==> c[i] >= 1)
      && Sum(c) == |vs|
      && multiset(c) == multiset(CountsOf(Distinct(vs), vs))
  {
    var d := Distinct(vs);
    var counts := CountsOf(d, vs);
    var c := SortBy(counts, Geq);
    assert TotalPreorder(Geq);
    SortBySorted(counts, Geq);
    DistinctCardinality(vs);
    CountsOfPresentKeys(d, vs);
    PermutationKeepsBound(counts, c, 1);
    CountsOfCover(d, vs);
    SumPermutation(counts, c);
  }

  /** With no extra metric named like a statistic, each statistic's cell in
      the column's record is the gated one: filled exactly when the tag
      passes that statistic's test. */
  lemma RecordStatistics(col: Column, tag: string, ctx: Context)
    requires SummaryRecord(col, tag, ctx).Ok?
    requires forall i :: 0 <= i < |ctx.extra| ==> ctx.extra[i].name !in STAT_NAMES
    ensures var d := SummaryRecord(col, tag, ctx).value;
      && Lookup(d, "Mean") == (if MeanGate(tag) then Lift(ctx.lib.mean(col)) else None)
      && Lookup(d, "Median") == (if MedianGate(tag) then Lift(ctx.lib.median(col)) else None)
      && Lookup(d, "Mode") == (if ModeGate(tag) then Some(Scalar(ctx.lib.mode(col))) else None)
      && Lookup(d, "MinValue") == (if ExtremesGate(tag) then Lift(ctx.lib.min(col)) else None)
      && Lookup(d, "MaxValue") == (if ExtremesGate(tag) then Lift(ctx.lib.max(col)) else None)
      && Lookup(d, "NumOfUnique") == Some(Count(|Elements(NonNull(col.cells))|))
      && Lookup(d, "UniqueValues") == UniqueValuesCell(col, tag).value
      && Lookup(d, "FracUnique") == FracUniqueCell(col, tag)
  {
    RecordEntries(col, tag, ctx);
    StatsLookup(col, tag, ctx, ModeCell(col, tag, ctx.lib).value, UniqueValuesCell(col, tag).value);
  }

  lemma StatsLookup(col: Column, tag: string, ctx: Context, mode: Cell, unique: Cell)
    requires forall i :: 0 <= i < |ctx.extra| ==> ctx.extra[i].name !in STAT_NAMES
    ensures var d := PutAll(EMPTY, Entries(col, tag, ctx, mode, unique));
      && Lookup(d, "Mean") == Gate(MeanGate(tag), ctx.lib.mean, col)
      && Lookup(d, "Median") == Gate(MedianGate(tag), ctx.lib.median, col)
      && Lookup(d, "Mode") == mode
      && Lookup(d, "MinValue") == Gate(ExtremesGate(tag), ctx.lib.min, col)
      && Lookup(d, "MaxValue") == Gate(ExtremesGate(tag), ctx.lib.max, col)
      && Lookup(d, "NumOfUnique") == NumOfUnique(col.cells)
      && Lookup(d, "UniqueValues") == unique
      && Lookup(d, "FracUnique") == FracUniqueCell(col, tag)
  {
    var x := ExtraEntries(col, ctx.extra);
    assert forall i :: 0 <= i < |x| ==> x[i].0 !in STAT_NAMES;
    StatsReadBack(Head(col, tag, ctx), MetricEntries(col, tag, ctx.targetMetrics) + MetricEntries(col, tag, ctx.targetMetrics), x,
      Gate(MeanGate(tag), ctx.lib.mean, col), Gate(MedianGate(tag), ctx.lib.median, col), mode,
      Gate(ExtremesGate(tag), ctx.lib.min, col), Gate(ExtremesGate(tag), ctx.lib.max, col),
      NumOfUnique(col.cells), unique, FracUniqueCell(col, tag));
  }

  /** In a dict display `h + (p + statistics + x)`, each statistic is read
      back as written when no entry of `x` takes a statistic's name. */
  lemma StatsReadBack(h: seq<(string, Cell)>, p: seq<(string, Cell)>, x: seq<(string, Cell)>,
                      mean: Cell, median: Cell, mode: Cell, min: Cell, max: Cell, count: Cell, unique: Cell, frac: Cell)
    requires forall i :: 0 <= i < |x| ==> x[i].0 !in STAT_NAMES
    ensures var d := PutAll(EMPTY, h + (p + StatEntries(mean, median, mode, min, max, count, unique, frac) + x));
      && Lookup(d, "Mean") == mean && Lookup(d, "Median") == median && Lookup(d, "Mode") == mode
      && Lookup(d, "MinValue") == min && Lookup(d, "MaxValue") == max
      && Lookup(d, "NumOfUnique") == count && Lookup(d, "UniqueValues") == unique && Lookup(d, "FracUnique") == frac
  {
    var s := StatEntries(mean, median, mode, min, max, count, unique, frac);
    StatAt(h, p, s, x, 0);
    StatAt(h, p, s, x, 1);
    StatAt(h, p, s, x, 2);
    StatAt(h, p, s, x, 3);
    StatAt(h, p, s, x, 4);
    StatAt(h, p, s, x, 5);
    StatAt(h, p, s, x, 6);
    StatAt(h, p, s, x, 7);
  }

  lemma StatAt(h: seq<(string, Cell)>, p: seq<(string, Cell)>, s: seq<(string, Cell)>, x: seq<(string, Cell)>, j: nat)
    requires EntryKeys(s) == STAT_NAMES && j < |s|
    requires forall i :: 0 <= i < |x| ==> x[i].0 !in STAT_NAMES
    ensures Lookup(PutAll(EMPTY, h + (p + s + x)), s[j].0) == s[j].1
  {
    StatNamesDistinct();
    LaterKeysDiffer(s, STAT_NAMES, j);
    assert s[j].0 !in EntryKeys(x);
    assert h + (p + s + x) == (h + p) + s + x;
    LastWriteWins(EMPTY, h + p, s, x, j);
  }

  lemma StatNamesDistinct()
    ensures NoDuplicates(STAT_NAMES)
  {
  }

  /** The record of a column that raises nothing is its entries written into an
      empty dict. */
  lemma RecordEntries(col: Column, tag: string, ctx: Context)
    requires SummaryRecord(col, tag, ctx).Ok?
    ensures SummaryRecord(col, tag, ctx).value ==
      PutAll(EMPTY, Entries(col, tag, ctx, ModeCell(col, tag, ctx.lib).value, UniqueValuesCell(col, tag).value))
  {
  }

  /** Labels the summary table itself uses: a metric of one of these names
      would overwrite the row label, the sort keys or the index flag. */
  const RESERVED := ["ColumnName", "DataType", "CorrelationWithTarget", "is_index"]

  predicate ReservedFree(ctx: Context) {
    && (forall i :: 0 <= i < |ctx.targetMetrics| ==> ctx.targetMetrics[i].name !in RESERVED)
    && (forall i :: 0 <= i < |ctx.extra| ==> ctx.extra[i].name !in RESERVED)
  }

  /** The row label, the type tag and the correlation land in the record
      unchanged when no metric takes their names. */
  lemma RecordHead(col: Column, tag: string, ctx: Context)
    requires SummaryRecord(col, tag, ctx).Ok?
    requires ReservedFree(ctx)
    ensures var d := SummaryRecord(col, tag, ctx).value;
      && Lookup(d, "ColumnName") == Some(Tag(col.name))
      && Lookup(d, "DataType") == Some(Tag(tag))
      && Lookup(d, "CorrelationWithTarget") == CorrelationCell(col, tag, ctx)
  {
    RecordEntries(col, tag, ctx);
    HeadLookup(col, tag, ctx, ModeCell(col, tag, ctx.lib).value, UniqueValuesCell(col, tag).value);
  }

  lemma HeadLookup(col: Column, tag: string, ctx: Context, mode: Cell, unique: Cell)
    requires ReservedFree(ctx)
    ensures var d := PutAll(EMPTY, Entries(col, tag, ctx, mode, unique));
      && Lookup(d, "ColumnName") == Some(Tag(col.name))
      && Lookup(d, "DataType") == Some(Tag(tag))
      && Lookup(d, "CorrelationWithTarget") == CorrelationCell(col, tag, ctx)
  {
    LaterAvoidsReserved(MetricEntries(col, tag, ctx.targetMetrics), Stats(col, tag, ctx.lib, mode, unique),
      ExtraEntries(col, ctx.extra));
    HeadReadBack(col.name, tag, MissingPercent(col.cells), CorrelationCell(col, tag, ctx), Later(col, tag, ctx, mode, unique));
  }

  /** In a dict display `head + rest`, the row label, the tag and the
      correlation are read back as written when no entry of `rest` takes a
      reserved label. */
  lemma HeadReadBack(name: string, tag: string, missing: Cell, corr: Cell, rest: seq<(string, Cell)>)
    requires forall k :: k in EntryKeys(rest) ==> k !in RESERVED
    ensures var d := PutAll(EMPTY, HeadEntries(name, tag, missing, corr) + rest);
      && Lookup(d, "ColumnName") == Some(Tag(name))
      && Lookup(d, "DataType") == Some(Tag(tag))
      && Lookup(d, "CorrelationWithTarget") == corr
  {
    var h := HeadEntries(name, tag, missing, corr);
    HeadAt(h, rest, 0);
    HeadAt(h, rest, 1);
    HeadAt(h, rest, 3);
  }

  lemma HeadAt(h: seq<(string, Cell)>, rest: seq<(string, Cell)>, j: nat)
    requires EntryKeys(h) == HEAD_NAMES && j < |h|
    requires h[j].0 !in EntryKeys(rest)
    ensures Lookup(PutAll(EMPTY, h + rest), h[j].0) == h[j].1
  {
    HeadNamesDistinct();
    LaterKeysDiffer(h, HEAD_NAMES, j);
    assert h + rest == [] + h + rest;
    LastWriteWins(EMPTY, [], h, rest, j);
  }

  lemma HeadNamesDistinct()
    ensures NoDuplicates(HEAD_NAMES)
  {
  }

  /** In entries whose keys are pairwise distinct, no later entry repeats an
      entry's key. */
  lemma LaterKeysDiffer(h: seq<(string, Cell)>, names: seq<string>, j: nat)
    requires EntryKeys(h) == names && NoDuplicates(names) && j < |h|
    ensures h[j].0 !in EntryKeys(h[j + 1..])
  {
    assert EntryKeys(h[j + 1..]) == names[j + 1..];
  }

  /** The missing share lands in the record unchanged when no metric is
      named "MissingPercent" (line 57). */
  lemma RecordMissingPercent(col: Column, tag: string, ctx: Context)
    requires SummaryRecord(col, tag, ctx).Ok?
    requires forall i :: 0 <= i < |ctx.targetMetrics| ==> ctx.targetMetrics[i].name != "MissingPercent"
    requires forall i :: 0 <= i < |ctx.extra| ==> ctx.extra[i].name != "MissingPercent"
    ensures Lookup(SummaryRecord(col, tag, ctx).value, "MissingPercent") == MissingPercent(col.cells)
  {
    RecordEntries(col, tag, ctx);
    MissingLookup(col, tag, ctx, ModeCell(col, tag, ctx.lib).value, UniqueValuesCell(col, tag).value);
  }

  lemma MissingLookup(col: Column, tag: string, ctx: Context, mode: Cell, unique: Cell)
    requires forall i :: 0 <= i < |ctx.targetMetrics| ==> ctx.targetMetrics[i].name != "MissingPercent"
    requires forall i :: 0 <= i < |ctx.extra| ==> ctx.extra[i].name != "MissingPercent"
    ensures Lookup(PutAll(EMPTY, Entries(col, tag, ctx, mode, unique)), "MissingPercent") == MissingPercent(col.cells)
  {
    LaterAvoids(MetricEntries(col, tag, ctx.targetMetrics), Stats(col, tag, ctx.lib, mode, unique),
      ExtraEntries(col, ctx.extra), "MissingPercent");
    MissingReadBack(col.name, tag, MissingPercent(col.cells), CorrelationCell(col, tag, ctx),
      Later(col, tag, ctx, mode, unique));
  }

  lemma MissingReadBack(name: string, tag: string, missing: Cell, corr: Cell, rest: seq<(string, Cell)>)
    requires "MissingPercent" !in EntryKeys(rest)
    ensures Lookup(PutAll(EMPTY, HeadEntries(name, tag, missing, corr) + rest), "MissingPercent") == missing
  {
    HeadAt(HeadEntries(name, tag, missing, corr), rest, 2);
  }

  /** A label that no metric takes and that names no statistic is written
      by no entry after the head. */
  lemma LaterAvoids(m: seq<(string, Cell)>, s: seq<(string, Cell)>, x: seq<(string, Cell)>, k: string)
    requires forall i :: 0 <= i < |m| ==> m[i].0 != k
    requires forall i :: 0 <= i < |x| ==> x[i].0 != k
    requires EntryKeys(s) == STAT_NAMES && k !in STAT_NAMES
    ensures k !in EntryKeys(m + m + s + x)
  {
    EntryKeysConcat(m + m + s, x);
    EntryKeysConcat(m + m, s);
    EntryKeysConcat(m, m);
  }

  /** The entries after the head carry no reserved label when no metric does. */
  lemma LaterAvoidsReserved(m: seq<(string, Cell)>, s: seq<(string, Cell)>, x: seq<(string, Cell)>)
    requires forall i :: 0 <= i < |m| ==> m[i].0 !in RESERVED
    requires forall i :: 0 <= i < |x| ==> x[i].0 !in RESERVED
    requires EntryKeys(s) == STAT_NAMES
    ensures forall k :: k in EntryKeys(m + m + s + x) ==> k !in RESERVED
  {
    EntryKeysConcat(m + m + s, x);
    EntryKeysConcat(m + m, s);
    EntryKeysConcat(m, m);
    forall k | k in EntryKeys(m + m + s + x) ensures k !in RESERVED {
      if k in EntryKeys(s) {
        ReservedNotStatistic(k);
      } else if k in EntryKeys(m) {
        var i :| 0 <= i < |m| && EntryKeys(m)[i] == k;
      } else {
        var i :| 0 <= i < |x| && EntryKeys(x)[i] == k;
      }
    }
  }

  /** No reserved label names a statistic. */
  lemma ReservedNotStatistic(k: string)
    requires k in STAT_NAMES
    ensures k !in RESERVED
  {
  }

  /** A registered target metric's cell is NaN when there is no target or the
      tag does not compare with it, and the metric's own value otherwise
      (when no later entry takes its name). */
  lemma RecordTargetMetric(col: Column, tag: string, ctx: Context, spec: TargetMetricSpec, i: nat)
    requires SummaryRecord(col, tag, ctx).Ok?
    requires ctx.targetMetrics == TargetMetrics(spec, ctx.target)
    requires i < |ctx.targetMetrics|
    requires forall j :: 0 <= j < |ctx.targetMetrics| && j != i ==> ctx.targetMetrics[j].name != ctx.targetMetrics[i].name
    requires ctx.targetMetrics[i].name !in STAT_NAMES && ctx.targetMetrics[i].name !in ExtraNames(ctx.extra)
    ensures Lookup(SummaryRecord(col, tag, ctx).value, ctx.targetMetrics[i].name) ==
      if ctx.target.None? || !ComparesWithTarget(tag) then None
      else if spec.SingleMetric? then Lift(spec.compare(ctx.target.value, col))
      else Lift(spec.metrics[i].compare(ctx.target.value, col))
  {
    var mode := ModeCell(col, tag, ctx.lib).value;
    var unique := UniqueValuesCell(col, tag).value;
    RecordEntries(col, tag, ctx);
    MetricLookup(col, tag, ctx, mode, unique, i);
  }

  lemma MetricLookup(col: Column, tag: string, ctx: Context, mode: Cell, unique: Cell, i: nat)
    requires i < |ctx.targetMetrics|
    requires forall j :: 0 <= j < |ctx.targetMetrics| && j != i ==> ctx.targetMetrics[j].name != ctx.targetMetrics[i].name
    requires ctx.targetMetrics[i].name !in STAT_NAMES && ctx.targetMetrics[i].name !in ExtraNames(ctx.extra)
    ensures Lookup(PutAll(EMPTY, Entries(col, tag, ctx, mode, unique)), ctx.targetMetrics[i].name) ==
      Lift(ctx.targetMetrics[i].apply(col, tag))
  {
    var h, m, s, x := Head(col, tag, ctx), MetricEntries(col, tag, ctx.targetMetrics),
      Stats(col, tag, ctx.lib, mode, unique), ExtraEntries(col, ctx.extra);
    assert Entries(col, tag, ctx, mode, unique) == (h + m) + m + (s + x);
    EntryKeysConcat(s, x);
    assert EntryKeys(x) == ExtraNames(ctx.extra);
    assert m[i].0 !in EntryKeys(m[i + 1..]) by {
      var later := EntryKeys(m[i + 1..]);
      forall k | 0 <= k < |later| ensures later[k] != m[i].0 {
        assert later[k] == ctx.targetMetrics[i + 1 + k].name;
      }
    }
    LastWriteWins(EMPTY, h + m, m, s + x, i);
  }

  /** An extra metric is applied to every column whatever its tag; its cell
      is its value when no later extra metric takes its name. */
  lemma RecordExtraMetric(col: Column, tag: string, ctx: Context, i: nat)
    requires SummaryRecord(col, tag, ctx).Ok?
    requires i < |ctx.extra|
    requires forall j :: i < j < |ctx.extra| ==> ctx.extra[j].name != ctx.extra[i].name
    ensures Lookup(SummaryRecord(col, tag, ctx).value, ctx.extra[i].name) == Lift(ctx.extra[i].apply(col))
  {
    var mode := ModeCell(col, tag, ctx.lib).value;
    var unique := UniqueValuesCell(col, tag).value;
    RecordEntries(col, tag, ctx);
    ExtraLookup(col, tag, ctx, mode, unique, i);
  }

  lemma ExtraLookup(col: Column, tag: string, ctx: Context, mode: Cell, unique: Cell, i: nat)
    requires i < |ctx.extra|
    requires forall j :: i < j < |ctx.extra| ==> ctx.extra[j].name != ctx.extra[i].name
    ensures Lookup(PutAll(EMPTY, Entries(col, tag, ctx, mode, unique)), ctx.extra[i].name) == Lift(ctx.extra[i].apply(col))
  {
    var h, m, s, x := Head(col, tag, ctx), MetricEntries(col, tag, ctx.targetMetrics),
      Stats(col, tag, ctx.lib, mode, unique), ExtraEntries(col, ctx.extra);
    assert Entries(col, tag, ctx, mode, unique) == (h + m + m + s) + x + [];
    assert x[i].0 !in EntryKeys(x[i + 1..]) by {
      var later := EntryKeys(x[i + 1..]);
      forall k | 0 <= k < |later| ensures later[k] != x[i].0 {
        assert later[k] == ctx.extra[i + 1 + k].name;
      }
    }
    LastWriteWins(EMPTY, h + m + m + s, x, [], i);
  }

  /** The tests of lines 58-67 by category of tag, for tags whose only
      datetime dtype is the timezone-naive one: categorical columns get the
      distinct-value statistics and a mode; binary ones also a median and the
      target comparison; numeric ones every statistic but the distinct-value
      lists; naive datetimes only the extremes. */
  lemma GatesByCategory(tag: string)
    requires Strings.Contains(tag, "datetime") ==> tag == "datetime64[ns]"
    ensures TypeClassifier.CategoryOf(tag) == TypeClassifier.Categorical ==>
      !MeanGate(tag) && !MedianGate(tag) && ModeGate(tag) && !ExtremesGate(tag) && DistinctGate(tag) && !ComparesWithTarget(tag)
    ensures TypeClassifier.CategoryOf(tag) == TypeClassifier.Binary ==>
      !MeanGate(tag) && MedianGate(tag) && ModeGate(tag) && !ExtremesGate(tag) && DistinctGate(tag) && ComparesWithTarget(tag)
    ensures TypeClassifier.CategoryOf(tag) == TypeClassifier.Numeric ==>
      MeanGate(tag) && MedianGate(tag) && ModeGate(tag) && ExtremesGate(tag) && !DistinctGate(tag) && ComparesWithTarget(tag)
    ensures TypeClassifier.CategoryOf(tag) == TypeClassifier.Temporal ==>
      !MeanGate(tag) && !MedianGate(tag) && !ModeGate(tag) && ExtremesGate(tag) && !DistinctGate(tag) && !ComparesWithTarget(tag)
  {
    match TypeClassifier.CategoryOf(tag)
    case Categorical => CategoricalGates(tag);
    case Binary => BinaryGates();
    case Numeric => NumericGates(tag);
    case Temporal => NaiveDatetimeIsTemporal();
  }

  lemma CategoricalGates(tag: string)
    requires tag == "category" || tag == "object"
    ensures !MeanGate(tag) && !MedianGate(tag) && ModeGate(tag) && !ExtremesGate(tag) && DistinctGate(tag) && !ComparesWithTarget(tag)
  {
    Strings.ShortNeverContains("object", "datetime");
    Strings.ShortNeverContains("category", "datetime");
  }

  lemma BinaryGates()
    ensures var tag := TypeClassifier.BINARY;
      !MeanGate(tag) && MedianGate(tag) && ModeGate(tag) && !ExtremesGate(tag) && DistinctGate(tag) && ComparesWithTarget(tag)
  {
    Strings.ShortNeverContains("binary", "datetime");
  }

  lemma NumericGates(tag: string)
    requires TypeClassifier.CategoryOf(tag) == TypeClassifier.Numeric
    ensures MeanGate(tag) && MedianGate(tag) && ModeGate(tag) && ExtremesGate(tag) && !DistinctGate(tag) && ComparesWithTarget(tag)
  {
    NaiveDatetimeIsTemporal();
  }

  lemma NaiveDatetimeIsTemporal()
    ensures Strings.Contains("datetime64[ns]", "datetime")
  {
    assert "datetime64[ns]"[..|"datetime"|] == "datetime";
  }

  /** Every datetime tag but the naive nanosecond one ('datetime64[s]',
      'datetime64[ns, Europe/Paris]', ...) is in none of the lists of lines
      60-64: such a column gets a Mean, a Median and the extremes, but no
      Mode, no distinct-value statistics and no target comparison. */
  lemma OtherDatetimeTags(tag: string)
    requires Strings.Contains(tag, "datetime") && tag != "datetime64[ns]"
    ensures TypeClassifier.CategoryOf(tag) == TypeClassifier.Temporal
    ensures MeanGate(tag) && MedianGate(tag) && !ModeGate(tag) && ExtremesGate(tag)
    ensures !DistinctGate(tag) && !ComparesWithTarget(tag)
  {
    Strings.ShortNeverContains("binary", "datetime");
    Strings.ShortNeverContains("object", "datetime");
    Strings.ShortNeverContains("category", "datetime");
  }

  /** A timezone-aware datetime tag is in none of the lists of lines 60-64,
      so such a column gets a Mean, a Median and the extremes but no Mode,
      unlike a naive datetime column. */
  lemma TimezoneAwareDatetime()
    ensures var tag := "datetime64[ns, UTC]";
      && TypeClassifier.CategoryOf(tag) == TypeClassifier.Temporal
      && MeanGate(tag) && MedianGate(tag) && !ModeGate(tag) && ExtremesGate(tag)
      && !DistinctGate(tag) && !ComparesWithTarget(tag)
  {
    assert "datetime64[ns, UTC]"[..|"datetime"|] == "datetime";
    Strings.ShortNeverContains("binary", "datetime");
  }
}

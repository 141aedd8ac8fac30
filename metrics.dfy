/** The target check and the metric dictionaries of `get_data_summary`
    (pyhandy/datautils.py lines 36-47). User callables are uninterpreted total
    functions; a NaN result is `None`. */
module MetricRegistry {
  import opened Frames
  import Strings
  import TypeClassifier

  /** How the caller names the target: not at all, by column label, or as a
      vector of its own. */
  datatype TargetSpec = NoTarget | ByName(key: string) | Vector(values: Column)

  /** `data[target]` for a label, or the vector itself. A label naming no
      column raises KeyError; a label naming several selects a frame, whose
      missing `.dtype` raises AttributeError at the dtype check. */
  function ResolveTarget(data: Frame, target: TargetSpec): (r: Result<Option<Column>>)
    ensures target.NoTarget? ==> r == Ok(None)
    ensures target.Vector? ==> r == Ok(Some(target.values))
    ensures target.ByName? ==>
      (r == Err(KeyError) <==> target.key !in Names(data.columns)) &&
      (r == Err(AttributeError) <==> multiset(Names(data.columns))[target.key] > 1) &&
      (r.Ok? ==> r.value.Some? && r.value.value in data.columns && r.value.value.name == target.key)
    ensures target.ByName? && multiset(Names(data.columns))[target.key] == 1 ==> r.Ok?
  {
    match target
    case NoTarget => Ok(None)
    case Vector(values) => Ok(Some(values))
    case ByName(key) =>
      var names := Names(data.columns);
      if key !in names then Err(KeyError)
      else if multiset(names)[key] > 1 then Err(AttributeError)
      else Ok(Some(FirstNamed(data.columns, key)))
  }

  function FirstNamed(columns: seq<Column>, key: string): (c: Column)
    requires key in Names(columns)
    ensures c in columns && c.name == key
  {
    if columns[0].name == key then columns[0]
    else
      assert Names(columns) == [columns[0].name] + Names(columns[1..]);
      FirstNamed(columns[1..], key)
  }

  /** Line 39: a target whose dtype is 'category', 'object' or mentions
      'datetime' is refused. */
  predicate RejectedTargetDtype(dtype: string) {
    dtype == "category" || dtype == "object" || Strings.Contains(dtype, "datetime")
  }

  /** The type half of the gate on every comparison with the target (lines
      45, 47 and 58): the column's tag is not 'category' or 'object' and does
      not mention 'datetime'. */
  predicate ComparesWithTarget(tag: string) {
    tag != "category" && tag != "object" && !Strings.Contains(tag, "datetime")
  }

  /** A target that passes the dtype check is compared with itself when it is
      also one of the profiled columns, binary or not. */
  lemma AcceptedTargetComparesWithItself(t: Column)
    requires !RejectedTargetDtype(t.dtype)
    ensures ComparesWithTarget(TypeClassifier.TypeTag(t))
  {
  }

  /** A comparison metric `f(target, column)`. */
  datatype TargetMetric = TargetMetric(name: string, compare: (Column, Column) -> Option<Value>)

  /** The `target_metric` argument: absent, one callable, or a dict of them. */
  datatype TargetMetricSpec =
    | NoTargetMetric
    | SingleMetric(compare: (Column, Column) -> Option<Value>)
    | MetricDict(metrics: seq<TargetMetric>)

  /** One of `**extra_summary_metrics`: `f(column)`. */
  datatype ColumnMetric = ColumnMetric(name: string, apply: Column -> Option<Value>)

  /** An entry of `target_metric_dict`: a lambda of the column and its tag. */
  datatype GatedMetric = GatedMetric(name: string, apply: (Column, string) -> Option<Value>)

  const SINGLE_METRIC_NAME := "MetricWithTarget"

  /** The lambda of lines 45 and 47 around `compare`: NaN unless there is a
      target and the tag compares with it. */
  function Gated(compare: (Column, Column) -> Option<Value>, target: Option<Column>): (Column, string) -> Option<Value> {
    (x: Column, tag: string) =>
      if target.Some? && ComparesWithTarget(tag) then compare(target.value, x) else None
  }

  /** `target_metric_dict` as evidently intended: each name calls its own
      callable, gated by the target and the column's tag; a single callable is
      registered as 'MetricWithTarget'. */
  function TargetMetrics(spec: TargetMetricSpec, target: Option<Column>): (r: seq<GatedMetric>)
    ensures spec.NoTargetMetric? ==> r == []
    ensures spec.SingleMetric? ==> |r| == 1 && r[0].name == SINGLE_METRIC_NAME
    ensures spec.MetricDict? ==>
      |r| == |spec.metrics| && forall i :: 0 <= i < |r| ==> r[i].name == spec.metrics[i].name
    ensures forall i, x, tag :: 0 <= i < |r| ==>
      r[i].apply(x, tag) ==
        if target.None? || !ComparesWithTarget(tag) then None
        else if spec.SingleMetric? then spec.compare(target.value, x)
        else spec.metrics[i].compare(target.value, x)
  {
    match spec
    case NoTargetMetric => []
    case SingleMetric(f) => [GatedMetric(SINGLE_METRIC_NAME, Gated(f, target))]
    case MetricDict(ms) =>
      seq(|ms|, i requires 0 <= i < |ms| => GatedMetric(ms[i].name, Gated(ms[i].compare, target)))
  }

  /** Line 45 as written: every lambda closes over the comprehension variable
      `f`, which holds the dict's last callable by the time any lambda runs. */
  function TargetMetricsAsWritten(spec: TargetMetricSpec, target: Option<Column>): (r: seq<GatedMetric>)
    ensures !spec.MetricDict? ==> r == TargetMetrics(spec, target)
    ensures spec.MetricDict? ==> |r| == |spec.metrics|
    ensures spec.MetricDict? ==> forall i :: 0 <= i < |r| ==>
      && r[i].name == TargetMetrics(spec, target)[i].name
      && r[i].apply == TargetMetrics(spec, target)[|r| - 1].apply
  {
    match spec
    case NoTargetMetric => []
    case SingleMetric(f) => [GatedMetric(SINGLE_METRIC_NAME, Gated(f, target))]
    case MetricDict(ms) =>
      if ms == [] then []
      else
        var last := ms[|ms| - 1].compare;
        seq(|ms|, i requires 0 <= i < |ms| => GatedMetric(ms[i].name, Gated(last, target)))
  }

  /** With metrics 'a' (always 0) and 'b' (always 1) and a numeric target, the
      code as written reports 1 under the name 'a'. */
  lemma LateBindingCounterexample(t: Column, x: Column)
    requires !RejectedTargetDtype(t.dtype)
    ensures
      var a := TargetMetric("a", (u: Column, v: Column) => Some(Num(0.0)));
      var b := TargetMetric("b", (u: Column, v: Column) => Some(Num(1.0)));
      var asWritten := TargetMetricsAsWritten(MetricDict([a, b]), Some(t));
      var intended := TargetMetrics(MetricDict([a, b]), Some(t));
      && asWritten[0].name == "a"
      && asWritten[0].apply(x, "float64") == Some(Num(1.0))
      && intended[0].apply(x, "float64") == Some(Num(0.0))
  {
    assert ComparesWithTarget("float64");
  }
}

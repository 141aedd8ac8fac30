/** The data the profiler reads: a frame of named, typed columns over a row
    index, cells that may be missing, and the exceptions a call can raise. */
module Frames {
  import Strings

  datatype Option<+T> = None | Some(value: T)

  /** The Python exceptions `get_data_summary` can raise on its own. */
  datatype Error =
    | KeyError        // `data[target]` with no column of that name
    | AttributeError  // `data[target]` selecting several columns has no `.dtype`
    | TypeError       // rejected target dtype, or `sorted` over values that do not compare
    | ValueError      // `reset_index` onto an existing label, or a duplicated column label
    | IndexError      // `mode().values[0]` on a column without values, or no columns at all
    | NameError       // the unimported `logging` module

  datatype Result<+T> = Ok(value: T) | Err(error: Error)

  /** A non-missing cell value. Python's `1 == 1.0 == True`, so integers, floats
      and booleans are all numbers here; datetimes are ticks. */
  datatype Value = Num(x: real) | Text(s: string) | Stamp(ticks: int)

  /** How a missing cell is stored: numpy float columns hold NaN,
      datetime-like columns NaT, nullable extension dtypes (`Int64`,
      `boolean`, ...) `pd.NA`, and object columns whatever was put in,
      Python's `None` included. `isnull` treats all four alike; `isin` does
      not. */
  datatype Blank = NaN | NoneObject | NaT | NA

  /** A cell of a column or a label of the index. */
  datatype Datum = Present(value: Value) | Missing(blank: Blank)

  /** A column: its label, its dtype as `str(col.dtype)` prints it, and its
      cells. */
  datatype Column = Column(name: string, dtype: string, cells: seq<Datum>)

  /** The row index: an optional name, its dtype string and one label per row. */
  datatype Index = Index(name: Option<string>, dtype: string, labels: seq<Datum>)

  datatype Frame = Frame(columns: seq<Column>, index: Index)

  function Names(columns: seq<Column>): (r: seq<string>)
    ensures |r| == |columns|
    ensures forall i :: 0 <= i < |columns| ==> r[i] == columns[i].name
  {
    if columns == [] then [] else [columns[0].name] + Names(columns[1..])
  }

  /** `col.dropna()`: the values of the non-missing cells, in order. */
  function NonNull(cells: seq<Datum>): (r: seq<Value>)
    ensures |r| <= |cells|
    ensures forall v :: v in r <==> Present(v) in cells
  {
    if cells == [] then []
    else
      assert cells == [cells[0]] + cells[1..];
      (if cells[0].Present? then [cells[0].value] else []) + NonNull(cells[1..])
  }

  /** `col.isnull().sum()`. */
  function NullCount(cells: seq<Datum>): (n: nat)
    ensures n + |NonNull(cells)| == |cells|
    ensures n == 0 <==> forall i :: 0 <= i < |cells| ==> cells[i].Present?
  {
    if cells == [] then 0
    else
      assert forall i :: 1 <= i < |cells| ==> cells[i] == cells[1..][i - 1];
      (if cells[0].Missing? then 1 else 0) + NullCount(cells[1..])
  }

  predicate HasNull(cells: seq<Datum>) {
    exists i :: 0 <= i < |cells| && cells[i].Missing?
  }

  /** Python compares numbers with numbers, strings with strings and
      timestamps with timestamps; `sorted` raises on any other pair. */
  predicate Comparable(a: Value, b: Value) {
    KindRank(a) == KindRank(b)
  }

  function KindRank(v: Value): nat {
    match v
    case Num(_) => 0
    case Text(_) => 1
    case Stamp(_) => 2
  }

  /** Python's `<` on comparable values. Values of different kinds are ranked
      by kind only so that the order is total; `sorted` never sees such a pair. */
  predicate ValueLess(a: Value, b: Value) {
    if KindRank(a) != KindRank(b) then KindRank(a) < KindRank(b)
    else match (a, b)
      case (Num(x), Num(y)) => x < y
      case (Text(s), Text(t)) => Strings.Less(s, t)
      case (Stamp(x), Stamp(y)) => x < y
      case _ => false
  }

  predicate ValueLeq(a: Value, b: Value) {
    !ValueLess(b, a)
  }

  lemma ValueLessTransitive(a: Value, b: Value, c: Value)
    requires ValueLess(a, b) && ValueLess(b, c)
    ensures ValueLess(a, c)
  {
    if a.Text? && b.Text? && c.Text? {
      Strings.LessTransitive(a.s, b.s, c.s);
    }
  }

  lemma ValueLessTrichotomy(a: Value, b: Value)
    ensures a == b || ValueLess(a, b) || ValueLess(b, a)
  {
    if a.Text? && b.Text? {
      Strings.LessTrichotomy(a.s, b.s);
    }
  }

  lemma ValueLessIrreflexive(a: Value)
    ensures !ValueLess(a, a)
  {
    if a.Text? {
      Strings.LessIrreflexive(a.s);
    }
  }

  /** `[f(x) for x in xs]` where `f` may raise: the first entry that raises
      decides the error. */
  function MapResults<A, B>(xs: seq<A>, f: A -> Result<B>): (r: Result<seq<B>>)
    ensures r.Ok? <==> forall i :: 0 <= i < |xs| ==> f(xs[i]).Ok?
    ensures r.Ok? ==> |r.value| == |xs| && forall i :: 0 <= i < |xs| ==> r.value[i] == f(xs[i]).value
    ensures r.Err? ==>
      exists i :: 0 <= i < |xs| && f(xs[i]).Err? && r.error == f(xs[i]).error && forall j :: 0 <= j < i ==> f(xs[j]).Ok?
  {
    if xs == [] then Ok([])
    else
      var head := f(xs[0]);
      if head.Err? then Err(head.error)
      else
        var rest := MapResults(xs[1..], f);
        assert forall i :: 1 <= i < |xs| ==> xs[i] == xs[1..][i - 1];
        if rest.Err? then
          var k :| 0 <= k < |xs| - 1 && f(xs[1..][k]).Err? && rest.error == f(xs[1..][k]).error &&
            forall j :: 0 <= j < k ==> f(xs[1..][j]).Ok?;
          assert f(xs[k + 1]).Err? && forall j :: 0 <= j < k + 1 ==> f(xs[j]).Ok?;
          Err(rest.error)
        else Ok([head.value] + rest.value)
  }
}

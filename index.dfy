/** Whether the row index joins the summary as a column, and under which
    label (pyhandy/datautils.py lines 71-76). */
module IndexNormalizer {
  import opened Frames
  import Strings

  /** The frame's columns after the index step, and whether the first of
      them is the index. */
  datatype Normalized = Normalized(columns: seq<Column>, hasIndex: bool)

  /** The index is summarised unless its dtype string starts with "int"
      (`str(dtype).startswith("int")`) or the caller declined it. */
  predicate IndexIncluded(index: Index, includeIndex: bool) {
    !Strings.StartsWith(index.dtype, "int") && includeIndex
  }

  /** The label `reset_index` gives the index column: its name, or the label
      pandas picks for an unnamed index. */
  function ResetLabel(index: Index, unnamedLabel: string): string {
    if index.name.Some? then index.name.value else unnamedLabel
  }

  /** `data.reset_index().rename(columns={index_name: f"{index_name}*"})`: the
      index becomes the first column, a named one relabelled with a trailing
      '*'. `reset_index` refuses a label that a column already has. An
      unnamed index keeps its reset label, since the rename then looks for a
      column labelled `None`. */
  function NormalizeIndex(data: Frame, includeIndex: bool, unnamedLabel: string): (r: Result<Normalized>)
    ensures r.Err? <==> IndexIncluded(data.index, includeIndex) && ResetLabel(data.index, unnamedLabel) in Names(data.columns)
    ensures r.Err? ==> r.error == ValueError
    ensures r.Ok? ==> r.value.hasIndex == IndexIncluded(data.index, includeIndex)
    ensures r.Ok? && !r.value.hasIndex ==> r.value.columns == data.columns
    ensures r.Ok? && r.value.hasIndex ==>
      && |r.value.columns| == |data.columns| + 1
      && r.value.columns[1..] == data.columns
      && r.value.columns[0].dtype == data.index.dtype
      && r.value.columns[0].cells == data.index.labels
      && r.value.columns[0].name ==
        (if data.index.name.Some? then data.index.name.value + "*" else unnamedLabel)
  {
    if !IndexIncluded(data.index, includeIndex) then Ok(Normalized(data.columns, false))
    else
      var reset := ResetLabel(data.index, unnamedLabel);
      if reset in Names(data.columns) then Err(ValueError)
      else
        var name := if data.index.name.Some? then reset + "*" else reset;
        Ok(Normalized([Column(name, data.index.dtype, data.index.labels)] + data.columns, true))
  }

  /** Line 84: the column count reported leaves the index column out. */
  function ReportedColumns(n: Normalized): (k: int)
    ensures n.hasIndex && |n.columns| >= 1 ==> k == |n.columns| - 1
    ensures !n.hasIndex ==> k == |n.columns|
  {
    |n.columns| - (if n.hasIndex then 1 else 0)
  }

  /** Whatever the index step does, the reported count is the frame's own. */
  lemma ReportedColumnsAreTheFrames(data: Frame, includeIndex: bool, unnamedLabel: string)
    requires NormalizeIndex(data, includeIndex, unnamedLabel).Ok?
    ensures ReportedColumns(NormalizeIndex(data, includeIndex, unnamedLabel).value) == |data.columns|
  {
  }

  /** An index whose dtype string starts with "int" is never summarised: a
      signed integer index such as the default range index ('int64'), but
      also an interval index ('interval[int64, right]'). */
  lemma IntPrefixedIndexLeftOut(index: Index, includeIndex: bool, suffix: string)
    requires index.dtype == "int" + suffix
    ensures !IndexIncluded(index, includeIndex)
  {
    assert index.dtype[..|"int"|] == "int";
  }

  /** An unsigned integer index ('uint64') does not start with "int", so it
      is summarised when the caller asks for it. */
  lemma UnsignedIndexIncluded(index: Index)
    requires index.dtype == "uint64"
    ensures IndexIncluded(index, true)
  {
    assert index.dtype[0] == 'u' && "int"[0] == 'i';
    assert index.dtype[..3][0] != "int"[0];
  }
}

/** The type tag of a column (pyhandy/datautils.py line 78): 'binary' when
    `col.isin([0, 1, np.nan]).all()`, the dtype string otherwise. */
module TypeClassifier {
  import opened Frames
  import Strings

  const BINARY := "binary"

  /** Datetime-like dtypes ('datetime64[ns]', 'datetime64[ns, UTC]',
      'timedelta64[ns]', 'period[D]'): pandas finds none of their cells,
      NaT included, in a list of numbers. */
  predicate DatetimeLike(dtype: string) {
    Strings.Contains(dtype, "datetime") || Strings.Contains(dtype, "timedelta") || Strings.StartsWith(dtype, "period")
  }

  /** `isin([0, 1, np.nan])` for one cell of a column of the given dtype: 0
      and 1 match, and a missing cell matches only when it is stored as NaN.
      A category column keeps its missing cells as code -1, which `isin`
      matches to NaN however they were spelled. */
  predicate BinaryCell(dtype: string, c: Datum) {
    && !DatetimeLike(dtype)
    && match c
       case Present(v) => v == Num(0.0) || v == Num(1.0)
       case Missing(blank) => blank == NaN || dtype == "category"
  }

  function TypeTag(col: Column): string {
    if forall i :: 0 <= i < |col.cells| ==> BinaryCell(col.dtype, col.cells[i]) then BINARY else col.dtype
  }

  /** Every missing cell of the column matches NaN. */
  predicate BlanksMatchNaN(col: Column) {
    col.dtype == "category" || forall i :: 0 <= i < |col.cells| && col.cells[i].Missing? ==> col.cells[i].blank == NaN
  }

  /** The column's dtype is not datetime-like, its values lie in {0, 1} and
      its missing cells match NaN. */
  predicate ValuesWithin01(col: Column) {
    && !DatetimeLike(col.dtype)
    && (forall v :: v in NonNull(col.cells) ==> v == Num(0.0) || v == Num(1.0))
    && BlanksMatchNaN(col)
  }

  /** The tag is 'binary' exactly when the column has no rows, or when its
      dtype is not datetime-like, its values lie in {0, 1} and its missing
      cells match NaN; otherwise it is the dtype. */
  lemma BinaryExactlyWhenValuesWithin01(col: Column)
    requires col.dtype != BINARY
    ensures TypeTag(col) == BINARY <==> col.cells == [] || ValuesWithin01(col)
    ensures TypeTag(col) != BINARY ==> TypeTag(col) == col.dtype
  {
    if ValuesWithin01(col) {
      CellsMatch(col);
    }
    if TypeTag(col) == BINARY && col.cells != [] {
      MatchingCells(col);
    }
  }

  lemma CellsMatch(col: Column)
    requires ValuesWithin01(col)
    ensures forall i :: 0 <= i < |col.cells| ==> BinaryCell(col.dtype, col.cells[i])
  {
    forall i | 0 <= i < |col.cells| ensures BinaryCell(col.dtype, col.cells[i]) {
      if col.cells[i].Present? {
        assert col.cells[i].value in NonNull(col.cells);
      }
    }
  }

  lemma MatchingCells(col: Column)
    requires col.cells != []
    requires forall i :: 0 <= i < |col.cells| ==> BinaryCell(col.dtype, col.cells[i])
    ensures ValuesWithin01(col)
  {
    assert BinaryCell(col.dtype, col.cells[0]);
    forall v | v in NonNull(col.cells) ensures v == Num(0.0) || v == Num(1.0) {
      assert Present(v) in col.cells;
      var i :| 0 <= i < |col.cells| && col.cells[i] == Present(v);
      assert BinaryCell(col.dtype, col.cells[i]);
    }
  }

  /** A column without values (no rows, or only missing cells) is tagged
      'binary' when it has no rows, or when its dtype is not datetime-like and
      its missing cells match NaN; otherwise it keeps its dtype. So an all-NaN
      float column is binary, but a non-empty all-NaT datetime column or an
      all-`None` object column is not. */
  lemma ColumnWithoutValuesIsBinary(col: Column)
    requires NonNull(col.cells) == []
    ensures col.cells == [] || (!DatetimeLike(col.dtype) && BlanksMatchNaN(col)) ==> TypeTag(col) == BINARY
    ensures !(col.cells == [] || (!DatetimeLike(col.dtype) && BlanksMatchNaN(col))) ==> TypeTag(col) == col.dtype
  {
    forall i | 0 <= i < |col.cells| ensures col.cells[i].Missing? {
      assert col.cells[i] in col.cells;
    }
  }

  /** A datetime-like column with at least one row keeps its dtype as its
      tag, even when every cell is NaT. */
  lemma DatetimeColumnKeepsDtype(col: Column)
    requires DatetimeLike(col.dtype) && col.cells != []
    ensures TypeTag(col) == col.dtype
  {
    assert !BinaryCell(col.dtype, col.cells[0]);
  }

  /** An object column holding 0, 1 and Python's `None` is not binary. */
  lemma ObjectNoneNotBinary(name: string)
    ensures TypeTag(Column(name, "object", [Present(Num(0.0)), Present(Num(1.0)), Missing(NoneObject)])) == "object"
  {
    var col := Column(name, "object", [Present(Num(0.0)), Present(Num(1.0)), Missing(NoneObject)]);
    assert !BinaryCell(col.dtype, col.cells[2]);
  }

  /** The groups of tags that the tests of lines 58-67 treat alike. */
  datatype Category = Numeric | Binary | Categorical | Temporal

  function CategoryOf(tag: string): Category {
    if tag == BINARY then Binary
    else if tag == "category" || tag == "object" then Categorical
    else if Strings.Contains(tag, "datetime") then Temporal
    else Numeric
  }
}

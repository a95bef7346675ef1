/** The in-memory table (a pandas DataFrame) and the column operations the
    cleaning pipeline applies to it: reading a column out as a series,
    fillna, to_numeric, median, str.lower, and assigning a series back. */
module Frames {
  import opened Wrappers
  import opened Numeric
  import opened Text
  import opened Duplicates

  /** A non-empty spreadsheet cell: a number or a piece of text. */
  datatype Cell = Num(x: real) | Str(s: string)

  /** A cell that may be null (NaN in pandas). */
  type Value = Option<Cell>

  /** One row: every column name to its cell. */
  type Row = map<string, Value>

  datatype Frame = Frame(columns: seq<string>, rows: seq<Row>)

  /** The exceptions pandas raises on the pipeline's own steps. */
  datatype Error =
    | NoObjectsToConcatenate  // pd.concat over an empty list (ValueError)
    | MedianOfText            // Series.median over text that does not convert (TypeError)
    | StrAccessorOnNumbers    // .str on a column holding only numbers (AttributeError)

  function ColumnSet(cols: seq<string>): set<string> {
    set c | c in cols
  }

  /** Every row has exactly the frame's columns, each named once. */
  predicate WellFormed(f: Frame) {
    && Distinct(f.columns)
    && forall i | 0 <= i < |f.rows| :: f.rows[i].Keys == ColumnSet(f.columns)
  }

  /** The cell of row r in column c, null when the row has no such column. */
  function At(r: Row, c: string): Value {
    if c in r then r[c] else None
  }

  /** df[c]: the column read out as a series, one value per row. */
  function Column(f: Frame, c: string): (col: seq<Value>)
    ensures |col| == |f.rows|
  {
    seq(|f.rows|, i requires 0 <= i < |f.rows| => At(f.rows[i], c))
  }

  /** df[c] = col: the series written back as column c. */
  function SetColumn(f: Frame, c: string, col: seq<Value>): (g: Frame)
    requires c in f.columns && |col| == |f.rows|
    ensures g.columns == f.columns && |g.rows| == |f.rows|
    ensures Column(g, c) == col
    ensures forall i | 0 <= i < |f.rows| :: g.rows[i] - {c} == f.rows[i] - {c}
    ensures WellFormed(f) ==> WellFormed(g)
  {
    Frame(f.columns, seq(|f.rows|, i requires 0 <= i < |f.rows| => f.rows[i][c := col[i]]))
  }

  /** Writing a column back as read changes nothing. */
  lemma SetColumnSame(f: Frame, c: string)
    requires c in f.columns
    ensures WellFormed(f) ==> SetColumn(f, c, Column(f, c)) == f
  {
    if WellFormed(f) {
      var g := SetColumn(f, c, Column(f, c));
      forall i | 0 <= i < |f.rows|
        ensures g.rows[i] == f.rows[i]
      {
        assert c in f.rows[i];
        assert Column(f, c)[i] == f.rows[i][c];
      }
    }
  }

  /** g differs from f at most in column c: same columns, same number of
      rows, and every other cell of every row unchanged. */
  predicate SameOutside(f: Frame, g: Frame, c: string) {
    && g.columns == f.columns
    && |g.rows| == |f.rows|
    && forall i | 0 <= i < |f.rows| :: g.rows[i] - {c} == f.rows[i] - {c}
  }

  /** Two frames that differ at most in column c agree on every other column. */
  lemma SameOutsideColumn(f: Frame, g: Frame, c: string, d: string)
    requires SameOutside(f, g, c) && d != c
    ensures Column(g, d) == Column(f, d)
  {
    forall i | 0 <= i < |f.rows|
      ensures Column(g, d)[i] == Column(f, d)[i]
    {
      assert d in g.rows[i] <==> d in (g.rows[i] - {c});
      assert d in f.rows[i] <==> d in (f.rows[i] - {c});
      if d in g.rows[i] {
        assert g.rows[i][d] == (g.rows[i] - {c})[d];
        assert f.rows[i][d] == (f.rows[i] - {c})[d];
      }
    }
  }

  predicate NoNulls(col: seq<Value>) {
    forall i | 0 <= i < |col| :: col[i].Some?
  }

  predicate SomeValue(col: seq<Value>) {
    exists i | 0 <= i < |col| :: col[i].Some?
  }

  // ---------------------------------------------------------------------
  // fillna
  // ---------------------------------------------------------------------

  /** Series.fillna(v): every null becomes v (a null v, pandas' NaN, fills
      nothing); every other value stays. */
  function FillNa(col: seq<Value>, v: Value): (r: seq<Value>)
    ensures |r| == |col|
    ensures forall i | 0 <= i < |col| && col[i].Some? :: r[i] == col[i]
    ensures forall i | 0 <= i < |col| && col[i].None? :: r[i] == v
    ensures v.Some? ==> NoNulls(r)
  {
    seq(|col|, i requires 0 <= i < |col| => if col[i].None? then v else col[i])
  }

  /** df[c] = df[c].fillna(v) for a column c the frame has. */
  function FillColumn(df: Frame, c: string, v: Value): (g: Frame)
    requires c in df.columns
    ensures SameOutside(df, g, c)
    ensures Column(g, c) == FillNa(Column(df, c), v)
    ensures WellFormed(df) ==> WellFormed(g)
    ensures WellFormed(df) && v.None? ==> g == df
  {
    var col := Column(df, c);
    if v.None? then
      assert FillNa(col, v) == col;
      SetColumnSame(df, c);
      SetColumn(df, c, FillNa(col, v))
    else
      SetColumn(df, c, FillNa(col, v))
  }

  /** The fill value for a median: the number, or NaN when there is none. */
  function NumOrNull(m: Option<real>): Value {
    if m.Some? then Some(Num(m.value)) else None
  }

  // ---------------------------------------------------------------------
  // Conversion to numbers and the median
  // ---------------------------------------------------------------------

  /** The number a cell converts to, as numpy's float conversion and
      to_numeric read it; None for text that is not a number. */
  function AsNumber(v: Cell): Option<real> {
    match v
    case Num(x) => Some(x)
    case Str(s) => ParseNumber(s)
  }

  /** Some non-null value does not convert to a number. */
  predicate HasUnconvertible(col: seq<Value>) {
    exists i | 0 <= i < |col| :: col[i].Some? && AsNumber(col[i].value).None?
  }

  /** The numbers of the non-null values that convert, in order. */
  function Converted(col: seq<Value>): (xs: seq<real>)
    ensures |xs| <= |col|
    ensures xs == [] <==> forall i | 0 <= i < |col| :: col[i].None? || AsNumber(col[i].value).None?
  {
    if col == [] then []
    else
      var head := if col[0].Some? && AsNumber(col[0].value).Some? then [AsNumber(col[0].value).value] else [];
      head + Converted(col[1..])
  }

  /** Series.median on a column as read: every non-null value is converted to
      a number first and text that does not convert raises TypeError; nulls
      are skipped, and no values at all give NaN. */
  function MedianAsRead(col: seq<Value>): (r: Result<Option<real>, Error>)
    ensures r.Err? <==> HasUnconvertible(col)
    ensures r.Err? ==> r.error == MedianOfText
    ensures r.Ok? ==> (r.value.None? <==> !SomeValue(col))
    ensures r.Ok? ==> r.value == Median(Converted(col))
  {
    if HasUnconvertible(col) then Err(MedianOfText) else Ok(Median(Converted(col)))
  }

  /** pd.to_numeric(col, errors='coerce'): values that convert become numbers,
      the others become null. The result holds numbers and nulls only, is
      null exactly where the input is null or does not convert, and holds
      the same numbers as the input. */
  function ToNumeric(col: seq<Value>): (r: seq<Value>)
    ensures |r| == |col|
    ensures forall i | 0 <= i < |col| :: r[i].Some? ==> r[i].value.Num?
    ensures forall i | 0 <= i < |col| :: r[i].None? <==> col[i].None? || AsNumber(col[i].value).None?
    ensures forall i | 0 <= i < |col| && r[i].Some? :: AsNumber(col[i].value) == Some(r[i].value.x)
    ensures !HasUnconvertible(r)
    ensures Converted(r) == Converted(col)
  {
    var r := seq(|col|, i requires 0 <= i < |col| =>
      if col[i].Some? && AsNumber(col[i].value).Some? then Some(Num(AsNumber(col[i].value).value)) else None);
    ConvertedCoerced(col, r);
    r
  }

  /** A column of numbers and nulls that keeps the number of every value
      that converts, and nulls the rest, holds the same numbers. */
  lemma {:induction false} ConvertedCoerced(col: seq<Value>, r: seq<Value>)
    requires |r| == |col|
    requires forall i | 0 <= i < |col| ::
      r[i] == if col[i].Some? && AsNumber(col[i].value).Some? then Some(Num(AsNumber(col[i].value).value)) else None
    ensures Converted(r) == Converted(col)
  {
    if col != [] {
      ConvertedCoerced(col[1..], r[1..]);
    }
  }

  /** Coercing a coerced column changes nothing. */
  lemma ToNumericIdempotent(col: seq<Value>)
    ensures ToNumeric(ToNumeric(col)) == ToNumeric(col)
  {
    var r := ToNumeric(col);
    var t := ToNumeric(r);
    forall i | 0 <= i < |col|
      ensures t[i] == r[i]
    {
      if r[i].Some? {
        assert AsNumber(r[i].value) == Some(r[i].value.x);
      }
    }
  }

  // ---------------------------------------------------------------------
  // str.lower
  // ---------------------------------------------------------------------

  /** The .str accessor refuses a series whose values are all numbers. */
  predicate OnlyNumbers(col: seq<Value>) {
    && SomeValue(col)
    && forall i | 0 <= i < |col| :: col[i].Some? ==> col[i].value.Num?
  }

  /** Every value of the series is null or lower-case text. */
  predicate LowerText(col: seq<Value>) {
    forall i | 0 <= i < |col| :: col[i].Some? ==> col[i].value.Str? && IsLower(col[i].value.s)
  }

  /** Series.str.lower(): text is lower-cased, numbers become null (they are
      not text), nulls stay null; AttributeError when there is no text at all
      but some number. What comes out is lower-case text exactly where the
      input was text, and null everywhere else. */
  function StrLower(col: seq<Value>): (r: Result<seq<Value>, Error>)
    ensures r.Err? <==> SomeValue(col) && forall i | 0 <= i < |col| && col[i].Some? :: col[i].value.Num?
    ensures r.Err? ==> r.error == StrAccessorOnNumbers
    ensures r.Ok? ==> |r.value| == |col|
    ensures r.Ok? ==> LowerText(r.value)
    ensures r.Ok? ==> forall i | 0 <= i < |col| :: r.value[i].None? <==> col[i].None? || col[i].value.Num?
    ensures r.Ok? ==> forall i | 0 <= i < |col| && col[i].Some? && col[i].value.Str? ::
      r.value[i].value.s == Lower(col[i].value.s)
  {
    if OnlyNumbers(col) then Err(StrAccessorOnNumbers)
    else Ok(seq(|col|, i requires 0 <= i < |col| =>
      if col[i].Some? && col[i].value.Str? then Some(Str(Lower(col[i].value.s))) else None))
  }

  /** After str.lower every value is null or lower-case text, and lower-casing
      again neither fails nor changes anything. */
  lemma StrLowerIdempotent(col: seq<Value>)
    requires StrLower(col).Ok?
    ensures LowerText(StrLower(col).value)
    ensures StrLower(StrLower(col).value) == StrLower(col)
  {
    var once := StrLower(col).value;
    forall i | 0 <= i < |col| && once[i].Some?
      ensures once[i].value.Str? && IsLower(once[i].value.s)
    {
    }
    assert !OnlyNumbers(once);
    var twice := StrLower(once).value;
    forall i | 0 <= i < |col|
      ensures twice[i] == once[i]
    {
      if once[i].Some? {
        LowerKeepsLower(once[i].value.s);
      }
    }
    assert twice == once;
  }
}

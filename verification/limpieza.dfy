/** The cleaning stages of cargar_y_limpiar_datos, each guarded by a check
    that its column is present, and the function itself: consolidation of
    the workbook followed by the stages in the order the source runs them. */
module Limpieza {
  import opened Wrappers
  import opened Numeric
  import opened Text
  import opened Duplicates
  import opened Frames
  import opened Consolidation

  const Salario: string := "salario"
  const Pregunta: string := "pregunta_abierta_1"
  const Sector: string := "sector_empresa"

  // ---------------------------------------------------------------------
  // Step 1: null filling
  // ---------------------------------------------------------------------

  /** The salary median of step 1 and the refill with it: an error when some
      salary does not convert to a number; otherwise every null salary takes
      the median of the salaries, every other salary and every other column
      stays, and a column with no salary at all is left as it is. */
  function FillSalario(df: Frame): (r: Result<Frame, Error>)
    ensures Salario !in df.columns ==> r == Ok(df)
    ensures r.Err? <==> Salario in df.columns && HasUnconvertible(Column(df, Salario))
    ensures r.Err? ==> r.error == MedianOfText
    ensures r.Ok? ==> SameOutside(df, r.value, Salario)
    ensures r.Ok? && WellFormed(df) ==> WellFormed(r.value)
    ensures r.Ok? ==> var col := Column(df, Salario);
      forall i | 0 <= i < |col| && col[i].Some? :: Column(r.value, Salario)[i] == col[i]
    ensures r.Ok? && Salario in df.columns ==> var col := Column(df, Salario);
      forall i | 0 <= i < |col| && col[i].None? ::
        Column(r.value, Salario)[i] == NumOrNull(Median(Converted(col)))
    ensures r.Ok? && Salario in df.columns && SomeValue(Column(df, Salario)) ==> NoNulls(Column(r.value, Salario))
    ensures r.Ok? && WellFormed(df) && !SomeValue(Column(df, Salario)) ==> r.value == df
  {
    if Salario !in df.columns then Ok(df)
    else
      match MedianAsRead(Column(df, Salario))
      case Err(e) => Err(e)
      case Ok(m) => Ok(FillColumn(df, Salario, NumOrNull(m)))
  }

  /** A text fill, df[c] = df[c].fillna(text), guarded by c being present:
      every null of c becomes the text, everything else stays. */
  function FillText(df: Frame, c: string, text: string): (g: Frame)
    ensures c !in df.columns ==> g == df
    ensures SameOutside(df, g, c)
    ensures WellFormed(df) ==> WellFormed(g)
    ensures var col := Column(df, c);
      forall i | 0 <= i < |col| && col[i].Some? :: Column(g, c)[i] == col[i]
    ensures c in df.columns ==> var col := Column(df, c);
      forall i | 0 <= i < |col| && col[i].None? :: Column(g, c)[i] == Some(Str(text))
    ensures c in df.columns ==> NoNulls(Column(g, c))
  {
    if c in df.columns then FillColumn(df, c, Some(Str(text))) else df
  }

  /** Free-text answers: nulls become the empty text. */
  function FillPregunta(df: Frame): Frame {
    FillText(df, Pregunta, "")
  }

  /** The company sector: nulls become the category "Desconocido". */
  function FillSector(df: Frame): Frame {
    FillText(df, Sector, "Desconocido")
  }

  // ---------------------------------------------------------------------
  // Step 2: numeric coercion of the salary
  // ---------------------------------------------------------------------

  /** to_numeric(errors='coerce') on the salary, then a second median and
      refill. The second median never fails, since the coerced column holds
      only numbers and nulls. A salary that converts keeps its number;
      nulls and text that does not convert end up as the median of the
      salaries that convert; so every salary is a number as soon as one of
      them converts, and none is otherwise. */
  function CoerceSalario(df: Frame): (r: Result<Frame, Error>)
    ensures r.Ok?
    ensures Salario !in df.columns ==> r.value == df
    ensures SameOutside(df, r.value, Salario)
    ensures WellFormed(df) ==> WellFormed(r.value)
    ensures Salario in df.columns ==> var col := Column(df, Salario);
      forall i | 0 <= i < |col| && col[i].Some? && AsNumber(col[i].value).Some? ::
        Column(r.value, Salario)[i] == Some(Num(AsNumber(col[i].value).value))
    ensures Salario in df.columns ==> var col := Column(df, Salario);
      forall i | 0 <= i < |col| && (col[i].None? || AsNumber(col[i].value).None?) ::
        Column(r.value, Salario)[i] == NumOrNull(Median(Converted(col)))
    ensures Salario in df.columns && Converted(Column(df, Salario)) != [] ==>
      forall i | 0 <= i < |df.rows| :: Column(r.value, Salario)[i].Some? && Column(r.value, Salario)[i].value.Num?
    ensures Salario in df.columns && Converted(Column(df, Salario)) == [] ==>
      forall i | 0 <= i < |df.rows| :: Column(r.value, Salario)[i].None?
  {
    if Salario !in df.columns then Ok(df)
    else
      var col := Column(df, Salario);
      var g := SetColumn(df, Salario, ToNumeric(col));
      CoercedMedian(col);
      match MedianAsRead(Column(g, Salario))
      case Err(e) => Err(e)
      case Ok(m) =>
        CoercedRefillValues(col);
        CoercedRefillNumeric(col);
        Ok(FillColumn(g, Salario, NumOrNull(m)))
  }

  /** The coerced column holds numbers and nulls only, so its median does not
      fail, and it is the median of the values that convert. */
  lemma CoercedMedian(col: seq<Value>)
    ensures MedianAsRead(ToNumeric(col)) == Ok(Median(Converted(col)))
  {
  }

  /** The coerced column refilled with its median: what converts keeps its
      number, and nulls and text that does not convert take the median. */
  lemma CoercedRefillValues(col: seq<Value>)
    ensures var out := FillNa(ToNumeric(col), NumOrNull(Median(Converted(col))));
      forall i | 0 <= i < |col| && col[i].Some? && AsNumber(col[i].value).Some? ::
        out[i] == Some(Num(AsNumber(col[i].value).value))
    ensures var out := FillNa(ToNumeric(col), NumOrNull(Median(Converted(col))));
      forall i | 0 <= i < |col| && (col[i].None? || AsNumber(col[i].value).None?) ::
        out[i] == NumOrNull(Median(Converted(col)))
  {
  }

  /** The coerced and refilled column is all numbers when some value
      converts, and all nulls otherwise. */
  lemma CoercedRefillNumeric(col: seq<Value>)
    ensures var out := FillNa(ToNumeric(col), NumOrNull(Median(Converted(col))));
      Converted(col) != [] ==> forall i | 0 <= i < |col| :: out[i].Some? && out[i].value.Num?
    ensures var out := FillNa(ToNumeric(col), NumOrNull(Median(Converted(col))));
      Converted(col) == [] ==> forall i | 0 <= i < |col| :: out[i].None?
  {
    var t := ToNumeric(col);
    if Converted(col) != [] {
      assert NumOrNull(Median(Converted(col))).Some?;
    } else {
      forall i | 0 <= i < |col|
        ensures t[i].None?
      {
        assert col[i].None? || AsNumber(col[i].value).None?;
      }
    }
  }

  // ---------------------------------------------------------------------
  // Step 3: duplicates
  // ---------------------------------------------------------------------

  /** df.duplicated().sum() and, when positive, drop_duplicates(): the rows
      that repeat an earlier row (every cell equal, two nulls counting as
      equal) are removed, the first occurrences stay in their order. */
  function Deduplicate(df: Frame): (g: Frame)
    ensures g.columns == df.columns
    ensures Distinct(g.rows)
    ensures |g.rows| == |df.rows| - CountDuplicated(df.rows)
    ensures g.rows == DropDuplicates(df.rows)
    ensures forall k | 0 <= k < |g.rows| :: g.rows[k] in df.rows
    ensures forall k | 0 <= k < |df.rows| :: df.rows[k] in g.rows
    ensures WellFormed(df) ==> WellFormed(g)
  {
    DropDuplicatesCount(df.rows);
    var duplicados := CountDuplicated(df.rows);
    if duplicados > 0 then Frame(df.columns, DropDuplicates(df.rows))
    else
      NothingFlaggedNothingDropped(df.rows);
      df
  }

  // ---------------------------------------------------------------------
  // Step 4: lower-casing the sector
  // ---------------------------------------------------------------------

  /** df[c] = df[c].str.lower() for the sector: text is lower-cased, a number
      becomes null, and a sector column with numbers only is an error. */
  function LowerSector(df: Frame): (r: Result<Frame, Error>)
    ensures Sector !in df.columns ==> r == Ok(df)
    ensures r.Err? <==> Sector in df.columns && OnlyNumbers(Column(df, Sector))
    ensures r.Err? ==> r.error == StrAccessorOnNumbers
    ensures r.Ok? ==> SameOutside(df, r.value, Sector)
    ensures r.Ok? && WellFormed(df) ==> WellFormed(r.value)
    ensures r.Ok? && Sector in df.columns ==> LowerText(Column(r.value, Sector))
    ensures r.Ok? && Sector in df.columns ==> var col := Column(df, Sector);
      forall i | 0 <= i < |col| ::
        Column(r.value, Sector)[i] == if col[i].Some? && col[i].value.Str? then Some(Str(Lower(col[i].value.s))) else None
  {
    if Sector !in df.columns then Ok(df)
    else
      match StrLower(Column(df, Sector))
      case Err(e) => Err(e)
      case Ok(col) => Ok(SetColumn(df, Sector, col))
  }

  // ---------------------------------------------------------------------
  // Properties of the stages
  // ---------------------------------------------------------------------

  /** The kept rows are the first occurrences, in the order of the input. */
  lemma DeduplicateKeepsFirstOrder(df: Frame)
    ensures var g := Deduplicate(df);
      forall a, b | 0 <= a < b < |g.rows| :: FirstIndex(df.rows, g.rows[a]) < FirstIndex(df.rows, g.rows[b])
  {
    DropDuplicatesKeepsFirstOrder(df.rows);
  }

  /** Deduplicating twice removes nothing more. */
  lemma DeduplicateIdempotent(df: Frame)
    ensures Deduplicate(Deduplicate(df)) == Deduplicate(df)
  {
    DistinctUnchanged(Deduplicate(df).rows);
  }

  /** Deduplication neither invents nor loses a value of any column. */
  lemma DeduplicateColumn(df: Frame, d: string)
    ensures var g := Deduplicate(df);
      forall k | 0 <= k < |g.rows| :: Column(g, d)[k] in Column(df, d)
    ensures var g := Deduplicate(df);
      forall i | 0 <= i < |df.rows| :: Column(df, d)[i] in Column(g, d)
  {
    var g := Deduplicate(df);
    forall k | 0 <= k < |g.rows|
      ensures Column(g, d)[k] in Column(df, d)
    {
      var i :| 0 <= i < |df.rows| && df.rows[i] == g.rows[k];
      assert Column(df, d)[i] == Column(g, d)[k];
    }
    forall i | 0 <= i < |df.rows|
      ensures Column(df, d)[i] in Column(g, d)
    {
      var k :| 0 <= k < |g.rows| && g.rows[k] == df.rows[i];
      assert Column(g, d)[k] == Column(df, d)[i];
    }
  }

  /** A column whose values are all numbers keeps only numbers through
      deduplication, and one that is all null stays all null. */
  lemma DeduplicateKeepsKind(df: Frame, d: string)
    ensures (forall i | 0 <= i < |df.rows| :: Column(df, d)[i].Some? && Column(df, d)[i].value.Num?) ==>
      forall k | 0 <= k < |Deduplicate(df).rows| :: Column(Deduplicate(df), d)[k].Some? && Column(Deduplicate(df), d)[k].value.Num?
    ensures (forall i | 0 <= i < |df.rows| :: Column(df, d)[i].None?) ==>
      forall k | 0 <= k < |Deduplicate(df).rows| :: Column(Deduplicate(df), d)[k].None?
    ensures NoNulls(Column(df, d)) ==> NoNulls(Column(Deduplicate(df), d))
  {
    var g := Deduplicate(df);
    forall k | 0 <= k < |g.rows|
      ensures exists i | 0 <= i < |df.rows| :: Column(g, d)[k] == Column(df, d)[i]
    {
      var i :| 0 <= i < |df.rows| && df.rows[i] == g.rows[k];
      assert Column(df, d)[i] == Column(g, d)[k];
    }
  }

  /** Deduplication neither makes nor unmakes a column of numbers only. */
  lemma DeduplicateOnlyNumbers(df: Frame, d: string)
    ensures OnlyNumbers(Column(Deduplicate(df), d)) <==> OnlyNumbers(Column(df, d))
  {
    DeduplicateColumn(df, d);
    OnlyNumbersSameValues(Column(Deduplicate(df), d), Column(df, d));
  }

  /** Lower-casing the sector a second time changes nothing. */
  lemma LowerSectorIdempotent(df: Frame)
    requires WellFormed(df) && LowerSector(df).Ok?
    ensures LowerSector(LowerSector(df).value) == LowerSector(df)
  {
    if Sector in df.columns {
      var col := Column(df, Sector);
      StrLowerIdempotent(col);
      var g := LowerSector(df).value;
      assert Column(g, Sector) == StrLower(col).value;
      SetColumnSame(g, Sector);
    }
  }

  /** After the salary fill some salary converts exactly when the column had
      any value at all. */
  lemma FillSalarioConverted(df: Frame)
    requires WellFormed(df) && Salario in df.columns && FillSalario(df).Ok?
    ensures Converted(Column(FillSalario(df).value, Salario)) != [] <==> SomeValue(Column(df, Salario))
  {
    var col := Column(df, Salario);
    var out := Column(FillSalario(df).value, Salario);
    if SomeValue(col) {
      var i :| 0 <= i < |col| && col[i].Some?;
      assert out[i] == col[i];
      assert AsNumber(col[i].value).Some?;
    }
  }

  /** After the sector fill the sector column holds numbers only exactly when
      the table has rows and every sector in it was a number. */
  lemma FillSectorOnlyNumbers(df: Frame)
    requires Sector in df.columns
    ensures OnlyNumbers(Column(FillSector(df), Sector)) <==>
      df.rows != [] && forall i | 0 <= i < |df.rows| :: Column(df, Sector)[i].Some? && Column(df, Sector)[i].value.Num?
  {
    var col := Column(df, Sector);
    var out := Column(FillSector(df), Sector);
    if df.rows != [] {
      assert out[0].Some?;
    }
    if OnlyNumbers(out) {
      forall i | 0 <= i < |df.rows|
        ensures col[i].Some? && col[i].value.Num?
      {
        assert out[i].Some? && out[i].value.Num?;
      }
    }
  }

  /** Two columns holding the same values, each value of one found in the
      other, agree on holding numbers only. */
  lemma OnlyNumbersSameValues(a: seq<Value>, b: seq<Value>)
    requires forall k | 0 <= k < |a| :: a[k] in b
    requires forall i | 0 <= i < |b| :: b[i] in a
    ensures OnlyNumbers(a) <==> OnlyNumbers(b)
  {
    if SomeValue(a) {
      var k :| 0 <= k < |a| && a[k].Some?;
      var i :| 0 <= i < |b| && b[i] == a[k];
    }
    if SomeValue(b) {
      var i :| 0 <= i < |b| && b[i].Some?;
      var k :| 0 <= k < |a| && a[k] == b[i];
    }
    if OnlyNumbers(b) {
      forall k | 0 <= k < |a| && a[k].Some?
        ensures a[k].value.Num?
      {
        var i :| 0 <= i < |b| && b[i] == a[k];
      }
    }
    if OnlyNumbers(a) {
      forall i | 0 <= i < |b| && b[i].Some?
        ensures b[i].value.Num?
      {
        var k :| 0 <= k < |a| && a[k] == b[i];
      }
    }
  }

  // ---------------------------------------------------------------------
  // The steps chained in source order
  // ---------------------------------------------------------------------

  /** Steps 1 and 2 on the consolidated table: the salary fill, the two text
      fills, then the salary coercion. */
  function Rellenado(c: Frame): (r: Result<Frame, Error>)
    ensures r.Err? <==> SalarioFails(c)
    ensures r.Err? ==> r.error == MedianOfText
    ensures r.Ok? ==> r.value.columns == c.columns && |r.value.rows| == |c.rows|
    ensures r.Ok? && WellFormed(c) ==> WellFormed(r.value)
  {
    match FillSalario(c)
    case Err(e) => Err(e)
    case Ok(s1) => CoerceSalario(FillSector(FillPregunta(s1)))
  }

  /** The four steps on the consolidated table, in source order: it fails on
      a salary that does not convert and then on sectors that are all
      numbers; otherwise its rows are the rows kept by deduplicating the
      filled and coerced table, each changed in the sector alone. */
  function Limpiar(c: Frame): (r: Result<Frame, Error>)
    ensures r.Err? <==> SalarioFails(c) || SectorAllNumbers(c)
    ensures r.Err? ==> r.error == if SalarioFails(c) then MedianOfText else StrAccessorOnNumbers
    ensures r.Ok? ==> var s4 := Rellenado(c).value;
      && r.value.columns == c.columns
      && |r.value.rows| == |DropDuplicates(s4.rows)| == |c.rows| - CountDuplicated(s4.rows)
      && forall k | 0 <= k < |r.value.rows| :: r.value.rows[k] - {Sector} == DropDuplicates(s4.rows)[k] - {Sector}
  {
    match Rellenado(c)
    case Err(e) => Err(e)
    case Ok(s4) =>
      var s1 := FillSalario(c).value;
      var s5 := Deduplicate(s4);
      SectorStage(c, s1, FillPregunta(s1), FillSector(FillPregunta(s1)), s4, s5);
      LowerSector(s5)
  }

  // ---------------------------------------------------------------------
  // The pipeline
  // ---------------------------------------------------------------------

  /** Part 1: every sheet, in workbook order, gets its name in the
      provenance column and goes into a list, and the list is concatenated. */
  method Consolidar(book: Workbook) returns (r: Result<Frame, Error>)
    ensures r == Consolidated(book)
  {
    var listaDfs: seq<Frame> := [];
    var i := 0;
    while i < |book|
      invariant 0 <= i <= |book|
      invariant listaDfs == Tagged(book[..i])
    {
      var dfHoja := WithSource(book[i].name, book[i].table);
      listaDfs := listaDfs + [dfHoja];
      assert book[..i + 1][..i] == book[..i];
      i := i + 1;
    }
    assert book[..i] == book;
    r := ConcatFrames(listaDfs);
  }

  /** The salary median of step 1 fails on the consolidated table. */
  predicate SalarioFails(c: Frame) {
    Salario in c.columns && HasUnconvertible(Column(c, Salario))
  }

  /** The sector lower-casing of step 4 fails on the consolidated table: it
      has rows and every sector in it is a number. */
  predicate SectorAllNumbers(c: Frame) {
    && Sector in c.columns
    && c.rows != []
    && forall i | 0 <= i < |c.rows| :: Column(c, Sector)[i].Some? && Column(c, Sector)[i].value.Num?
  }

  /** What the cleaned table df promises about the consolidation of book:
      the same columns, well formed, no more rows than the sheets hold, and
      the same sheet names in the provenance column; every salary a number
      when the salary column had any value (all null otherwise); no null
      free-text answer; every sector lower-case text or null. */
  predicate Cleaned(book: Workbook, df: Frame) {
    && book != []
    && var c := Consolidated(book).value;
    && df.columns == c.columns
    && WellFormed(df)
    && |df.rows| <= SheetRows(book)
    && (forall k | 0 <= k < |df.rows| :: Column(df, Fuente)[k] in Column(c, Fuente))
    && (forall i | 0 <= i < |c.rows| :: Column(c, Fuente)[i] in Column(df, Fuente))
    && (Salario in c.columns && SomeValue(Column(c, Salario)) ==>
          forall i | 0 <= i < |df.rows| :: Column(df, Salario)[i].Some? && Column(df, Salario)[i].value.Num?)
    && (Salario in c.columns && !SomeValue(Column(c, Salario)) ==>
          forall i | 0 <= i < |df.rows| :: Column(df, Salario)[i].None?)
    && (Pregunta in c.columns ==> NoNulls(Column(df, Pregunta)))
    && (Sector in c.columns ==> LowerText(Column(df, Sector)))
  }

  /** cargar_y_limpiar_datos on a workbook already read: consolidation, then
      the four cleaning steps in source order, each reassigning the table.
      It fails on an empty workbook, on a salary that does not convert, and
      on a sector column of numbers only. Otherwise the result is the
      consolidated table cleaned: as many rows as the sheets hold less the
      duplicates found after step 2, every row a consolidated row cleaned and
      every consolidated row, cleaned, among them, and the table Cleaned. */
  method CargarYLimpiarDatos(book: Workbook) returns (r: Result<Frame, Error>)
    requires forall j | 0 <= j < |book| :: WellFormed(book[j].table)
    ensures r == Err(NoObjectsToConcatenate) <==> book == []
    ensures book != [] ==> r == Limpiar(Consolidated(book).value)
    ensures book != [] ==> (r == Err(MedianOfText) <==> SalarioFails(Consolidated(book).value))
    ensures book != [] ==>
      (r == Err(StrAccessorOnNumbers) <==>
         !SalarioFails(Consolidated(book).value) && SectorAllNumbers(Consolidated(book).value))
    ensures r.Ok? ==>
      |r.value.rows| == SheetRows(book) - CountDuplicated(Rellenado(Consolidated(book).value).value.rows)
    ensures r.Ok? ==> FilasLimpias(Consolidated(book).value, r.value)
    ensures r.Ok? ==> Cleaned(book, r.value)
  {
    var consolidado := Consolidar(book);
    if consolidado.Err? {
      return Err(consolidado.error);
    }
    var df := consolidado.value;
    ghost var c := df;
    ConsolidatedWellFormed(book);
    ConsolidatedShape(book);

    // Step 1: nulls
    var paso1 := FillSalario(df);
    if paso1.Err? {
      return Err(paso1.error);
    }
    df := paso1.value;
    ghost var s1 := df;
    df := FillPregunta(df);
    ghost var s2 := df;
    df := FillSector(df);
    ghost var s3 := df;

    // Step 2: salary as a number
    var paso2 := CoerceSalario(df);
    df := paso2.value;
    ghost var s4 := df;

    // Step 3: duplicates
    df := Deduplicate(df);
    ghost var s5 := df;

    // Step 4: lower-case sector
    var paso4 := LowerSector(df);
    assert Stages(c, s1, s2, s3, s4, s5);
    SectorStage(c, s1, s2, s3, s4, s5);
    if paso4.Err? {
      return Err(paso4.error);
    }
    df := paso4.value;
    CleanedStages(book, c, s1, s2, s3, s4, s5, df);
    LimpiarRows(c);
    return Ok(df);
  }

  /** The tables between the steps: s1 after the salary fill, s2 and s3 after
      the text fills, s4 after the coercion and s5 after deduplication. */
  predicate Stages(c: Frame, s1: Frame, s2: Frame, s3: Frame, s4: Frame, s5: Frame) {
    && FillSalario(c) == Ok(s1)
    && s2 == FillPregunta(s1)
    && s3 == FillSector(s2)
    && CoerceSalario(s3) == Ok(s4)
    && s5 == Deduplicate(s4)
  }

  /** A column no step writes comes out of the steps before deduplication
      as it went in. */
  lemma UntouchedColumn(c: Frame, s1: Frame, s2: Frame, s3: Frame, s4: Frame, s5: Frame, d: string)
    requires Stages(c, s1, s2, s3, s4, s5)
    requires d != Salario && d != Pregunta && d != Sector
    ensures Column(s4, d) == Column(c, d)
  {
    SameOutsideColumn(c, s1, Salario, d);
    SameOutsideColumn(s1, s2, Pregunta, d);
    SameOutsideColumn(s2, s3, Sector, d);
    SameOutsideColumn(s3, s4, Salario, d);
  }

  /** Step 4 fails exactly when the consolidated sectors were all numbers. */
  lemma SectorStage(c: Frame, s1: Frame, s2: Frame, s3: Frame, s4: Frame, s5: Frame)
    requires Stages(c, s1, s2, s3, s4, s5)
    ensures s5.columns == c.columns && |s4.rows| == |c.rows|
    ensures Sector in c.columns ==> (OnlyNumbers(Column(s5, Sector)) <==> SectorAllNumbers(c))
  {
    if Sector in c.columns {
      SameOutsideColumn(c, s1, Salario, Sector);
      SameOutsideColumn(s1, s2, Pregunta, Sector);
      FillSectorOnlyNumbers(s2);
      SameOutsideColumn(s3, s4, Salario, Sector);
      DeduplicateOnlyNumbers(s4, Sector);
    }
  }

  /** After the coercion every salary is a number when the consolidated
      column had any value, and null otherwise. */
  lemma SalarioCoerced(c: Frame, s1: Frame, s2: Frame, s3: Frame, s4: Frame, s5: Frame)
    requires WellFormed(c) && Stages(c, s1, s2, s3, s4, s5) && Salario in c.columns
    ensures SomeValue(Column(c, Salario)) ==>
      forall i | 0 <= i < |s4.rows| :: Column(s4, Salario)[i].Some? && Column(s4, Salario)[i].value.Num?
    ensures !SomeValue(Column(c, Salario)) ==>
      forall i | 0 <= i < |s4.rows| :: Column(s4, Salario)[i].None?
  {
    SameOutsideColumn(s1, s2, Pregunta, Salario);
    SameOutsideColumn(s2, s3, Sector, Salario);
    FillSalarioConverted(c);
  }

  /** Deduplication keeps these salaries as they are. */
  lemma SalarioStage(c: Frame, s1: Frame, s2: Frame, s3: Frame, s4: Frame, s5: Frame)
    requires WellFormed(c) && Stages(c, s1, s2, s3, s4, s5) && Salario in c.columns
    ensures SomeValue(Column(c, Salario)) ==>
      forall k | 0 <= k < |s5.rows| :: Column(s5, Salario)[k].Some? && Column(s5, Salario)[k].value.Num?
    ensures !SomeValue(Column(c, Salario)) ==>
      forall k | 0 <= k < |s5.rows| :: Column(s5, Salario)[k].None?
  {
    SalarioCoerced(c, s1, s2, s3, s4, s5);
    DeduplicateKeepsKind(s4, Salario);
  }

  /** After the steps before lower-casing no free-text answer is null. */
  lemma PreguntaStage(c: Frame, s1: Frame, s2: Frame, s3: Frame, s4: Frame, s5: Frame)
    requires Stages(c, s1, s2, s3, s4, s5) && Pregunta in c.columns
    ensures NoNulls(Column(s5, Pregunta))
  {
    SameOutsideColumn(s2, s3, Sector, Pregunta);
    SameOutsideColumn(s3, s4, Salario, Pregunta);
    DeduplicateKeepsKind(s4, Pregunta);
  }

  /** The steps keep the provenance of every row: the cleaned table names
      exactly the sheets the consolidated one names. */
  lemma FuenteStage(c: Frame, s1: Frame, s2: Frame, s3: Frame, s4: Frame, s5: Frame)
    requires Stages(c, s1, s2, s3, s4, s5)
    ensures forall k | 0 <= k < |s5.rows| :: Column(s5, Fuente)[k] in Column(c, Fuente)
    ensures forall i | 0 <= i < |c.rows| :: Column(c, Fuente)[i] in Column(s5, Fuente)
  {
    UntouchedColumn(c, s1, s2, s3, s4, s5, Fuente);
    DeduplicateColumn(s4, Fuente);
  }

  /** The table the pipeline returns is Cleaned. */
  lemma CleanedStages(book: Workbook, c: Frame, s1: Frame, s2: Frame, s3: Frame, s4: Frame, s5: Frame, o: Frame)
    requires book != [] && c == Consolidated(book).value
    requires WellFormed(c) && |c.rows| == SheetRows(book)
    requires Stages(c, s1, s2, s3, s4, s5) && LowerSector(s5) == Ok(o)
    ensures Cleaned(book, o)
  {
    SectorStage(c, s1, s2, s3, s4, s5);
    SameOutsideColumn(s5, o, Sector, Fuente);
    FuenteStage(c, s1, s2, s3, s4, s5);
    if Salario in c.columns {
      SameOutsideColumn(s5, o, Sector, Salario);
      SalarioStage(c, s1, s2, s3, s4, s5);
    }
    if Pregunta in c.columns {
      SameOutsideColumn(s5, o, Sector, Pregunta);
      PreguntaStage(c, s1, s2, s3, s4, s5);
    }
  }

  // ---------------------------------------------------------------------
  // Each cleaned row against its consolidated row
  // ---------------------------------------------------------------------

  /** The salary of consolidated row i after steps 1 and 2 of a run that
      did not fail (so every salary present converts): its number, or the
      median of the column when it was null. */
  function SalarioLimpio(col: seq<Value>, i: nat): Value
    requires i < |col|
  {
    if col[i].Some? && AsNumber(col[i].value).Some? then Some(Num(AsNumber(col[i].value).value))
    else NumOrNull(Median(Converted(col)))
  }

  /** The free-text answer after step 1: a null becomes the empty text. */
  function PreguntaLimpia(v: Value): Value {
    if v.None? then Some(Str("")) else v
  }

  /** The sector after step 1: a null becomes "Desconocido". */
  function SectorRelleno(v: Value): Value {
    if v.None? then Some(Str("Desconocido")) else v
  }

  /** The sector after step 4: text lower-cased, a null read as
      "desconocido", a number null. */
  function SectorLimpio(v: Value): Value {
    if v.None? then Some(Str("desconocido"))
    else if v.value.Str? then Some(Str(Lower(v.value.s)))
    else None
  }

  /** row is consolidated row i with steps 1 and 2 applied to the salary and
      the answer: every other column of the table as it was, the two written
      ones as those steps make them, and the sector equal to sector. */
  predicate FilaCon(c: Frame, i: nat, row: Row, sector: Value)
    requires i < |c.rows|
  {
    && (forall d | d in c.columns && d != Salario && d != Pregunta && d != Sector :: At(row, d) == At(c.rows[i], d))
    && (Salario in c.columns ==> At(row, Salario) == SalarioLimpio(Column(c, Salario), i))
    && (Pregunta in c.columns ==> At(row, Pregunta) == PreguntaLimpia(At(c.rows[i], Pregunta)))
    && (Sector in c.columns ==> At(row, Sector) == sector)
  }

  /** row is consolidated row i after steps 1 and 2. */
  predicate Rellena(c: Frame, i: nat, row: Row)
    requires i < |c.rows|
  {
    FilaCon(c, i, row, SectorRelleno(At(c.rows[i], Sector)))
  }

  /** row is consolidated row i after all four steps. */
  predicate Limpia(c: Frame, i: nat, row: Row)
    requires i < |c.rows|
  {
    FilaCon(c, i, row, SectorLimpio(At(c.rows[i], Sector)))
  }

  /** row is some consolidated row cleaned. */
  predicate VieneDe(c: Frame, row: Row) {
    exists i | 0 <= i < |c.rows| :: Limpia(c, i, row)
  }

  /** Consolidated row i, cleaned, is a row of o. */
  predicate Presente(c: Frame, i: nat, o: Frame)
    requires i < |c.rows|
  {
    exists k | 0 <= k < |o.rows| :: Limpia(c, i, o.rows[k])
  }

  /** Every cleaned row is some consolidated row cleaned, and every
      consolidated row, cleaned, is among the cleaned rows. */
  predicate FilasLimpias(c: Frame, o: Frame) {
    && (forall k | 0 <= k < |o.rows| :: VieneDe(c, o.rows[k]))
    && (forall i | 0 <= i < |c.rows| :: Presente(c, i, o))
  }

  /** The salaries after the fill of step 1. */
  lemma SalarioPaso1(c: Frame, s1: Frame)
    requires FillSalario(c) == Ok(s1) && Salario in c.columns
    ensures !HasUnconvertible(Column(c, Salario))
    ensures forall j | 0 <= j < |c.rows| ::
      Column(s1, Salario)[j] == if Column(c, Salario)[j].Some? then Column(c, Salario)[j] else NumOrNull(Median(Converted(Column(c, Salario))))
  {
  }

  /** The salary of row i after the coercion of step 2. */
  lemma SalarioPaso2(s3: Frame, s4: Frame, i: nat)
    requires CoerceSalario(s3) == Ok(s4) && Salario in s3.columns && i < |s3.rows|
    ensures var col := Column(s3, Salario);
      Column(s4, Salario)[i] ==
        if col[i].Some? && AsNumber(col[i].value).Some? then Some(Num(AsNumber(col[i].value).value))
        else NumOrNull(Median(Converted(col)))
  {
  }

  /** A salary column without text that does not convert, filled with its
      median and then coerced and refilled: each salary ends as its own
      number, or as the median when it was null. */
  lemma SalarioFillThenCoerce(col: seq<Value>, col3: seq<Value>, i: nat)
    requires !HasUnconvertible(col) && |col3| == |col| && i < |col|
    requires forall j | 0 <= j < |col| ::
      col3[j] == if col[j].Some? then col[j] else NumOrNull(Median(Converted(col)))
    ensures SalarioLimpio(col, i) ==
      if col3[i].Some? && AsNumber(col3[i].value).Some? then Some(Num(AsNumber(col3[i].value).value))
      else NumOrNull(Median(Converted(col3)))
  {
    var m1 := NumOrNull(Median(Converted(col)));
    if col[i].None? && m1.None? {
      forall j | 0 <= j < |col3|
        ensures col3[j].None?
      {
        assert col[j].None?;
      }
    }
  }

  /** The salary of row i after steps 1 and 2, s3 being the table after
      the text fills, which leave the salary alone. */
  lemma SalarioRow(c: Frame, s1: Frame, s3: Frame, s4: Frame, i: nat)
    requires FillSalario(c) == Ok(s1) && CoerceSalario(s3) == Ok(s4)
    requires Salario in c.columns && s3.columns == c.columns && i < |c.rows|
    requires Column(s3, Salario) == Column(s1, Salario)
    ensures Column(s4, Salario)[i] == SalarioLimpio(Column(c, Salario), i)
  {
    SalarioPaso1(c, s1);
    SalarioPaso2(s3, s4, i);
    SalarioFillThenCoerce(Column(c, Salario), Column(s3, Salario), i);
  }

  /** A column no step writes, in row i after steps 1 and 2. */
  lemma OtherRow(c: Frame, s1: Frame, s2: Frame, s3: Frame, s4: Frame, s5: Frame, i: nat, d: string)
    requires Stages(c, s1, s2, s3, s4, s5) && i < |c.rows|
    requires d != Salario && d != Pregunta && d != Sector
    ensures At(s4.rows[i], d) == At(c.rows[i], d)
  {
    UntouchedColumn(c, s1, s2, s3, s4, s5, d);
    assert Column(s4, d)[i] == Column(c, d)[i];
  }

  /** The free-text answer in row i after steps 1 and 2. */
  lemma PreguntaRow(c: Frame, s1: Frame, s2: Frame, s3: Frame, s4: Frame, s5: Frame, i: nat)
    requires Stages(c, s1, s2, s3, s4, s5) && Pregunta in c.columns && i < |c.rows|
    ensures At(s4.rows[i], Pregunta) == PreguntaLimpia(At(c.rows[i], Pregunta))
  {
    SameOutsideColumn(c, s1, Salario, Pregunta);
    SameOutsideColumn(s2, s3, Sector, Pregunta);
    SameOutsideColumn(s3, s4, Salario, Pregunta);
    assert Column(s4, Pregunta)[i] == At(s4.rows[i], Pregunta);
    assert Column(c, Pregunta)[i] == At(c.rows[i], Pregunta);
  }

  /** The sector in row i after steps 1 and 2. */
  lemma SectorRow(c: Frame, s1: Frame, s2: Frame, s3: Frame, s4: Frame, s5: Frame, i: nat)
    requires Stages(c, s1, s2, s3, s4, s5) && Sector in c.columns && i < |c.rows|
    ensures At(s4.rows[i], Sector) == SectorRelleno(At(c.rows[i], Sector))
  {
    SameOutsideColumn(c, s1, Salario, Sector);
    SameOutsideColumn(s1, s2, Pregunta, Sector);
    SameOutsideColumn(s3, s4, Salario, Sector);
    assert Column(s4, Sector)[i] == At(s4.rows[i], Sector);
    assert Column(c, Sector)[i] == At(c.rows[i], Sector);
  }

  /** Consolidated row i after steps 1 and 2. */
  lemma RellenadoRow(c: Frame, i: nat)
    requires Rellenado(c).Ok? && i < |c.rows|
    ensures Rellena(c, i, Rellenado(c).value.rows[i])
  {
    var s1 := FillSalario(c).value;
    var s2 := FillPregunta(s1);
    var s3 := FillSector(s2);
    var s4 := Rellenado(c).value;
    var s5 := Deduplicate(s4);
    assert Stages(c, s1, s2, s3, s4, s5);
    forall d | d in c.columns && d != Salario && d != Pregunta && d != Sector
      ensures At(s4.rows[i], d) == At(c.rows[i], d)
    {
      OtherRow(c, s1, s2, s3, s4, s5, i, d);
    }
    if Salario in c.columns {
      SameOutsideColumn(s1, s2, Pregunta, Salario);
      SameOutsideColumn(s2, s3, Sector, Salario);
      SalarioRow(c, s1, s3, s4, i);
      assert Column(s4, Salario)[i] == At(s4.rows[i], Salario);
    }
    if Pregunta in c.columns {
      PreguntaRow(c, s1, s2, s3, s4, s5, i);
    }
    if Sector in c.columns {
      SectorRow(c, s1, s2, s3, s4, s5, i);
    }
  }

  /** Two rows that differ at most in the sector agree on every other
      column. */
  lemma AtOutsideSector(a: Row, b: Row, d: string)
    requires a - {Sector} == b - {Sector} && d != Sector
    ensures At(a, d) == At(b, d)
  {
    assert d in a <==> d in (a - {Sector});
    assert d in b <==> d in (b - {Sector});
    if d in a {
      assert a[d] == (a - {Sector})[d];
      assert b[d] == (b - {Sector})[d];
    }
  }

  /** Lower-casing the sector of a row after steps 1 and 2 gives the row
      after all four steps. */
  lemma LoweredRow(c: Frame, i: nat, r5: Row, ro: Row)
    requires i < |c.rows| && Rellena(c, i, r5)
    requires ro - {Sector} == r5 - {Sector}
    requires Sector in c.columns ==>
      At(ro, Sector) == if At(r5, Sector).Some? && At(r5, Sector).value.Str? then Some(Str(Lower(At(r5, Sector).value.s))) else None
    ensures Limpia(c, i, ro)
  {
    forall d | d != Sector
      ensures At(ro, d) == At(r5, d)
    {
      AtOutsideSector(ro, r5, d);
    }
    if Sector in c.columns {
      LoweredSector(At(c.rows[i], Sector));
    }
  }

  /** Lower-casing a filled sector gives the cleaned sector. */
  lemma LoweredSector(v: Value)
    ensures var f := SectorRelleno(v);
      SectorLimpio(v) == if f.Some? && f.value.Str? then Some(Str(Lower(f.value.s))) else None
  {
    if v.None? {
      LowerDesconocido("Desconocido");
    }
  }

  /** Row k of the cleaned table is row k kept by deduplication, with its
      sector lower-cased. */
  lemma CleanedRowAt(c: Frame, k: nat, i: nat)
    requires Limpiar(c).Ok? && Rellenado(c).Ok? && i < |c.rows| && k < |Limpiar(c).value.rows|
    requires Deduplicate(Rellenado(c).value).rows[k] == Rellenado(c).value.rows[i]
    ensures Limpia(c, i, Limpiar(c).value.rows[k])
  {
    var s4 := Rellenado(c).value;
    var s5 := Deduplicate(s4);
    var o := Limpiar(c).value;
    assert LowerSector(s5) == Ok(o);
    RellenadoRow(c, i);
    if Sector in c.columns {
      assert At(o.rows[k], Sector) == Column(o, Sector)[k];
      assert At(s5.rows[k], Sector) == Column(s5, Sector)[k];
    }
    LoweredRow(c, i, s5.rows[k], o.rows[k]);
  }

  /** The input row that row k kept by deduplication is. */
  lemma KeptFrom(df: Frame, k: nat) returns (i: nat)
    requires k < |Deduplicate(df).rows|
    ensures i < |df.rows| && df.rows[i] == Deduplicate(df).rows[k]
  {
    i :| 0 <= i < |df.rows| && df.rows[i] == Deduplicate(df).rows[k];
  }

  /** The row kept by deduplication that input row i is. */
  lemma KeptAs(df: Frame, i: nat) returns (k: nat)
    requires i < |df.rows|
    ensures k < |Deduplicate(df).rows| && Deduplicate(df).rows[k] == df.rows[i]
  {
    k :| 0 <= k < |Deduplicate(df).rows| && Deduplicate(df).rows[k] == df.rows[i];
  }

  /** The cleaned table holds exactly the consolidated rows cleaned: each
      cleaned row comes from a consolidated row, and each consolidated row
      is among the cleaned ones (deduplication removes repeats only). */
  lemma LimpiarRows(c: Frame)
    requires Limpiar(c).Ok?
    ensures FilasLimpias(c, Limpiar(c).value)
  {
    var s4 := Rellenado(c).value;
    var o := Limpiar(c).value;
    assert |o.rows| == |Deduplicate(s4).rows|;
    forall k | 0 <= k < |o.rows|
      ensures VieneDe(c, o.rows[k])
    {
      var i := KeptFrom(s4, k);
      CleanedRowAt(c, k, i);
    }
    forall i | 0 <= i < |c.rows|
      ensures Presente(c, i, o)
    {
      var k := KeptAs(s4, i);
      CleanedRowAt(c, k, i);
    }
  }
}

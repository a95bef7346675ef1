/** Worked cases of the pipeline's stages, the orderings the source fixes,
    and the salary median of step 1 as written next to the one its authors
    evidently meant. */
module Escenarios {
  import opened Wrappers
  import opened Numeric
  import opened Text
  import opened Duplicates
  import opened Frames
  import opened Consolidation
  import opened Limpieza

  // ---------------------------------------------------------------------
  // The salary fill on [10, null, 30]
  // ---------------------------------------------------------------------

  /** A table with one column, the salaries. */
  function Salarios(xs: seq<Value>): (f: Frame)
    ensures Salario in f.columns && |f.rows| == |xs|
    ensures Column(f, Salario) == xs
  {
    Frame([Salario], seq(|xs|, i requires 0 <= i < |xs| => map[Salario := xs[i]]))
  }

  /** Step 1 on salaries that all convert writes the column filled with the
      median m of the salaries. */
  lemma FillSalarioWrites(df: Frame, m: Value)
    requires Salario in df.columns && !HasUnconvertible(Column(df, Salario))
    requires NumOrNull(Median(Converted(Column(df, Salario)))) == m
    ensures FillSalario(df).Ok?
    ensures Column(FillSalario(df).value, Salario) == FillNa(Column(df, Salario), m)
  {
  }

  /** Of the salaries [a, null, b] all convert, and the numbers are a and b. */
  lemma ConvertedAroundNull(col: seq<Value>, a: real, b: real)
    requires col == [Some(Num(a)), None, Some(Num(b))]
    ensures !HasUnconvertible(col)
    ensures |Converted(col)| == 2 && Converted(col)[0] == a && Converted(col)[1] == b
  {
    assert forall i | 0 <= i < |col| && col[i].Some? :: AsNumber(col[i].value).Some?;
    assert Converted(col[2..]) == [b] by { assert col[2..][1..] == []; }
    assert Converted(col[1..]) == [b] by { assert col[1..][1..] == col[2..]; }
  }

  /** The salaries [a, null, b] all convert, and their median is the mean of
      a and b: the median skips the null. */
  lemma MedianSkipsNull(col: seq<Value>, a: real, b: real)
    requires col == [Some(Num(a)), None, Some(Num(b))]
    ensures !HasUnconvertible(col)
    ensures NumOrNull(Median(Converted(col))) == Some(Num((a + b) / 2.0))
  {
    ConvertedAroundNull(col, a, b);
    MedianOfTwo(Converted(col));
  }

  lemma FillNaMiddle(a: real, b: real, m: real)
    ensures FillNa([Some(Num(a)), None, Some(Num(b))], Some(Num(m))) == [Some(Num(a)), Some(Num(m)), Some(Num(b))]
  {
  }

  /** A null between two salaries takes their median, the mean of the two:
      [10, null, 30] becomes [10, 20, 30]. */
  lemma FillSalarioBetweenTwo(df: Frame, a: real, b: real)
    requires Salario in df.columns
    requires Column(df, Salario) == [Some(Num(a)), None, Some(Num(b))]
    ensures FillSalario(df).Ok?
    ensures Column(FillSalario(df).value, Salario) == [Some(Num(a)), Some(Num((a + b) / 2.0)), Some(Num(b))]
  {
    MedianSkipsNull(Column(df, Salario), a, b);
    FillSalarioWrites(df, Some(Num((a + b) / 2.0)));
    FillNaMiddle(a, b, (a + b) / 2.0);
  }

  // ---------------------------------------------------------------------
  // Sector: a missing sector ends up as "desconocido"
  // ---------------------------------------------------------------------

  /** A null sector is filled with "Desconocido" and lower-cased at the end,
      so it reads "desconocido"; a sector given as text is lower-cased. */
  lemma MissingSectorBecomesDesconocido(df: Frame, i: nat)
    requires Sector in df.columns && i < |df.rows|
    requires LowerSector(FillSector(df)).Ok?
    ensures var col := Column(df, Sector);
      var out := Column(LowerSector(FillSector(df)).value, Sector);
      && (col[i].None? ==> out[i] == Some(Str("desconocido")))
      && (col[i].Some? && col[i].value.Str? ==> out[i] == Some(Str(Lower(col[i].value.s))))
  {
    LowerDesconocido("Desconocido");
    var filled := Column(FillSector(df), Sector);
    assert filled[i] == if Column(df, Sector)[i].None? then Some(Str("Desconocido")) else Column(df, Sector)[i];
  }

  // ---------------------------------------------------------------------
  // Deduplication runs before lower-casing
  // ---------------------------------------------------------------------

  /** A table of sectors, one row per sector. */
  function Sectores(xs: seq<string>): (f: Frame)
    ensures Sector in f.columns && |f.rows| == |xs|
    ensures forall i | 0 <= i < |xs| :: f.rows[i] == map[Sector := Some(Str(xs[i]))]
  {
    Frame([Sector], seq(|xs|, i requires 0 <= i < |xs| => map[Sector := Some(Str(xs[i]))]))
  }

  /** Rows with different sectors are not duplicates. */
  lemma DeduplicateKeepsDifferentSectors(s: string, t: string)
    requires s != t
    ensures Deduplicate(Sectores([s, t])) == Sectores([s, t])
  {
    var df := Sectores([s, t]);
    assert df.rows[0][Sector] != df.rows[1][Sector];
    DeduplicateTwoDifferent(df);
  }

  /** Lower-casing a table of sectors lower-cases each row's sector. */
  lemma SectoresLowered(xs: seq<string>)
    requires xs != []
    ensures LowerSector(Sectores(xs)).Ok?
    ensures var out := LowerSector(Sectores(xs)).value;
      |out.rows| == |xs| && forall k | 0 <= k < |xs| :: out.rows[k] == map[Sector := Some(Str(Lower(xs[k])))]
  {
    var df := Sectores(xs);
    assert WellFormed(df);
    assert Column(df, Sector)[0] == Some(Str(xs[0]));
    assert !OnlyNumbers(Column(df, Sector));
    var out := LowerSector(df).value;
    forall k | 0 <= k < |xs|
      ensures out.rows[k] == map[Sector := Some(Str(Lower(xs[k])))]
    {
      SectorOnlyRow(out, k);
    }
  }

  /** A row of a table whose one column is the sector is that sector. */
  lemma SectorOnlyRow(f: Frame, k: nat)
    requires WellFormed(f) && f.columns == [Sector] && k < |f.rows|
    ensures f.rows[k] == map[Sector := Column(f, Sector)[k]]
  {
    assert f.rows[k].Keys == {Sector};
  }

  /** Lower-casing two sectors that differ only in case makes their rows equal. */
  lemma LowerMergesCaseVariants(s: string, t: string)
    requires Lower(s) == Lower(t)
    ensures LowerSector(Sectores([s, t])).Ok?
    ensures var out := LowerSector(Sectores([s, t])).value;
      |out.rows| == 2 && out.rows[0] == out.rows[1]
  {
    SectoresLowered([s, t]);
  }

  /** Of two equal rows deduplication keeps one. */
  lemma DeduplicateEqualPair(f: Frame)
    requires |f.rows| == 2 && f.rows[0] == f.rows[1]
    ensures |Deduplicate(f).rows| == 1
  {
    assert f.rows[..1] == [f.rows[0]];
    assert f.rows[..2] == f.rows;
    assert CountDuplicated(f.rows[..1]) == 0;
  }

  /** Two rows whose sectors differ only in case ("Banca" and "banca") both
      survive the pipeline's order, deduplicate then lower-case, and come out
      equal; lower-casing first would have merged them. */
  lemma DeduplicateBeforeLower(s: string, t: string)
    requires s != t && Lower(s) == Lower(t)
    ensures |Deduplicate(Sectores([s, t])).rows| == 2
    ensures LowerSector(Deduplicate(Sectores([s, t]))).Ok?
    ensures var out := LowerSector(Deduplicate(Sectores([s, t]))).value;
      |out.rows| == 2 && out.rows[0] == out.rows[1]
    ensures LowerSector(Sectores([s, t])).Ok?
    ensures |Deduplicate(LowerSector(Sectores([s, t])).value).rows| == 1
  {
    DeduplicateKeepsDifferentSectors(s, t);
    LowerMergesCaseVariants(s, t);
    DeduplicateEqualPair(LowerSector(Sectores([s, t])).value);
  }

  /** A text fill on a column without nulls changes nothing. */
  lemma FillTextWithoutNulls(df: Frame, c: string, text: string)
    requires WellFormed(df) && c in df.columns && NoNulls(Column(df, c))
    ensures FillText(df, c, text) == df
  {
    assert FillNa(Column(df, c), Some(Str(text))) == Column(df, c);
    SetColumnSame(df, c);
  }

  /** The whole cleaning, in source order, on two rows whose sectors differ
      only in case: both rows survive and come out equal. */
  lemma LimpiarKeepsCaseVariants(s: string, t: string)
    requires s != t && Lower(s) == Lower(t)
    ensures Limpiar(Sectores([s, t])).Ok?
    ensures var out := Limpiar(Sectores([s, t])).value;
      |out.rows| == 2 && out.rows[0] == out.rows[1]
  {
    var df := Sectores([s, t]);
    assert WellFormed(df);
    assert NoNulls(Column(df, Sector));
    FillTextWithoutNulls(df, Sector, "Desconocido");
    assert Rellenado(df) == Ok(df);
    DeduplicateBeforeLower(s, t);
  }

  /** "Banca" and "banca" are such a pair. */
  lemma BancaPair()
    ensures "Banca" != "banca" && Lower("Banca") == Lower("banca")
  {
    assert "Banca"[0] != "banca"[0];
  }

  // ---------------------------------------------------------------------
  // The provenance column takes part in row equality
  // ---------------------------------------------------------------------

  /** Two different rows are no duplicates: deduplication keeps both. */
  lemma DeduplicateTwoDifferent(f: Frame)
    requires |f.rows| == 2 && f.rows[0] != f.rows[1]
    ensures Deduplicate(f) == f
  {
    assert Distinct(f.rows);
    DistinctUnchanged(f.rows);
  }

  /** Two sheets of one row each: the first row comes from the first sheet,
      the second from the second. */
  lemma {:induction false} TwoSheetOffsets(book: Workbook)
    requires |book| == 2 && |book[0].table.rows| == 1 && |book[1].table.rows| == 1
    ensures Offset(book, 0) == 0 && Offset(book, 1) == 1
  {
    OffsetIsRowsBefore(book, 0);
    OffsetIsRowsBefore(book, 1);
    assert book[..1][..0] == [];
  }

  /** Two sheets of one row each hold two rows, one per sheet. */
  lemma {:induction false} TwoSheetRows(book: Workbook)
    requires |book| == 2 && |book[0].table.rows| == 1 && |book[1].table.rows| == 1
    ensures SheetRows(book) == 2
    ensures SheetOf(book, 0) == 0 && SheetOf(book, 1) == 1
  {
    assert SheetRows(book[..1]) == 1 by { assert book[..1][..0] == []; }
    TwoSheetOffsets(book);
  }

  /** The same row on two sheets with different names comes out of
      consolidation twice, once per sheet, and deduplication keeps both. */
  lemma SameRowOnTwoSheetsKept(n1: string, n2: string, hoja: Frame)
    requires n1 != n2 && WellFormed(hoja) && |hoja.rows| == 1
    ensures Consolidated([Sheet(n1, hoja), Sheet(n2, hoja)]).Ok?
    ensures var c := Consolidated([Sheet(n1, hoja), Sheet(n2, hoja)]).value;
      |c.rows| == 2 && Deduplicate(c) == c
  {
    var book := [Sheet(n1, hoja), Sheet(n2, hoja)];
    TwoSheetRows(book);
    RowsOfDistinctSheetsDiffer(book, 0, 1);
    ConsolidatedShape(book);
    DeduplicateTwoDifferent(Consolidated(book).value);
  }

  // ---------------------------------------------------------------------
  // Finding: text in the salary column stops step 1
  // ---------------------------------------------------------------------

  /** As written, a salary given as text that is not a number makes the
      median of step 1 fail, so the coercion of step 2, meant for exactly
      such values, is never reached. */
  lemma SalarioTextStopsStepOne(df: Frame, a: real, s: string)
    requires Salario in df.columns && ParseNumber(s).None?
    requires Column(df, Salario) == [Some(Num(a)), Some(Str(s))]
    ensures FillSalario(df) == Err(MedianOfText)
  {
    var col := Column(df, Salario);
    assert col[1].Some? && AsNumber(col[1].value).None?;
  }

  /** "sin dato" does not read as a number. */
  lemma NotANumber()
    ensures ParseNumber("sin dato").None?
  {
  }

  /** The salaries [10, "sin dato"] stop the pipeline at step 1. */
  lemma SalarioSinDatoStopsStepOne()
    ensures FillSalario(Salarios([Some(Num(10.0)), Some(Str("sin dato"))])) == Err(MedianOfText)
  {
    NotANumber();
    SalarioTextStopsStepOne(Salarios([Some(Num(10.0)), Some(Str("sin dato"))]), 10.0, "sin dato");
  }

  /** Step 1 as its authors evidently meant it: the median is taken over the
      salaries that convert, and text that does not convert is left for the
      coercion of step 2. It never fails. */
  function FillSalarioCorregido(df: Frame): (g: Frame)
    ensures Salario !in df.columns ==> g == df
    ensures SameOutside(df, g, Salario)
    ensures WellFormed(df) ==> WellFormed(g)
    ensures var col := Column(df, Salario);
      forall i | 0 <= i < |col| && col[i].Some? :: Column(g, Salario)[i] == col[i]
    ensures Salario in df.columns ==> var col := Column(df, Salario);
      forall i | 0 <= i < |col| && col[i].None? :: Column(g, Salario)[i] == NumOrNull(Median(Converted(col)))
  {
    if Salario !in df.columns then df
    else FillColumn(df, Salario, NumOrNull(Median(Converted(Column(df, Salario)))))
  }

  /** Wherever the step as written succeeds, the corrected one gives the same
      table. */
  lemma FillSalarioCorregidoAgrees(df: Frame)
    requires FillSalario(df).Ok?
    ensures FillSalario(df).value == FillSalarioCorregido(df)
  {
  }

  /** With the corrected step 1, steps 1 and 2 together leave every salary a
      number as soon as one of them converts, text or not. */
  lemma CorregidoThenCoerceNumeric(df: Frame)
    requires Salario in df.columns && Converted(Column(df, Salario)) != []
    ensures var g := CoerceSalario(FillSalarioCorregido(df)).value;
      forall i | 0 <= i < |df.rows| :: Column(g, Salario)[i].Some? && Column(g, Salario)[i].value.Num?
  {
    var col := Column(df, Salario);
    var filled := Column(FillSalarioCorregido(df), Salario);
    var i :| 0 <= i < |col| && col[i].Some? && AsNumber(col[i].value).Some?;
    assert filled[i] == col[i];
  }

  /** Of the salaries [a, s] with s text that is not a number, a alone
      converts. */
  lemma ConvertedBesideText(col: seq<Value>, a: real, s: string)
    requires col == [Some(Num(a)), Some(Str(s))] && ParseNumber(s).None?
    ensures |Converted(col)| == 1 && Converted(col)[0] == a
  {
    assert Converted(col[1..]) == [] by { assert col[1..][1..] == []; }
  }

  /** The salaries [a, s] with s text that is not a number: a alone
      converts, so the median is a. */
  lemma MedianSkipsText(col: seq<Value>, a: real, s: string)
    requires col == [Some(Num(a)), Some(Str(s))] && ParseNumber(s).None?
    ensures NumOrNull(Median(Converted(col))) == Some(Num(a))
  {
    ConvertedBesideText(col, a, s);
    MedianOfOne(Converted(col));
  }

  /** Step 2 on the salaries [a, s], s text that is not a number: a stays,
      s is replaced by the median, a. */
  lemma CoerceBesideText(df: Frame, a: real, s: string)
    requires Salario in df.columns && ParseNumber(s).None?
    requires Column(df, Salario) == [Some(Num(a)), Some(Str(s))]
    ensures Column(CoerceSalario(df).value, Salario) == [Some(Num(a)), Some(Num(a))]
  {
    MedianSkipsText(Column(df, Salario), a, s);
    CoerceNumberAndText(df, a, Some(Num(a)));
  }

  /** Step 2 on two salaries, a number a and a value that does not convert:
      a stays, the other becomes the median m of the salaries. */
  lemma CoerceNumberAndText(df: Frame, a: real, m: Value)
    requires Salario in df.columns && |Column(df, Salario)| == 2
    requires Column(df, Salario)[0] == Some(Num(a))
    requires Column(df, Salario)[1].Some? && AsNumber(Column(df, Salario)[1].value).None?
    requires NumOrNull(Median(Converted(Column(df, Salario)))) == m
    ensures Column(CoerceSalario(df).value, Salario) == [Some(Num(a)), m]
  {
  }

  /** The corrected step 1 leaves a salary column without nulls as it is. */
  lemma CorregidoWithoutNulls(df: Frame)
    requires Salario in df.columns && NoNulls(Column(df, Salario))
    ensures Column(FillSalarioCorregido(df), Salario) == Column(df, Salario)
  {
  }

  /** With the corrected step 1 a number next to text that is not one
      gives two copies of the number: on [10, "sin dato"], [10, 10]. */
  lemma CorregidoOnText(df: Frame, a: real, s: string)
    requires Salario in df.columns && ParseNumber(s).None?
    requires Column(df, Salario) == [Some(Num(a)), Some(Str(s))]
    ensures var g := CoerceSalario(FillSalarioCorregido(df)).value;
      Column(g, Salario) == [Some(Num(a)), Some(Num(a))]
  {
    CorregidoWithoutNulls(df);
    CoerceBesideText(FillSalarioCorregido(df), a, s);
  }
}

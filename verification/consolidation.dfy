/** Consolidation of a workbook's sheets into one table: each sheet gets a
    provenance column holding its own name, and pd.concat stacks the sheets'
    rows in sheet order over the union of their columns, a cell that a sheet
    does not have becoming null. */
module Consolidation {
  import opened Wrappers
  import opened Duplicates
  import opened Frames

  /** The provenance column. */
  const Fuente: string := "fuente_encuesta"

  /** A workbook as pd.read_excel(sheet_name=None) returns it: sheet names
      with their tables, in workbook order. */
  type Workbook = seq<Sheet>

  /** One named sheet of the workbook. */
  datatype Sheet = Sheet(name: string, table: Frame)

  // ---------------------------------------------------------------------
  // Columns of the concatenation
  // ---------------------------------------------------------------------

  /** The columns of b that a lacks, in b's order. */
  function NewColumns(a: seq<string>, b: seq<string>): (r: seq<string>)
    ensures forall c :: c in r <==> c in b && c !in a
    ensures Distinct(b) ==> Distinct(r)
  {
    if b == [] then []
    else
      var rest := NewColumns(a, b[1..]);
      assert Distinct(b) ==> b[0] !in b[1..];
      (if b[0] in a then [] else [b[0]]) + rest
  }

  /** The union of two column lists in order of first appearance (pandas
      concatenates without sorting the columns). */
  function UnionColumns(a: seq<string>, b: seq<string>): (r: seq<string>)
    ensures ColumnSet(r) == ColumnSet(a) + ColumnSet(b)
    ensures Distinct(a) && Distinct(b) ==> Distinct(r)
    ensures |a| <= |r| && r[..|a|] == a
  {
    var n := NewColumns(a, b);
    assert (a + n)[..|a|] == a;
    assert forall c :: c in ColumnSet(a + n) <==> c in a || c in n;
    assert Distinct(a) && Distinct(b) ==> Distinct(a + n) by {
      if Distinct(a) && Distinct(b) {
        forall i, j | 0 <= i < j < |a + n|
          ensures (a + n)[i] != (a + n)[j]
        {
          if i < |a| && j >= |a| {
            assert (a + n)[j] == n[j - |a|] && n[j - |a|] in n;
          }
        }
      }
    }
    a + n
  }

  /** The columns of the concatenation of the frames. */
  function AllColumns(fs: seq<Frame>): (cols: seq<string>)
    ensures (forall j | 0 <= j < |fs| :: Distinct(fs[j].columns)) ==> Distinct(cols)
  {
    if fs == [] then [] else UnionColumns(AllColumns(fs[..|fs| - 1]), fs[|fs| - 1].columns)
  }

  /** The union of the column sets of the frames. */
  function ColumnsOf(fs: seq<Frame>): set<string> {
    if fs == [] then {} else ColumnsOf(fs[..|fs| - 1]) + ColumnSet(fs[|fs| - 1].columns)
  }

  lemma {:induction false} AllColumnsSet(fs: seq<Frame>)
    ensures ColumnSet(AllColumns(fs)) == ColumnsOf(fs)
  {
    if fs != [] {
      AllColumnsSet(fs[..|fs| - 1]);
    }
  }

  lemma {:induction false} ColumnsOfHas(fs: seq<Frame>, j: nat, c: string)
    requires j < |fs| && c in fs[j].columns
    ensures c in ColumnsOf(fs)
  {
    if j < |fs| - 1 {
      ColumnsOfHas(fs[..|fs| - 1], j, c);
    }
  }

  // ---------------------------------------------------------------------
  // Rows of the concatenation
  // ---------------------------------------------------------------------

  /** A row laid out over the given columns: a column the row has keeps its
      cell, any other column is null. */
  function Reindex(r: Row, cols: seq<string>): (s: Row)
    ensures s.Keys == ColumnSet(cols)
  {
    map c | c in ColumnSet(cols) :: At(r, c)
  }

  /** How many rows the frames hold together. */
  function RowTotal(fs: seq<Frame>): nat {
    if fs == [] then 0 else RowTotal(fs[..|fs| - 1]) + |fs[|fs| - 1].rows|
  }

  /** The rows of all frames one after another, each laid out over cols. */
  function ConcatRows(fs: seq<Frame>, cols: seq<string>): (rows: seq<Row>)
    ensures |rows| == RowTotal(fs)
    ensures forall k | 0 <= k < |rows| :: rows[k].Keys == ColumnSet(cols)
  {
    if fs == [] then []
    else
      var last := fs[|fs| - 1];
      ConcatRows(fs[..|fs| - 1], cols) + seq(|last.rows|, m requires 0 <= m < |last.rows| => Reindex(last.rows[m], cols))
  }

  lemma RowTotalPrefix(fs: seq<Frame>, j: nat)
    requires j < |fs|
    ensures RowTotal(fs[..j + 1]) == RowTotal(fs[..j]) + |fs[j].rows|
  {
    assert fs[..j + 1][..j] == fs[..j];
  }

  lemma {:induction false} RowTotalMonotone(fs: seq<Frame>, j: nat)
    requires j <= |fs|
    ensures RowTotal(fs[..j]) <= RowTotal(fs)
  {
    if j < |fs| {
      var init := fs[..|fs| - 1];
      assert fs[..j] == init[..j];
      RowTotalMonotone(init, j);
      assert fs == init + [fs[|fs| - 1]];
    } else {
      assert fs[..j] == fs;
    }
  }

  /** Row m of frame j sits at position RowTotal(fs[..j]) + m. */
  lemma {:induction false} ConcatRowsAt(fs: seq<Frame>, cols: seq<string>, j: nat, m: nat)
    requires j < |fs| && m < |fs[j].rows|
    ensures RowTotal(fs[..j]) + m < |ConcatRows(fs, cols)|
    ensures ConcatRows(fs, cols)[RowTotal(fs[..j]) + m] == Reindex(fs[j].rows[m], cols)
  {
    var n := |fs| - 1;
    var init := fs[..n];
    if j < n {
      assert init[..j] == fs[..j];
      ConcatRowsAt(init, cols, j, m);
      RowTotalPrefix(fs, j);
      RowTotalMonotone(init, j + 1);
      assert init[..j + 1] == fs[..j + 1];
    } else {
      assert init == fs[..j];
    }
  }

  /** The frame that row k of the concatenation comes from. */
  function FrameOf(fs: seq<Frame>, k: nat): (j: nat)
    requires k < RowTotal(fs)
    ensures j < |fs|
    ensures RowTotal(fs[..j]) <= k < RowTotal(fs[..j]) + |fs[j].rows|
  {
    var n := |fs| - 1;
    if k >= RowTotal(fs[..n]) then
      RowTotalPrefix(fs, n);
      assert fs[..n + 1] == fs;
      n
    else
      var j := FrameOf(fs[..n], k);
      assert fs[..n][..j] == fs[..j];
      assert fs[..n][j] == fs[j];
      j
  }

  /** pd.concat(frames, ignore_index=True): ValueError when there is nothing
      to concatenate. */
  function ConcatFrames(fs: seq<Frame>): (r: Result<Frame, Error>)
    ensures r.Err? <==> fs == []
    ensures r.Err? ==> r.error == NoObjectsToConcatenate
    ensures r.Ok? ==> |r.value.rows| == RowTotal(fs)
  {
    if fs == [] then Err(NoObjectsToConcatenate)
    else
      var cols := AllColumns(fs);
      Ok(Frame(cols, ConcatRows(fs, cols)))
  }

  // ---------------------------------------------------------------------
  // Tagging each sheet with its name
  // ---------------------------------------------------------------------

  /** df_hoja['fuente_encuesta'] = nombre_hoja: every row gets the sheet's
      name in the provenance column, which is appended when the sheet does
      not already have it. */
  function WithSource(name: string, sheet: Frame): (g: Frame)
    ensures |g.rows| == |sheet.rows|
    ensures Fuente in g.columns
    ensures ColumnSet(g.columns) == ColumnSet(sheet.columns) + {Fuente}
    ensures Distinct(sheet.columns) ==> Distinct(g.columns)
    ensures forall m | 0 <= m < |sheet.rows| :: g.rows[m] == sheet.rows[m][Fuente := Some(Str(name))]
  {
    var cols := if Fuente in sheet.columns then sheet.columns else sheet.columns + [Fuente];
    Frame(cols, seq(|sheet.rows|, m requires 0 <= m < |sheet.rows| => sheet.rows[m][Fuente := Some(Str(name))]))
  }

  /** The list of tagged sheets the consolidation loop builds. */
  function Tagged(book: Workbook): (fs: seq<Frame>)
    ensures |fs| == |book|
    ensures forall j | 0 <= j < |book| :: fs[j] == WithSource(book[j].name, book[j].table)
  {
    if book == [] then [] else Tagged(book[..|book| - 1]) + [WithSource(book[|book| - 1].name, book[|book| - 1].table)]
  }

  /** The consolidated table. */
  function Consolidated(book: Workbook): Result<Frame, Error> {
    ConcatFrames(Tagged(book))
  }

  /** How many rows the sheets hold together. */
  function SheetRows(book: Workbook): nat {
    if book == [] then 0 else SheetRows(book[..|book| - 1]) + |book[|book| - 1].table.rows|
  }

  /** The union of the sheets' column sets. */
  function SheetColumns(book: Workbook): set<string> {
    if book == [] then {} else SheetColumns(book[..|book| - 1]) + ColumnSet(book[|book| - 1].table.columns)
  }

  lemma {:induction false} TaggedTotals(book: Workbook)
    ensures RowTotal(Tagged(book)) == SheetRows(book)
    ensures ColumnsOf(Tagged(book)) == if book == [] then {} else SheetColumns(book) + {Fuente}
  {
    if book != [] {
      var init := book[..|book| - 1];
      TaggedTotals(init);
      assert Tagged(book)[..|book| - 1] == Tagged(init);
    }
  }

  lemma TaggedPrefix(book: Workbook, j: nat)
    requires j <= |book|
    ensures Tagged(book)[..j] == Tagged(book[..j])
  {
  }

  /** Consolidation neither loses nor invents rows: an empty workbook is an
      error, and otherwise the table has as many rows as the sheets together
      and as columns the union of theirs plus the provenance column. */
  lemma ConsolidatedShape(book: Workbook)
    ensures Consolidated(book).Err? <==> book == []
    ensures Consolidated(book).Ok? ==> |Consolidated(book).value.rows| == SheetRows(book)
    ensures Consolidated(book).Ok? ==>
      ColumnSet(Consolidated(book).value.columns) == SheetColumns(book) + {Fuente}
  {
    TaggedTotals(book);
    AllColumnsSet(Tagged(book));
  }

  /** Sheets as read are well formed, and so is their consolidation. */
  lemma ConsolidatedWellFormed(book: Workbook)
    requires forall j | 0 <= j < |book| :: WellFormed(book[j].table)
    requires book != []
    ensures WellFormed(Consolidated(book).value)
  {
  }

  /** A tagged sheet row laid out over columns that include all of the
      sheet's: its name, its own cells, and null elsewhere. */
  lemma ReindexedSheetRow(name: string, sheet: Frame, m: nat, cols: seq<string>)
    requires WellFormed(sheet) && m < |sheet.rows|
    requires Fuente in cols && forall c | c in sheet.columns :: c in cols
    ensures var row := Reindex(WithSource(name, sheet).rows[m], cols);
      && At(row, Fuente) == Some(Str(name))
      && (forall c | c in sheet.columns && c != Fuente :: At(row, c) == sheet.rows[m][c])
      && (forall c | c !in sheet.columns && c != Fuente :: At(row, c) == None)
  {
    assert sheet.rows[m].Keys == ColumnSet(sheet.columns);
  }

  /** Row m of frame j of a concatenation is that row laid out over all
      columns, at position RowTotal(fs[..j]) + m. */
  lemma ConcatFramesAt(fs: seq<Frame>, j: nat, m: nat)
    requires j < |fs| && m < |fs[j].rows|
    ensures ConcatFrames(fs).Ok?
    ensures RowTotal(fs[..j]) + m < |ConcatFrames(fs).value.rows|
    ensures ConcatFrames(fs).value.rows[RowTotal(fs[..j]) + m] == Reindex(fs[j].rows[m], AllColumns(fs))
  {
    ConcatRowsAt(fs, AllColumns(fs), j, m);
  }

  /** The consolidated rows before those of sheet j are exactly the rows of
      the sheets before it. */
  lemma OffsetIsRowsBefore(book: Workbook, j: nat)
    requires j <= |book|
    ensures Offset(book, j) == SheetRows(book[..j])
  {
    TaggedPrefix(book, j);
    TaggedTotals(book[..j]);
  }

  /** How many consolidated rows come before those of sheet j: the rows of
      the sheets before it (OffsetIsRowsBefore). */
  function Offset(book: Workbook, j: nat): nat
    requires j <= |book|
  {
    RowTotal(Tagged(book)[..j])
  }

  /** Row m of sheet j is its tagged row laid out over all columns, at
      position Offset(book, j) + m. */
  lemma ConsolidatedRowIs(book: Workbook, j: nat, m: nat)
    requires j < |book| && m < |Tagged(book)[j].rows|
    ensures Consolidated(book).Ok?
    ensures Offset(book, j) + m < |Consolidated(book).value.rows|
    ensures Consolidated(book).value.rows[Offset(book, j) + m]
         == Reindex(Tagged(book)[j].rows[m], AllColumns(Tagged(book)))
  {
    var fs := Tagged(book);
    assert Offset(book, j) == RowTotal(fs[..j]);
    ConcatFramesAt(fs, j, m);
  }

  /** Row m of sheet j lands at position Offset(book, j) + m and holds
      the sheet's name in the provenance column, the sheet's own cell in
      every other column the sheet has, and null in every column it lacks. */
  lemma ConsolidatedRow(book: Workbook, j: nat, m: nat)
    requires j < |book| && m < |book[j].table.rows|
    requires WellFormed(book[j].table)
    ensures Consolidated(book).Ok?
    ensures Offset(book, j) + m < |Consolidated(book).value.rows|
    ensures var row := Consolidated(book).value.rows[Offset(book, j) + m];
      && At(row, Fuente) == Some(Str(book[j].name))
      && (forall c | c in book[j].table.columns && c != Fuente :: At(row, c) == book[j].table.rows[m][c])
      && (forall c | c !in book[j].table.columns && c != Fuente :: At(row, c) == None)
  {
    var fs := Tagged(book);
    var cols := AllColumns(fs);
    ConsolidatedRowIs(book, j, m);
    AllColumnsSet(fs);
    ColumnsOfHas(fs, j, Fuente);
    forall c | c in book[j].table.columns
      ensures c in cols
    {
      ColumnsOfHas(fs, j, c);
    }
    ReindexedSheetRow(book[j].name, book[j].table, m, cols);
  }

  /** The sheet that row k of the consolidated table comes from. */
  function SheetOf(book: Workbook, k: nat): (j: nat)
    requires k < SheetRows(book)
    ensures j < |book|
    ensures Offset(book, j) <= k < Offset(book, j) + |book[j].table.rows|
  {
    TaggedTotals(book);
    FrameOf(Tagged(book), k)
  }

  /** Every consolidated row carries the name of the sheet it comes from. */
  lemma ConsolidatedProvenance(book: Workbook, k: nat)
    requires forall j | 0 <= j < |book| :: WellFormed(book[j].table)
    requires k < SheetRows(book)
    ensures Consolidated(book).Ok?
    ensures k < |Consolidated(book).value.rows|
    ensures At(Consolidated(book).value.rows[k], Fuente) == Some(Str(book[SheetOf(book, k)].name))
  {
    var j := SheetOf(book, k);
    ConsolidatedRow(book, j, k - Offset(book, j));
  }

  /** Rows from two sheets with different names never compare equal, so
      deduplication never merges them, whatever their other cells hold. */
  lemma RowsOfDistinctSheetsDiffer(book: Workbook, k1: nat, k2: nat)
    requires forall j | 0 <= j < |book| :: WellFormed(book[j].table)
    requires k1 < SheetRows(book) && k2 < SheetRows(book)
    requires book[SheetOf(book, k1)].name != book[SheetOf(book, k2)].name
    ensures Consolidated(book).Ok?
    ensures k1 < |Consolidated(book).value.rows| && k2 < |Consolidated(book).value.rows|
    ensures Consolidated(book).value.rows[k1] != Consolidated(book).value.rows[k2]
  {
    ConsolidatedProvenance(book, k1);
    ConsolidatedProvenance(book, k2);
  }
}

# Consolidating and cleaning the survey workbook

This project models `cargar_y_limpiar_datos` of `scr/limpieza.py` in Dafny
and proves properties of the model. The function reads every sheet of an
Excel workbook. It tags each sheet's rows with the sheet name in the
column `fuente_encuesta` and concatenates the sheets into one table. It then
cleans that table in four steps:

1. Nulls: `salario` nulls take the column median, `pregunta_abierta_1` nulls
   take `''`, and `sector_empresa` nulls take `'Desconocido'`.
2. Types: `salario` goes through `pd.to_numeric(errors='coerce')`, then a
   second median refill.
3. Duplicates: full-row duplicates are counted and, if there are any, dropped,
   keeping the first occurrence.
4. Text: `sector_empresa` is lower-cased.

Each column step runs only when its column is present.

The model works on values. A table is `Frames.Frame`: a column list and a
sequence of rows. A row maps each column name to an optional cell. A cell is
a number (an exact `real`) or text, and a null is `None`.

Modules:

- `Consolidation`: the sheet tagging and `pd.concat`.
- `Frames`: fillna, median, to_numeric, str.lower and column assignment.
- `Numeric`: the number parser, the sort and the median.
- `Text`: lower-casing.
- `Duplicates`: `duplicated` and `drop_duplicates` with `keep='first'`.
- `Limpieza`: the steps, and the function as a method.
  - `Limpieza.Consolidar` builds the list of tagged sheets with a loop, as the
    source does.
  - `Limpieza.CargarYLimpiarDatos` reassigns one table variable step by step,
    in source order.
  - The pandas exceptions the steps can raise are `Err` results.
- `Escenarios`: worked cases, the two orderings the source fixes, and the
  finding below.

## Model

| member | source | states |
|---|---|---|
| Consolidation.WithSource | scr/limpieza.py:22 | tagging a sheet keeps its row count, adds `fuente_encuesta` to its columns (once), and sets that cell of every row to the sheet name, leaving the other cells as they were |
| Consolidation.Tagged | scr/limpieza.py:19-23 | the list has one tagged frame per sheet, in workbook order |
| Consolidation.UnionColumns | scr/limpieza.py:26 | concatenated columns are the union of both lists, keep the first list as a prefix and repeat no name |
| Consolidation.ConcatFrames | scr/limpieza.py:26 | `pd.concat` fails exactly on an empty list (ValueError) and otherwise has as many rows as the frames together |
| Consolidation.ConcatRowsAt | scr/limpieza.py:26 | row m of frame j sits at position (rows of frames before j) + m, laid out over all columns |
| Consolidation.ConsolidatedShape | scr/limpieza.py:20-26 | consolidation fails iff the workbook is empty; otherwise rows = sum of the sheets' rows and columns = union of the sheets' columns plus `fuente_encuesta` |
| Consolidation.ConsolidatedWellFormed | scr/limpieza.py:26 | every consolidated row has exactly the consolidated columns, each named once |
| Consolidation.OffsetIsRowsBefore | scr/limpieza.py:26 | the rows before sheet j's rows are exactly the rows of the sheets before j (sheet order is kept) |
| Consolidation.ConsolidatedRow | scr/limpieza.py:20-26 | row m of sheet j lands at offset(j) + m with the sheet's name in `fuente_encuesta`, its own cell in every column the sheet has, and null in every column it lacks |
| Consolidation.SheetOf | scr/limpieza.py:20-26 | gives, for each consolidated row position, a sheet whose block of rows contains it |
| Consolidation.ConsolidatedProvenance | scr/limpieza.py:22-26 | every consolidated row carries the name of the sheet it came from |
| Consolidation.RowsOfDistinctSheetsDiffer | scr/limpieza.py:22 | rows of two sheets with different names are never equal, whatever their data |
| Limpieza.Consolidar | scr/limpieza.py:17-26 | the loop over the sheets followed by concat yields exactly the consolidated table |
| Frames.SetColumn | scr/limpieza.py:43 | `df[c] = col` replaces column c by col and leaves every other cell, the columns and the row count unchanged |
| Frames.SetColumnSame | scr/limpieza.py:43 | writing a column back unchanged leaves the table unchanged |
| Frames.SameOutsideColumn | scr/limpieza.py:43 | a table changed only in column c has every other column unchanged |
| Frames.FillNa | scr/limpieza.py:43 | fillna keeps non-null values, sets nulls to the fill value, and leaves no null when that value is not NaN |
| Frames.FillColumn | scr/limpieza.py:43 | the column fill changes only that column, and a NaN fill changes nothing |
| Frames.MedianAsRead | scr/limpieza.py:41 | the step-1 median raises TypeError iff some non-null salary does not convert; otherwise it is the median of the converted values, NaN iff no salary has a value |
| Frames.Converted | scr/limpieza.py:41 | no numbers are taken iff every value is null or does not convert |
| Frames.ToNumeric | scr/limpieza.py:65 | `to_numeric(errors='coerce')` leaves numbers and nulls only; a value is null exactly where the input was null or does not convert, and otherwise it is the number the input converts to; the coerced column holds the same numbers as the input and has no value that fails to convert |
| Frames.ToNumericIdempotent | scr/limpieza.py:65 | coercing a coerced column changes nothing |
| Frames.StrLower | scr/limpieza.py:94 | `.str.lower()` raises AttributeError iff the column has a value and every value is a number; otherwise every value is lower-case text or null, null exactly where the input was null or a number, and each text is the input text lower-cased |
| Frames.StrLowerIdempotent | scr/limpieza.py:94 | after `.str.lower()` every value is lower-case text or null, and a second `.str.lower()` changes nothing |
| Numeric.ParseFormatInt | scr/limpieza.py:65 | an integer written as text, sign included, converts back to that integer |
| Numeric.Median | scr/limpieza.py:41 | the median is undefined (NaN) iff there are no values |
| Numeric.MedianSplitsValues | scr/limpieza.py:41 | at least half the values lie at or below the median, and at least half at or above |
| Numeric.MedianOrderFree | scr/limpieza.py:41 | the median depends only on the multiset of values, not their order |
| Numeric.MedianOfTwo | scr/limpieza.py:41 | the median of two values is their mean |
| Numeric.Sort | scr/limpieza.py:41 | the sorted values are ascending and a permutation of the input |
| Text.Lower | scr/limpieza.py:94 | lower-casing keeps the length, maps each character by its lower-case form and leaves no upper-case letter |
| Text.LowerIdempotent | scr/limpieza.py:94 | lower-casing twice equals lower-casing once |
| Text.LowerDesconocido | scr/limpieza.py:54 | the sentinel `Desconocido` becomes `desconocido` |
| Duplicates.DropDuplicates | scr/limpieza.py:85 | every kept row is an input row, every input row is kept once, and no two kept rows are equal |
| Duplicates.DropDuplicatesCount | scr/limpieza.py:81-85 | the rows removed are exactly those `duplicated()` counts, and one row stays per distinct row |
| Duplicates.DropDuplicatesKeepsFirstOrder | scr/limpieza.py:85 | kept rows appear in the order of their first occurrences |
| Duplicates.DistinctUnchanged | scr/limpieza.py:81-85 | with no duplicates, `duplicated().sum()` is 0 and nothing is dropped |
| Duplicates.NothingFlaggedNothingDropped | scr/limpieza.py:84 | a zero duplicate count means the table is left as is |
| Duplicates.DropDuplicatesIdempotent | scr/limpieza.py:85 | dropping duplicates twice equals dropping them once |
| Limpieza.FillSalario | scr/limpieza.py:40-43 | step 1 on `salario`: an absent column is unchanged; the step fails iff some salary does not convert; otherwise non-nulls stay, nulls become the median, other columns stay, and no null remains when any salary had a value (all stay null otherwise) |
| Limpieza.FillText | scr/limpieza.py:47-54 | a text fill on a present column leaves no null, keeps non-null values and touches nothing else; an absent column leaves the table unchanged |
| Limpieza.FillSalarioConverted | scr/limpieza.py:40-43 | after step 1 some salary converts iff the consolidated column had any value |
| Limpieza.CoerceSalario | scr/limpieza.py:63-68 | step 2 never fails: salaries that convert keep their number, nulls and non-numbers become the median of the convertible ones, so all are numbers when one converts and all null otherwise; an absent column is unchanged |
| Limpieza.CoercedMedian | scr/limpieza.py:65-67 | the median after coercion cannot fail and is the median of the convertible salaries |
| Limpieza.CoercedRefillValues | scr/limpieza.py:65-68 | coercion then refill keeps convertible salaries and gives the rest the median |
| Limpieza.CoercedRefillNumeric | scr/limpieza.py:65-68 | coercion then refill leaves only numbers when some salary converts, only nulls otherwise |
| Limpieza.Deduplicate | scr/limpieza.py:81-85 | step 3 keeps the columns and removes exactly the counted duplicates; the result has no equal rows and the same set of rows |
| Limpieza.DeduplicateKeepsFirstOrder | scr/limpieza.py:81-85 | step 3 keeps first occurrences in input order |
| Limpieza.DeduplicateIdempotent | scr/limpieza.py:81-85 | step 3 run twice equals step 3 run once |
| Limpieza.DeduplicateColumn | scr/limpieza.py:81-85 | step 3 neither invents nor loses a value of any column |
| Limpieza.DeduplicateKeepsKind | scr/limpieza.py:81-85 | a column of numbers only, of nulls only, or without nulls stays so through step 3 |
| Limpieza.DeduplicateOnlyNumbers | scr/limpieza.py:81-94 | step 3 does not change whether the sector column holds only numbers |
| Limpieza.LowerSector | scr/limpieza.py:93-94 | step 4: an absent column is unchanged; it fails iff the sectors are all numbers; otherwise it changes only `sector_empresa`, keeps the row count, and lower-cases the text |
| Limpieza.LowerSectorIdempotent | scr/limpieza.py:93-94 | step 4 run twice equals step 4 run once |
| Limpieza.FillSectorOnlyNumbers | scr/limpieza.py:53-54 | after the sector fill the sectors are all numbers iff the table has rows and every sector was a number |
| Limpieza.OnlyNumbersSameValues | scr/limpieza.py:94 | two columns with the same values agree on whether `.str` refuses them |
| Limpieza.UntouchedColumn | scr/limpieza.py:40-68 | steps 1 and 2 leave every column other than the three cleaned ones as consolidated |
| Limpieza.SectorStage | scr/limpieza.py:53-94 | step 4 fails exactly when the consolidated sectors were all numbers |
| Limpieza.SalarioCoerced | scr/limpieza.py:40-68 | after step 2 every salary is a number if the consolidated column had any value, and null otherwise |
| Limpieza.SalarioStage | scr/limpieza.py:40-85 | the same holds after step 3 |
| Limpieza.PreguntaStage | scr/limpieza.py:47-85 | after step 3 no free-text answer is null |
| Limpieza.FuenteStage | scr/limpieza.py:22-85 | the cleaned table names exactly the sheets the consolidated table names |
| Limpieza.CleanedStages | scr/limpieza.py:5-105 | the table returned after step 4 is `Cleaned` |
| Limpieza.Rellenado | scr/limpieza.py:40-68 | steps 1 and 2 fail iff a consolidated salary does not convert; otherwise they keep the columns and the row count |
| Limpieza.Limpiar | scr/limpieza.py:40-94 | the four steps in source order fail iff a salary does not convert (TypeError) or else the sectors are all numbers (AttributeError); otherwise the columns stay, the row count is the rows less the duplicates counted after step 2, and row k is the k-th row deduplication keeps, changed in the sector alone |
| Limpieza.SalarioRow | scr/limpieza.py:40-68 | after steps 1 and 2 a salary that converts is its number, and a null salary is the median of the salaries |
| Limpieza.OtherRow | scr/limpieza.py:40-68 | after steps 1 and 2 a column no step writes holds the consolidated cell of the same row |
| Limpieza.PreguntaRow | scr/limpieza.py:47-48 | after steps 1 and 2 a null answer is the empty text and any other answer is as it was |
| Limpieza.SectorRow | scr/limpieza.py:53-54 | after steps 1 and 2 a null sector is `Desconocido` and any other sector is as it was |
| Limpieza.RellenadoRow | scr/limpieza.py:40-68 | row i after steps 1 and 2 is consolidated row i with those three columns filled and coerced and every other column unchanged |
| Limpieza.LoweredSector | scr/limpieza.py:53-94 | a filled sector, lower-cased, is the text lower-cased, `desconocido` for a null, and null for a number |
| Limpieza.CleanedRowAt | scr/limpieza.py:81-94 | the cleaned row at k is the consolidated row that deduplication kept at k, cleaned |
| Limpieza.LimpiarRows | scr/limpieza.py:40-94 | every cleaned row is some consolidated row cleaned (salary its own number or the median, answers and sector filled, sector lower-cased, other cells unchanged), and every consolidated row, cleaned, is among the cleaned rows |
| Limpieza.CargarYLimpiarDatos | scr/limpieza.py:5-105 | the result is the four steps run in source order on the consolidated table (`Limpiar`); it fails with ValueError iff the workbook is empty, TypeError iff a consolidated salary does not convert, AttributeError iff (salary fine and) the consolidated sectors are all numbers; otherwise it has as many rows as the sheets less the duplicates found after step 2, every row is a consolidated row cleaned and every consolidated row, cleaned, is among them (`FilasLimpias`), and the table is `Cleaned` |
| Escenarios.FillSalarioWrites | scr/limpieza.py:40-43 | when every salary converts, step 1 writes the column filled with its median |
| Escenarios.MedianSkipsNull | scr/limpieza.py:41 | the median of `[a, null, b]` is the mean of a and b |
| Escenarios.FillSalarioBetweenTwo | scr/limpieza.py:40-43 | `[a, null, b]` becomes `[a, (a+b)/2, b]`, so `[10, null, 30]` becomes `[10, 20, 30]` |
| Escenarios.MissingSectorBecomesDesconocido | scr/limpieza.py:53-94 | a null sector ends as `desconocido`, and a text sector ends lower-cased |
| Escenarios.DeduplicateTwoDifferent | scr/limpieza.py:81-85 | two different rows both survive step 3 |
| Escenarios.DeduplicateKeepsDifferentSectors | scr/limpieza.py:81-85 | rows with different sectors are not duplicates |
| Escenarios.LowerMergesCaseVariants | scr/limpieza.py:93-94 | sectors differing only in case become equal rows after step 4 |
| Escenarios.SectoresLowered | scr/limpieza.py:93-94 | on a table of text sectors, step 4 lower-cases every row's sector |
| Escenarios.FillTextWithoutNulls | scr/limpieza.py:47-54 | a text fill on a column without nulls changes nothing |
| Escenarios.LimpiarKeepsCaseVariants | scr/limpieza.py:81-94 | the whole cleaning, in source order, keeps both rows of two sectors that differ only in case, and they come out equal |
| Escenarios.DeduplicateEqualPair | scr/limpieza.py:81-85 | of two equal rows step 3 keeps one |
| Escenarios.DeduplicateBeforeLower | scr/limpieza.py:81-94 | in source order (dedup, then lower) `Banca`/`banca` rows both survive as two equal rows; lower-casing first would keep one |
| Escenarios.BancaPair | scr/limpieza.py:94 | `Banca` and `banca` differ and lower-case to the same text |
| Escenarios.TwoSheetRows | scr/limpieza.py:20-26 | two one-row sheets give two rows, the first from the first sheet |
| Escenarios.SameRowOnTwoSheetsKept | scr/limpieza.py:22-85 | the same row on two differently named sheets is consolidated twice and step 3 keeps both |
| Escenarios.SalarioTextStopsStepOne | scr/limpieza.py:41 | step 1 fails with TypeError on a salary column `[a, s]` where s is text that is not a number |
| Escenarios.SalarioSinDatoStopsStepOne | scr/limpieza.py:41 | salaries `[10, "sin dato"]` make step 1 fail |
| Escenarios.FillSalarioCorregido | scr/limpieza.py:40-43 | the corrected step 1 never fails; non-nulls stay and nulls take the median of the convertible salaries |
| Escenarios.FillSalarioCorregidoAgrees | scr/limpieza.py:40-43 | wherever step 1 as written succeeds, the corrected one gives the same table |
| Escenarios.CorregidoThenCoerceNumeric | scr/limpieza.py:40-68 | with the corrected step 1, steps 1 and 2 leave every salary a number as soon as one converts |
| Escenarios.CoerceBesideText | scr/limpieza.py:63-68 | step 2 on `[a, s]` with s not a number gives `[a, a]` |
| Escenarios.CorregidoOnText | scr/limpieza.py:40-68 | with the corrected step 1, steps 1 and 2 turn a number a beside text that is not a number into `[a, a]`; for example `[10, "sin dato"]` becomes `[10, 10]` |

## Left out

- Reading the workbook with `pd.read_excel` (line 12) is not modelled. The
  workbook is the input: a sequence of named tables in workbook order.
  Sheet names are not required to be unique.
- `Consolidation.Workbook` is taken as already read, so it may hold text
  that `read_excel` would have read as null through its default NA strings
  (`""`, `"NA"`, `"N/A"`, `"n/a"`, `"nan"`, `"NaN"`, `"null"`, `"NULL"`,
  `"#N/A"` and the like). The model does not map such text to null; it
  treats it as text.
- The progress output (`print`, `df.info()`) is not modelled. It has no
  effect on the result.
- `astype('category')` (lines 73-75) is not modelled. It changes the dtype,
  not the values, and `.str.lower()` on a categorical gives the same values.
- The `__main__` block (lines 107-138) is not modelled. It is file-system
  lookup around the function.
- `df_hoja` is changed in place by line 22. The model gives the tagged sheet
  as a new value, so a caller holding the sheet objects would not see the
  column the source adds to them.
- Arithmetic uses exact reals. Float rounding of the median and of parsed
  numbers is not modelled.
- `Numeric.ParseNumber` reads an optional sign, ASCII digits and an optional
  fraction. The source converts text to numbers in two different ways: the
  step-1 median (line 41) uses Python's `float()`, and step 2 (line 65) uses
  `pd.to_numeric`. The model uses this one parser for both. `float()` also
  accepts exponents, surrounding spaces, `inf`/`nan` spellings, underscores
  between digits (`"1_000"`) and non-ASCII decimal digits; `to_numeric`
  accepts some of these and rejects underscores and non-ASCII digits. On text
  of those forms the model fails at step 1 where the source may not, and it
  cannot tell the two conversions apart.
- `Frames.MedianAsRead` follows pandas 1, which converts text that reads as a
  number. pandas 2 also raises TypeError on some of those columns. That
  stricter behaviour is not modelled.
- `Text.Lower` lower-cases `A`-`Z` and the Latin-1 capitals. Python's
  `str.lower` covers all of Unicode.
- The row index is not modelled. `ignore_index=True` renumbers the rows, and
  `drop_duplicates` leaves gaps in the index. Only the row order is kept.
- Booleans, dates and other cell types Excel can hold are not modelled. Cells
  are numbers or text.

## Findings

| source | as written | input that shows it | evidently intended | confidence | as-written member | corrected member |
|---|---|---|---|---|---|---|
| scr/limpieza.py:41 | the step-1 median of `salario` is taken before any coercion, so a salary held as text that is not a number raises TypeError and the whole function fails | a `salario` column `[10, "sin dato"]` | text salaries are left to the `to_numeric(errors='coerce')` step of lines 63-68, whose comment says it exists for such values; the median skips them, and the result is `[10, 10]` | medium (not executed) | Escenarios.SalarioSinDatoStopsStepOne | Escenarios.CorregidoOnText |

The as-written member is a concrete instance of
`Escenarios.SalarioTextStopsStepOne`. The corrected step is
`Escenarios.FillSalarioCorregido`. `Escenarios.FillSalarioCorregidoAgrees`
proves that it agrees with the as-written step wherever that step succeeds.
`Escenarios.CorregidoThenCoerceNumeric` proves the intended outcome for
every input: after steps 1 and 2, every salary is a number as soon as one
converts. The pipeline method `Limpieza.CargarYLimpiarDatos` models the code
as written.

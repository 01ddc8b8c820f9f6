# potato: the two merge loops, in Dafny

potato is a pair of console commands that move gettext translations between
per-language `.po` catalogs and one CSV table:

- **PoToCsvCommand** (export) folds N catalogs into one table keyed by original.
  - Originals and translations are trimmed first.
  - A new original gets a row at the end, and a missing cell is filled.
  - A differing value for the same (original, language) goes to `handleConflict`, and what it returns is stored.
  - The table is then flattened into rows under the header `original, <languages in load order>`.
- **CsvToPoCommand** (import) reads such a table back into the loaded catalogs.
  - The first non-empty row is the header.
  - In each later row, the first cell that is not `""` is the original.
  - Every later cell that is not empty in PHP's sense (`""` or `"0"`) is applied to the catalog its header column names. The entry is appended when the original is new and filled when its translation is empty.
  - A different non-empty translation is handed to `handleConflict`, whose answer is discarded, so the entry stays as it was.
  - A column that names no loaded catalog stops the run.

The model has these modules, one file each:

| module | file | what |
|---|---|---|
| `Wrappers` | wrappers.dfy | `Option`, `Result` |
| `Text` | text.dfy | PHP `trim()` with its default character list, and `empty()` on a string |
| `Sequences` | sequences.dfy | `Distinct`, and `FirstSeen` (de-duplication in order of first occurrence) |
| `Translations` | translations.dfy | catalog entries, the lookup `find`, the keyed append, the `Grows` relation (nothing deleted, nothing non-empty overwritten), the conflict record, and the `Catalog` class the import edits in place |
| `PoToCsv` | po_to_csv.dfy | the export: answer mapping, the merge as a fold (`Step`, `MergeEntries`, `MergeAll`, `Merge`), the imperative loops proved equal to it (`MergeEntry`, `MergeCatalogs`, `WriteRows`, `Convert`), rendering, and the properties of the merge |
| `CsvToPo` | csv_to_po.dfy | the import: answer mapping, the fold (`ApplyCell`, `CellStep`, `RowCells`, `ReadRows`, `ImportRows`), the imperative loops over `Catalog` objects proved equal to it (`ApplyCellTo`, `ImportCsv`), and the properties of the import |
| `RoundTrip` | round_trip.dfy | export followed by import, on rows: the rows the export renders, handed to the import as rows (not as a CSV file) |

How the model is shaped:

- The interactive prompt of `handleConflict` is a function parameter `ask` from (original, stored, incoming) to the typed answer.
  - The commands map that answer with `ConflictChoice`.
  - The export's fold is stated for any resolver `resolve`. The methods use `HandleConflict(ask)`.
- Every call of `handleConflict` is recorded, in order, in a conflict log. This makes "called once, with these arguments" and "never called" statements about values.

## Model

| member | source | states |
|---|---|---|
| Text.Trim | src/PoToCsvCommand.php:79-80 | the trimmed string has no blank (space, tab, newline, CR, NUL, vertical tab) at either end |
| Text.TrimStart | src/PoToCsvCommand.php:79-80 | the result is a suffix of the input that does not start with a blank |
| Text.TrimEnd | src/PoToCsvCommand.php:79-80 | the result is a prefix of the input that does not end with a blank |
| Text.TrimCutsBlanks | src/PoToCsvCommand.php:79-80 | trim removes only blanks: the result is a slice of the input preceded and followed by blanks alone |
| Text.TrimFixesTrimmed | src/PoToCsvCommand.php:79-80 | trimming changes a string exactly when it has a blank at an end |
| Text.TrimIdempotent | src/PoToCsvCommand.php:79-80 | trimming twice is trimming once |
| Text.IsBlank | src/PoToCsvCommand.php:79-80 | defines the characters `trim()` strips by default: space, tab, newline, carriage return, NUL and vertical tab (its consequences are the `Trim` rows above) |
| Text.PhpEmpty | src/CsvToPoCommand.php:90 | defines `empty()` on a string: true for `""` and `"0"` only; used by the import's skip (line 90) and fill (line 98) tests |
| Sequences.FirstSeen | src/PoToCsvCommand.php:82-85 | defines the row order of `$csvArray`: each original once, where it first occurs (proved to be the merged keys by `PoToCsv.RowKeys`) |
| Sequences.FirstSeenMembers | src/PoToCsvCommand.php:82-85 | the de-duplicated sequence has no repeats and the same elements as its input |
| Sequences.FirstIndex | src/PoToCsvCommand.php:82-85 | the position found holds the element and no earlier position does |
| Sequences.FirstSeenOrder | src/PoToCsvCommand.php:82-85 | de-duplication orders elements by their first occurrence |
| Sequences.FirstIndexPrefix | src/PoToCsvCommand.php:82-85 | extending a sequence at the end moves no first occurrence already present |
| Sequences.FirstSeenSnoc | src/PoToCsvCommand.php:82-85 | de-duplicating `s + [x]` appends `x` exactly when it is new |
| Translations.IndexOf | src/CsvToPoCommand.php:95 | `find` gives the first entry with that original, or none when no entry has it |
| Translations.Translation | src/CsvToPoCommand.php:95-98 | defines the translation a catalog holds for an original: that of the entry `find` returns, or none |
| Translations.Added | src/CsvToPoCommand.php:103-107 | after the add the original is found; an original already present leaves the catalog exactly as it was; an absent one is appended as the new last entry |
| Translations.IndexOfAppend | src/CsvToPoCommand.php:103-107 | appending moves no lookup of an original already present and finds the new entry for an absent one |
| Translations.IndexOfUpdate | src/CsvToPoCommand.php:100 | rewriting an entry in place with its original kept moves no lookup |
| Translations.TranslationAppendFresh | src/CsvToPoCommand.php:103-107 | appending an entry for an absent original adds exactly its translation and changes no other |
| Translations.Grows | src/CsvToPoCommand.php:94-107 | defines what the import may do to a catalog: every entry stays at its position with its original, and only a translation empty in PHP's sense may change (proved of the import by `CsvToPo.ImportGrows`) |
| Translations.GrowsKeepsFilled | src/CsvToPoCommand.php:95-98 | growing a catalog keeps every translation that `find` reaches and that is not empty in PHP's sense |
| Translations.GrowsTransitive | src/CsvToPoCommand.php:66-111 | "grown from" composes over several edits |
| Translations.Catalog.constructor | src/CsvToPoCommand.php:70 | a loaded catalog holds the given entries |
| Translations.Catalog.SetTranslation | src/CsvToPoCommand.php:100 | `setTranslation` rewrites the translation of one entry and nothing else |
| Translations.Catalog.Add | src/CsvToPoCommand.php:103-107 | the append leaves the catalog equal to the keyed add of the entry |
| PoToCsv.ConflictChoice | src/PoToCsvCommand.php:252-260 | answer "1" gives the incoming value, "2" the stored one, any other answer itself; never null |
| PoToCsv.HandleConflict | src/PoToCsvCommand.php:88-90 | defines the resolver the export uses: the prompt's answer for (original, stored, incoming), mapped by `ConflictChoice` |
| PoToCsv.HandleConflictTrimmed | src/PoToCsvCommand.php:252-260 | when every typed answer is trimmed, handleConflict turns trimmed values into a trimmed value |
| PoToCsv.Table.Cell | src/PoToCsvCommand.php:82-88 | defines `isset($csvArray[$original][$language])` and the value it guards |
| PoToCsv.SetCell | src/PoToCsvCommand.php:82-87 | a new original is appended to the row order; the cell is set to the value |
| PoToCsv.SetCellFrame | src/PoToCsvCommand.php:82-87 | setting a cell changes no other cell and keeps every row listed |
| PoToCsv.Step | src/PoToCsvCommand.php:82-91 | one entry adds its original at the end of the row order exactly when it has no row yet |
| PoToCsv.StepCells | src/PoToCsvCommand.php:82-91 | one entry touches only its own (original, language) cell, which is set afterwards, and keeps every row listed |
| PoToCsv.StepFills | src/PoToCsvCommand.php:86-87 | a missing cell takes the translation with no conflict |
| PoToCsv.StepConflict | src/PoToCsvCommand.php:88-91 | one entry raises at most one conflict: its original, its language, the stored value and its different translation |
| PoToCsv.StepCases | src/PoToCsvCommand.php:82-91 | a new original's row holds only this language's cell; a differing stored value is replaced by handleConflict's result for (original, stored, incoming) and logged once; an equal one changes nothing |
| PoToCsv.MergeEntries | src/PoToCsvCommand.php:77-93 | defines the inner loop as a fold of `Step` over one catalog's entries in order (proved equal to the loop by `PoToCsv.MergeCatalogs`) |
| PoToCsv.MergeAll | src/PoToCsvCommand.php:76-94 | defines the outer loop as a fold of `MergeEntries` over the catalogs in load order, from an empty table |
| PoToCsv.Trimmed | src/PoToCsvCommand.php:79-80 | trimming a catalog keeps its length |
| PoToCsv.TrimmedCatalogs | src/PoToCsvCommand.php:76-80 | every loaded language keeps its catalog, trimmed |
| PoToCsv.Merge | src/PoToCsvCommand.php:75-94 | defines the whole merge: every catalog, trimmed, folded in load order (its properties are the `MergeValid`, `RowKeys`, `MergeConflicts` and `NoConflictsWithoutRepeats` rows) |
| PoToCsv.MergeEntry | src/PoToCsvCommand.php:79-91 | the loop body, with its three branches, is one step of the fold on the trimmed entry with handleConflict as resolver |
| PoToCsv.MergeCatalogs | src/PoToCsvCommand.php:75-94 | the nested loops build exactly the fold of every trimmed catalog in load order |
| PoToCsv.EntriesValid | src/PoToCsvCommand.php:76-93 | merging one catalog keeps every original listed with a row |
| PoToCsv.MergeValid | src/PoToCsvCommand.php:75-94 | the merged table lists every original it has a row for, and only those |
| PoToCsv.Header | src/PoToCsvCommand.php:101-102 | defines the header: `original`, then the language keys in load order |
| PoToCsv.Row | src/PoToCsvCommand.php:108-115 | defines one data row: per header column, the original, the cell, or `""` when the cell is not set |
| PoToCsv.Render | src/PoToCsvCommand.php:101-117 | one row per original plus the header `original, langs`; every row as wide as the header, the original first, then each language's cell or "" when it is missing |
| PoToCsv.WriteRows | src/PoToCsvCommand.php:101-117 | the loops writing the header and the rows produce exactly the rendered rows |
| PoToCsv.Convert | src/PoToCsvCommand.php:75-117 | the export's rows and conflicts are the rendering and the log of the merge |
| PoToCsv.TrimmedCatalogsTrimmed | src/PoToCsvCommand.php:79-80 | every trimmed catalog entry has no blank at either end |
| PoToCsv.OriginalsSnoc | src/PoToCsvCommand.php:82-85 | the originals seen grow by one entry per step |
| PoToCsv.KeysStep | src/PoToCsvCommand.php:82-85 | one step keeps the row order equal to the first-seen order of the originals seen |
| PoToCsv.EntriesKeysFirstSeen | src/PoToCsvCommand.php:82-85 | merging one catalog keeps the row order equal to first-seen order |
| PoToCsv.KeysFirstSeen | src/PoToCsvCommand.php:76-85 | the rows are the originals of all catalogs, each once, in first-seen order, catalog after catalog |
| PoToCsv.AllOriginalsTrimmed | src/PoToCsvCommand.php:79-80 | the originals of trimmed catalogs are all trimmed |
| PoToCsv.RowKeys | src/PoToCsvCommand.php:79-85 | the exported rows are the trimmed originals in first-seen order, no two rows share an original, and none has a blank at either end |
| PoToCsv.ColumnIsolation | src/PoToCsvCommand.php:76-93 | merging the catalog of one language changes no cell of any other column |
| PoToCsv.EntriesConflicts | src/PoToCsvCommand.php:88-91 | merging one catalog only appends to the log, and each conflict is about that language, names one of its entries, and has a different stored value |
| PoToCsv.RaisedByExtend | src/PoToCsvCommand.php:76-93 | the conflicts of one more catalog keep the log attributed to the catalogs merged so far |
| PoToCsv.ConflictsFromOwnCatalog | src/PoToCsvCommand.php:76-93 | after the first `n` catalogs every conflict belongs to one of them and was raised by its own entries |
| PoToCsv.MergeConflicts | src/PoToCsvCommand.php:75-94 | every conflict names a loaded language, and its original and incoming value are an entry of that language's trimmed catalog (the stored value may be an earlier answer typed at the prompt) |
| PoToCsv.MatchStep | src/PoToCsvCommand.php:82-87 | an entry for an original the column does not hold yet is stored as it is, with no conflict |
| PoToCsv.DistinctFresh | src/PoToCsvCommand.php:82-87 | in a catalog with no repeated original, no entry's original occurs before it |
| PoToCsv.EntriesMatch | src/PoToCsvCommand.php:82-91 | a catalog with no repeated original, merged into an empty column, raises no conflict and leaves the column equal to its translations |
| PoToCsv.MatchesStep | src/PoToCsvCommand.php:76-93 | one more catalog fills its own empty column and no other |
| PoToCsv.MergeMatchesCatalogs | src/PoToCsvCommand.php:75-94 | with no repeated original inside a catalog, the first `n` columns are exactly their catalogs and the rest are empty |
| PoToCsv.NoConflictsWithoutRepeats | src/PoToCsvCommand.php:75-94 | with no repeated trimmed original inside a catalog, handleConflict is never called and each column holds exactly its language's trimmed translations |
| PoToCsv.StepCellsTrimmed | src/PoToCsvCommand.php:79-91 | a step keeps every cell trimmed when the resolver keeps trimmed values trimmed |
| PoToCsv.EntriesCellsTrimmed | src/PoToCsvCommand.php:79-91 | merging one trimmed catalog keeps every cell trimmed |
| PoToCsv.MergeCellsTrimmed | src/PoToCsvCommand.php:75-94 | merging trimmed catalogs leaves every cell trimmed |
| PoToCsv.CellsAreTrimmed | src/PoToCsvCommand.php:79-91 | when every typed answer is trimmed, no cell of the export has a blank at either end; the condition is needed because line 259 stores the answer verbatim, and whether the prompt trims what the user types depends on the console library, outside this model |
| CsvToPo.ConflictChoice | src/CsvToPoCommand.php:288-298 | answer "1" gives the incoming value, "2" the stored one, "3" nothing (skip), any other answer itself |
| CsvToPo.ColumnLanguage | src/CsvToPoCommand.php:94 | defines the catalog key of column `j`: `$header[$j]`, which is `""` past the header's end |
| CsvToPo.ApplyCell | src/CsvToPoCommand.php:94-107 | applying a value fails exactly when no catalog is loaded for its column; otherwise the log grows by at most one conflict (its full effect is `CsvToPo.ApplyCellEffect`) |
| CsvToPo.CellStep | src/CsvToPoCommand.php:84-107 | the first cell that is not `""` becomes the row's original and later cells keep it; a cell fails only when it is a non-empty value for a column with no loaded catalog |
| CsvToPo.RowCells | src/CsvToPoCommand.php:84-110 | defines the cell loop as a fold of `CellStep` over the row, stopping at the first failure (its properties are the `RowCells*` rows below) |
| CsvToPo.ReadRows | src/CsvToPoCommand.php:77-111 | defines the row loop: the first non-empty row is the header, every later row has its cells read |
| CsvToPo.ImportRows | src/CsvToPoCommand.php:73-111 | defines the whole import from loaded catalogs and an empty log (its properties are `ImportGrows`, `CatalogWithoutColumnUnchanged` and `ImportTwice`) |
| CsvToPo.FillEffect | src/CsvToPoCommand.php:97-101 | filling an empty translation grows the catalog, sets that original's translation and moves no other |
| CsvToPo.AddEffect | src/CsvToPoCommand.php:103-107 | adding (original, cell) when the original is absent grows the catalog, sets its translation and moves no other |
| CsvToPo.ApplyCellEffect | src/CsvToPoCommand.php:94-107 | a cell fails exactly when no catalog is loaded for its column; otherwise only that catalog changes and it grows; a different non-empty translation raises one conflict and stays; in every other case the original now translates as the cell: an absent original gets exactly one entry appended, an empty translation is filled in place, and an equal one leaves the catalog as it was |
| CsvToPo.ExtendsTransitive | src/CsvToPoCommand.php:66-111 | "extended by" composes over several cells and rows |
| CsvToPo.CellStepExtends | src/CsvToPoCommand.php:83-107 | one cell keeps the languages, deletes nothing, overwrites nothing non-empty, and only appends to the log |
| CsvToPo.CellStepExtendsFrom | src/CsvToPoCommand.php:83-107 | one more cell keeps the import extended from where it started |
| CsvToPo.RowCellsExtends | src/CsvToPoCommand.php:83-108 | the same for a row |
| CsvToPo.ReadRowsExtends | src/CsvToPoCommand.php:77-110 | the same for any number of rows |
| CsvToPo.ImportGrows | src/CsvToPoCommand.php:66-111 | a successful import keeps the loaded languages; no entry is removed or moved, no catalog shrinks, and a translation changes only where it was empty |
| CsvToPo.FirstFilled | src/CsvToPoCommand.php:83-88 | the original's position: every earlier cell is "" and the cell there is not |
| CsvToPo.RowUpToOriginal | src/CsvToPoCommand.php:83-88 | the cells up to and including the original write nothing, and the original is never itself written as a translation |
| CsvToPo.RowOriginalKept | src/CsvToPoCommand.php:83-88 | once read, the original stays the row's key |
| CsvToPo.RowWithoutValues | src/CsvToPoCommand.php:83-92 | a row whose cells after the original are all empty changes nothing |
| CsvToPo.HeaderRow | src/CsvToPoCommand.php:77-81 | the first non-empty row becomes the header and contributes no entries |
| CsvToPo.EmptyRows | src/CsvToPoCommand.php:77-81 | empty rows before the header change nothing |
| CsvToPo.RowCellsKeep | src/CsvToPoCommand.php:83-107 | a row with no non-empty cell under a language's column leaves that catalog as it is |
| CsvToPo.ReadRowsKeep | src/CsvToPoCommand.php:77-110 | the same over the data rows, with the header fixed |
| CsvToPo.ImportTwice | src/CsvToPoCommand.php:73-111 | importing the same table a second time, into the catalogs the first import produced, succeeds and changes no catalog, whatever is answered at the prompts |
| CsvToPo.ReadRowsTwice | src/CsvToPoCommand.php:77-111 | rows read again into catalogs the first reading has grown into succeed, take the same header and leave those catalogs as they were |
| CsvToPo.RowCellsTwice | src/CsvToPoCommand.php:84-110 | a row read again into catalogs the first reading has grown into succeeds, ends with the same original and leaves those catalogs as they were |
| CsvToPo.ApplyCellFills | src/CsvToPoCommand.php:94-107 | after a non-empty cell is applied, its original is translated with a value not empty in PHP's sense |
| CsvToPo.ApplyCellSettled | src/CsvToPoCommand.php:94-107 | a cell for an original already translated with a value not empty in PHP's sense succeeds and changes no catalog: a different value is a discarded conflict, an equal one a keyed add of an entry already there |
| CsvToPo.CatalogWithoutColumnUnchanged | src/CsvToPoCommand.php:66-111 | a catalog whose column holds no non-empty cell is left exactly as loaded |
| CsvToPo.ApplyCellTo | src/CsvToPoCommand.php:94-107 | editing the catalog objects in place gives the catalogs and log of `ApplyCell`; on a missing catalog nothing changes |
| CsvToPo.ImportCsv | src/CsvToPoCommand.php:73-111 | the nested loops over rows and cells, on catalog objects edited in place, end with the catalogs and conflicts of the fold, or its error |
| CsvToPo.RowCellsNext | src/CsvToPoCommand.php:84-110 | reading one more cell of a row is one step of the cell loop |
| CsvToPo.ReadRowsNext | src/CsvToPoCommand.php:77-111 | reading one more row either takes it as the header or reads its cells |
| CsvToPo.RowCellsFailure | src/CsvToPoCommand.php:94 | a fatal error ends the row |
| CsvToPo.ReadRowsFailure | src/CsvToPoCommand.php:94 | a fatal error ends the run |
| RoundTrip.ChoicesAgree | src/CsvToPoCommand.php:288-298 | the two prompts map every answer but "3" to the same value |
| RoundTrip.ColumnFresh | src/CsvToPoCommand.php:103-107 | an original in none of the rows read is in no column yet |
| RoundTrip.ColumnTranslation | src/CsvToPoCommand.php:90-107 | a column translates the original of each row as that row's cell, unless the cell is empty |
| RoundTrip.AdvanceColumn | src/CsvToPoCommand.php:94-107 | reading one cell changes only its own language's catalog |
| RoundTrip.CellStepImports | src/CsvToPoCommand.php:90-107 | on rows in the export's shape, an empty cell is skipped and any other is appended to its column with no conflict |
| RoundTrip.EmptyCellImports | src/CsvToPoCommand.php:90-92 | an empty cell leaves every column as it is |
| RoundTrip.FilledCellImports | src/CsvToPoCommand.php:103-107 | a non-empty cell with a fresh original is appended to its column |
| RoundTrip.RowCellsImport | src/CsvToPoCommand.php:83-108 | a data row updates the columns one after another |
| RoundTrip.ReadRowsImport | src/CsvToPoCommand.php:77-110 | after the header and `n` data rows every column holds the entries of those rows |
| RoundTrip.ImportExportShaped | src/CsvToPoCommand.php:73-111 | rows in the export's shape, imported into empty catalogs, raise no conflict, and each catalog is exactly its column's non-empty cells in row order |
| RoundTrip.Kept | src/CsvToPoCommand.php:90-92 | defines the value the import writes back for a cell: a present value not empty in PHP's sense; used by `ImportRendered` and `ExportThenImport`, which prove it is what the import gives back |
| RoundTrip.AllOriginalsFilled | src/PoToCsvCommand.php:79-85 | when no trimmed original is "", no original of the merge is "" |
| RoundTrip.MergedKeys | src/PoToCsvCommand.php:75-94 | the merged table's keys are listed, distinct, and never "" |
| RoundTrip.RenderIsShaped | src/PoToCsvCommand.php:101-117 | the rendered rows have the shape the import reads back |
| RoundTrip.CellsColumn | src/CsvToPoCommand.php:90-107 | a column of table cells, read back, translates each original as its cell when that cell is not empty |
| RoundTrip.RenderedColumn | src/PoToCsvCommand.php:106-117 | the column of one language read back from the rendering is that language's cells |
| RoundTrip.RenderedColumns | src/PoToCsvCommand.php:106-117 | the same for every language |
| RoundTrip.ImportRendered | src/CsvToPoCommand.php:73-111 | a table with distinct keys, none of them `""`, rendered over distinct languages none of which is named `original`, read into empty catalogs of its languages raises no conflict and gives each language its non-empty cells (both conditions are needed; see "## Left out") |
| RoundTrip.ExportThenImport | src/PoToCsvCommand.php:75-117 | exporting catalogs that repeat no trimmed original, have no original that trims to `""`, and include no language named `original`, and reading the rendered rows (not the file; see "## Left out") back into empty catalogs raises no conflict and gives every language exactly its trimmed translations, except those empty in PHP's sense |

## Left out

- Prompting and path discovery are not modelled: `getInputCsvFile`, `getInputPoFiles`, `getOutputFolder`, `confirm`, `ask`, `getQuestion`, `writeSection`, `writeList` and `configure`. They are console I/O and filesystem globbing.
- The prompt inside `handleConflict` is modelled as the function `ask` of (original, stored, incoming). Two different answers to the same question at different moments are therefore not modelled.
- Reading and writing `.po` files (`Translations::fromPoFile`, `Po::toString`, `file_put_contents`, `getcwd`) is foreign code and disk I/O.
  - A catalog is given as its list of (original, translation) entries.
  - Message contexts, plural forms and comments are not modelled. The lookup `find(null, $original)` matches on the original alone.
  - Writing the edited catalogs back (lines 113-116 of the import) is not modelled.
- CSV reading and writing (`League\Csv\Reader`, `Writer`, delimiters, quoting) are foreign libraries.
  - Rows are sequences of strings.
  - A missing export cell, which PHP writes as null, is the empty string.
- RoundTrip.ExportThenImport: the round-trip lemmas are about rows, not files. The export writes with the `;` delimiter (src/PoToCsvCommand.php:99). The import builds its reader without `setDelimiter` (src/CsvToPoCommand.php:76), so it splits on the library's default `,`. An exported line such as `Hi;Hi;Salut` is read back as the one-cell row `["Hi;Hi;Salut"]`: that string becomes the original and nothing is imported. So the file round trip does not hold as written; the lemmas show what holds once both sides use the same delimiter.
- RoundTrip.ExportThenImport: two more cases break the program's own round trip, and the lemma excludes them rather than proving something false. (1) An original that is blank or empty trims to `""` (src/PoToCsvCommand.php:79), so its exported row starts with `""`. The import takes the first cell that is not `""` as the original (src/CsvToPoCommand.php:85), so a catalog `en` holding (" ", "x") is read back with "x" as an original and nothing imported: the translation is lost. (2) A catalog named `original` gets the original written into its column instead of its translation (src/PoToCsvCommand.php:110).
- `basename($poFile, '.po')` is path handling. Language keys are given as inputs in load order.
- PHP turns numeric-string array keys such as "12" into integers. That changes neither order nor output here, so the model keeps strings.
- PoToCsv.Step: compares the stored and incoming values with plain string equality. PHP's loose `!=` (line 88) treats numeric strings by value, so "1.0" and "1" are equal there.
- CsvToPo.ApplyCell: compares translations with plain string equality. PHP's loose `!=` (line 97) treats numeric strings by value.
- Translations.Added: the `$writeHandle[] = $translation` append (line 107) is modelled as a keyed add, which keeps the existing entry when the original is already present. The only way to reach it with an existing entry is an equal translation, and gettext merges that entry itself.
- CsvToPo.ImportCsv: on a fatal error (a column naming no catalog) the contract gives the error but not the partly edited catalogs.
- CsvToPo.ApplyCellTo: the answer handleConflict returns is computed and discarded, as on line 99. The model states this as "the catalog is unchanged", not as a call.

/**
 * Export followed by import, on rows rather than on the CSV file between
 * them: the export writes `;`-separated lines while the import reads with
 * the reader's default `,` delimiter, and this module does not model that
 * split. Rows in the shape PoToCsv renders (a header, then one row per
 * original, each original once and first) read back into empty catalogs
 * give each language exactly the non-empty cells of its column; applied to
 * an export of catalogs that repeat no original, this gives back every
 * non-empty translation.
 */
module RoundTrip {
  import opened Wrappers
  import opened Text
  import opened Sequences
  import opened Translations
  import PoToCsv
  import CsvToPo

  /** The two handleConflict prompts agree on every answer but "3", which
      the import reads as "skip" and the export stores as the value "3". */
  lemma ChoicesAgree(answer: string, stored: string, incoming: string)
    requires answer != "3"
    ensures CsvToPo.ConflictChoice(answer, stored, incoming) == Some(PoToCsv.ConflictChoice(answer, stored, incoming))
  {
  }

  // ---------------------------------------------------------------------
  // Importing rows in the shape the export writes

  /** A header and data rows as the export writes them: every row as wide
      as the header, a non-"" original in its first cell, no original in
      two rows, and no language named twice in the header. */
  ghost predicate ExportShaped(header: seq<string>, data: seq<seq<string>>) {
    && |header| > 0
    && Distinct(header[1..])
    && (forall i :: 0 <= i < |data| ==> |data[i]| == |header| && data[i][0] != "")
    && (forall i, j :: 0 <= i < j < |data| ==> data[i][0] != data[j][0])
  }

  /** The entries column `c` of the first `n` data rows yields: one entry
      (original, cell) per row whose cell is not empty in PHP's sense. */
  function Column(data: seq<seq<string>>, c: nat, n: nat): (r: seq<Entry>)
    requires n <= |data| && forall i :: 0 <= i < n ==> c < |data[i]|
    ensures |r| <= n
  {
    if n == 0 then []
    else if PhpEmpty(data[n - 1][c]) then Column(data, c, n - 1)
    else Column(data, c, n - 1) + [Entry(data[n - 1][0], data[n - 1][c])]
  }

  /** Every column of the header holds the entries of the first `n` rows. */
  ghost predicate Imported(imp: CsvToPo.Import, header: seq<string>, data: seq<seq<string>>, n: nat) {
    && ExportShaped(header, data)
    && n <= |data|
    && imp.log == []
    && (forall l :: l in imp.catalogs <==> l in header[1..])
    && forall c :: 0 < c < |header| ==> header[c] in imp.catalogs && imp.catalogs[header[c]] == Column(data, c, n)
  }

  /** Row `i` is read up to (not including) cell `k`: the columns before
      `k` hold the entries of rows 0..i, the others those of rows 0..i-1. */
  ghost predicate PartlyImported(imp: CsvToPo.Import, header: seq<string>, data: seq<seq<string>>, i: nat, k: nat) {
    && ExportShaped(header, data)
    && i < |data|
    && imp.log == []
    && (forall l :: l in imp.catalogs <==> l in header[1..])
    && forall c :: 0 < c < |header| ==>
         header[c] in imp.catalogs && imp.catalogs[header[c]] == Column(data, c, if c < k then i + 1 else i)
  }

  /** An original no row before `n` starts with is in no column of them. */
  lemma {:induction false} ColumnFresh(data: seq<seq<string>>, c: nat, n: nat, original: string)
    requires n <= |data| && forall i :: 0 <= i < n ==> c < |data[i]| && data[i][0] != original
    ensures forall k :: 0 <= k < |Column(data, c, n)| ==> Column(data, c, n)[k].original != original
    ensures IndexOf(Column(data, c, n), original).None?
  {
    if n > 0 {
      ColumnFresh(data, c, n - 1, original);
    }
  }

  /** A column's translation of the original of row `j`: that row's cell,
      unless it is empty. */
  lemma {:induction false} ColumnTranslation(data: seq<seq<string>>, c: nat, n: nat, j: nat)
    requires j < n <= |data| && forall i :: 0 <= i < n ==> c < |data[i]|
    requires forall i :: 0 <= i < n && i != j ==> data[i][0] != data[j][0]
    ensures Translation(Column(data, c, n), data[j][0]) == if PhpEmpty(data[j][c]) then None else Some(data[j][c])
  {
    var o := data[j][0];
    if n - 1 == j {
      ColumnFresh(data, c, n - 1, o);
      if !PhpEmpty(data[j][c]) {
        IndexOfAppend(Column(data, c, n - 1), Entry(o, data[j][c]), o);
      }
    } else {
      ColumnTranslation(data, c, n - 1, j);
      if !PhpEmpty(data[n - 1][c]) {
        IndexOfAppend(Column(data, c, n - 1), Entry(data[n - 1][0], data[n - 1][c]), o);
      }
    }
  }

  /** Column `k` of row `i` read: only that language's catalog changes. */
  lemma AdvanceColumn(imp: CsvToPo.Import, next: CsvToPo.Import, header: seq<string>, data: seq<seq<string>>, i: nat, k: nat)
    requires PartlyImported(imp, header, data, i, k) && 0 < k < |header|
    requires next.log == [] && next.catalogs == imp.catalogs[header[k] := Column(data, k, i + 1)]
    ensures PartlyImported(next, header, data, i, k + 1)
  {
    forall c | 0 < c < |header| && c != k
      ensures header[c] != header[k]
    {
      assert header[1..][c - 1] == header[c] && header[1..][k - 1] == header[k];
    }
  }

  /** Reading cell `k` of data row `i`: an empty cell is skipped, any other
      is a fresh original for its language and is appended to its column. */
  lemma CellStepImports(st: CsvToPo.RowState, header: seq<string>, data: seq<seq<string>>, i: nat, k: nat)
    requires PartlyImported(st.imp, header, data, i, k) && 0 < k < |header|
    requires st.original == data[i][0]
    ensures var next := CsvToPo.CellStep(st, header, k, data[i][k]);
      next.Success? && next.value.original == data[i][0] && PartlyImported(next.value.imp, header, data, i, k + 1)
  {
    if PhpEmpty(data[i][k]) {
      EmptyCellImports(st.imp, header, data, i, k);
    } else {
      FilledCellImports(st.imp, header, data, i, k);
    }
  }

  lemma EmptyCellImports(imp: CsvToPo.Import, header: seq<string>, data: seq<seq<string>>, i: nat, k: nat)
    requires PartlyImported(imp, header, data, i, k) && 0 < k < |header| && PhpEmpty(data[i][k])
    ensures PartlyImported(imp, header, data, i, k + 1)
  {
    assert Column(data, k, i + 1) == Column(data, k, i);
    forall c | 0 < c < |header|
      ensures imp.catalogs[header[c]] == Column(data, c, if c < k + 1 then i + 1 else i)
    {
      assert imp.catalogs[header[c]] == Column(data, c, if c < k then i + 1 else i);
    }
  }

  lemma FilledCellImports(imp: CsvToPo.Import, header: seq<string>, data: seq<seq<string>>, i: nat, k: nat)
    requires PartlyImported(imp, header, data, i, k) && 0 < k < |header| && !PhpEmpty(data[i][k])
    ensures var next := CsvToPo.ApplyCell(imp, data[i][0], CsvToPo.ColumnLanguage(header, k), data[i][k]);
      next.Success? && PartlyImported(next.value, header, data, i, k + 1)
  {
    var o := data[i][0];
    assert imp.catalogs[header[k]] == Column(data, k, i);
    ColumnFresh(data, k, i, o);
    var next := CsvToPo.Import(imp.catalogs[header[k] := Column(data, k, i + 1)], []);
    assert CsvToPo.ApplyCell(imp, o, header[k], data[i][k]) == Success(next);
    AdvanceColumn(imp, next, header, data, i, k);
  }

  /** The first `k` cells of data row `i`: its original, then the columns
      before `k` updated. */
  lemma {:induction false} RowCellsImport(imp: CsvToPo.Import, header: seq<string>, data: seq<seq<string>>, i: nat, k: nat)
    requires Imported(imp, header, data, i) && i < |data| && 0 < k <= |header|
    ensures var st := CsvToPo.RowCells(imp, header, data[i], k);
      st.Success? && st.value.original == data[i][0] && PartlyImported(st.value.imp, header, data, i, k)
  {
    if k > 1 {
      RowCellsImport(imp, header, data, i, k - 1);
      var prev := CsvToPo.RowCells(imp, header, data[i], k - 1);
      CellStepImports(prev.value, header, data, i, k - 1);
    }
  }

  /** A row read to its last cell leaves the first `i + 1` rows imported. */
  lemma RowImported(imp: CsvToPo.Import, header: seq<string>, data: seq<seq<string>>, i: nat)
    requires PartlyImported(imp, header, data, i, |header|)
    ensures Imported(imp, header, data, i + 1)
  {
  }

  /** The header row, then the first `n` data rows. */
  lemma {:induction false} ReadRowsImport(header: seq<string>, data: seq<seq<string>>, n: nat)
    requires ExportShaped(header, data) && n <= |data|
    ensures var rd := CsvToPo.ReadRows(CsvToPo.Import(map l | l in header[1..] :: [], []), [header] + data, n + 1);
      rd.Success? && rd.value.header == header && Imported(rd.value.imp, header, data, n)
  {
    var rows := [header] + data;
    var start := CsvToPo.Import(map l | l in header[1..] :: [], []);
    if n > 0 {
      ReadRowsImport(header, data, n - 1);
      var prev := CsvToPo.ReadRows(start, rows, n);
      assert rows[n] == data[n - 1];
      CsvToPo.ReadRowsNext(start, rows, n);
      RowCellsImport(prev.value.imp, header, data, n - 1, |header|);
      RowImported(CsvToPo.RowCells(prev.value.imp, header, data[n - 1], |header|).value.imp, header, data, n - 1);
    } else {
      forall c | 0 < c < |header|
        ensures header[c] in start.catalogs
      {
        assert header[c] == header[1..][c - 1];
      }
    }
  }

  /** Rows in the export's shape read into empty catalogs, one per header
      language: no conflict, and each language's catalog is exactly the
      non-empty cells of its column, in row order. */
  lemma ImportExportShaped(header: seq<string>, data: seq<seq<string>>)
    requires ExportShaped(header, data)
    ensures var r := CsvToPo.ImportRows([header] + data, map l | l in header[1..] :: []);
      && r.Success? && r.value.log == []
      && (forall l :: l in r.value.catalogs <==> l in header[1..])
      && forall c :: 0 < c < |header| ==> r.value.catalogs[header[c]] == Column(data, c, |data|)
  {
    ReadRowsImport(header, data, |data|);
  }

  // ---------------------------------------------------------------------
  // Exporting, then importing the export

  /** A cell as the import keeps it: a value empty in PHP's sense is not
      written back. */
  function Kept(v: Option<string>): Option<string> {
    if v.Some? && !PhpEmpty(v.value) then v else None
  }

  lemma {:induction false} AllOriginalsFilled(langs: seq<string>, catalogs: map<string, seq<Entry>>, n: nat)
    requires PoToCsv.Loaded(langs, catalogs) && n <= |langs|
    requires forall l :: l in catalogs ==> "" !in PoToCsv.Originals(catalogs[l])
    ensures "" !in PoToCsv.AllOriginals(langs, catalogs, n)
  {
    if n > 0 {
      AllOriginalsFilled(langs, catalogs, n - 1);
    }
  }

  /** The table the export merges has valid, distinct keys, none of them
      "", provided no trimmed original is "". */
  lemma MergedKeys(langs: seq<string>, catalogs: map<string, seq<Entry>>, resolve: PoToCsv.Resolve)
    requires PoToCsv.Loaded(langs, catalogs)
    requires forall l :: l in catalogs ==> "" !in PoToCsv.Originals(PoToCsv.Trimmed(catalogs[l]))
    ensures var t := PoToCsv.Merge(langs, catalogs, resolve).table;
      t.Valid() && Distinct(t.keys) && "" !in t.keys
  {
    var trimmed := PoToCsv.TrimmedCatalogs(catalogs);
    PoToCsv.MergeValid(langs, trimmed, |langs|, resolve);
    PoToCsv.RowKeys(langs, catalogs, resolve);
    AllOriginalsFilled(langs, trimmed, |langs|);
    FirstSeenMembers(PoToCsv.AllOriginals(langs, trimmed, |langs|));
  }

  /** A table with distinct keys, none "", renders to rows of the shape
      the import reads back, when no language is called "original". */
  lemma RenderIsShaped(langs: seq<string>, t: PoToCsv.Table)
    requires t.Valid() && Distinct(t.keys) && "" !in t.keys && Distinct(langs) && "original" !in langs
    ensures var rows := PoToCsv.Render(langs, t);
      rows[0][1..] == langs && ExportShaped(rows[0], rows[1..])
  {
    var rows := PoToCsv.Render(langs, t);
    assert rows[0][1..] == langs;
    forall i, j | 0 <= i < j < |rows[1..]|
      ensures rows[1..][i][0] != rows[1..][j][0]
    {
      assert rows[1..][i][0] == t.keys[i] && rows[1..][j][0] == t.keys[j];
    }
  }

  /** Column `c` of rows holding, row by row, a key of `t` and its cell
      for `language`, read back: each original translates as the table's
      cell, when that cell is not empty. */
  lemma {:induction false} CellsColumn(data: seq<seq<string>>, t: PoToCsv.Table, language: string, c: nat, o: string)
    requires t.Valid() && Distinct(t.keys) && |data| == |t.keys|
    requires forall i :: 0 <= i < |data| ==> c < |data[i]| && data[i][0] == t.keys[i]
    requires forall i :: 0 <= i < |data| ==> data[i][c] == t.Cell(t.keys[i], language).GetOr("")
    ensures Translation(Column(data, c, |data|), o) == Kept(t.Cell(o, language))
  {
    if j :| 0 <= j < |data| && data[j][0] == o {
      ColumnTranslation(data, c, |data|, j);
    } else {
      ColumnFresh(data, c, |data|, o);
      assert o !in t.keys;
    }
  }

  /** The data rows of a rendered table, as read at language column `p`:
      row `i` starts with the `i`-th key and holds that key's cell. */
  lemma RenderedCells(langs: seq<string>, t: PoToCsv.Table, p: nat)
    requires t.Valid() && "original" !in langs && p < |langs|
    ensures var data := PoToCsv.Render(langs, t)[1..];
      && |data| == |t.keys|
      && (forall i :: 0 <= i < |data| ==> p + 1 < |data[i]| && data[i][0] == t.keys[i])
      && forall i :: 0 <= i < |data| ==> data[i][p + 1] == t.Cell(t.keys[i], langs[p]).GetOr("")
  {
    var rows := PoToCsv.Render(langs, t);
    var data := rows[1..];
    forall i | 0 <= i < |data|
      ensures p + 1 < |data[i]| && data[i][0] == t.keys[i]
      ensures data[i][p + 1] == t.Cell(t.keys[i], langs[p]).GetOr("")
    {
      assert data[i] == rows[i + 1];
      assert langs[(p + 1) - 1] == langs[p];
    }
  }

  /** The column of `language` read back from a rendered table. */
  lemma RenderedColumn(langs: seq<string>, t: PoToCsv.Table, imported: map<string, seq<Entry>>, p: nat, o: string)
    requires t.Valid() && Distinct(t.keys) && "original" !in langs && p < |langs|
    requires var data := PoToCsv.Render(langs, t)[1..];
      langs[p] in imported && imported[langs[p]] == Column(data, p + 1, |data|)
    ensures Translation(imported[langs[p]], o) == Kept(t.Cell(o, langs[p]))
  {
    RenderedCells(langs, t, p);
    CellsColumn(PoToCsv.Render(langs, t)[1..], t, langs[p], p + 1, o);
  }

  /** The columns read back from a rendered table are its language columns. */
  lemma RenderedColumns(langs: seq<string>, t: PoToCsv.Table, imported: map<string, seq<Entry>>)
    requires t.Valid() && Distinct(t.keys) && "original" !in langs
    requires var data := PoToCsv.Render(langs, t)[1..];
      forall p :: 0 <= p < |langs| ==> langs[p] in imported && imported[langs[p]] == Column(data, p + 1, |data|)
    ensures forall l, o :: l in langs ==> l in imported && Translation(imported[l], o) == Kept(t.Cell(o, l))
  {
    forall l, o | l in langs
      ensures l in imported && Translation(imported[l], o) == Kept(t.Cell(o, l))
    {
      var p :| 0 <= p < |langs| && langs[p] == l;
      RenderedColumn(langs, t, imported, p, o);
    }
  }

  /** A rendered table read back into empty catalogs of its languages:
      no conflict, and each language translates each original as the
      table's cell, when that cell is not empty in PHP's sense. */
  lemma ImportRendered(langs: seq<string>, t: PoToCsv.Table)
    requires t.Valid() && Distinct(t.keys) && "" !in t.keys && Distinct(langs) && "original" !in langs
    ensures var r := CsvToPo.ImportRows(PoToCsv.Render(langs, t), map l | l in langs :: []);
      && r.Success? && r.value.log == []
      && (forall l :: l in r.value.catalogs <==> l in langs)
      && forall l, o :: l in langs ==> Translation(r.value.catalogs[l], o) == Kept(t.Cell(o, l))
  {
    RenderIsShaped(langs, t);
    var rows := PoToCsv.Render(langs, t);
    var header, data := rows[0], rows[1..];
    assert rows == [header] + data;
    ImportExportShaped(header, data);
    var r := CsvToPo.ImportRows(rows, map l | l in langs :: []).value;
    forall p | 0 <= p < |langs|
      ensures langs[p] in r.catalogs && r.catalogs[langs[p]] == Column(data, p + 1, |data|)
    {
      assert header[p + 1] == langs[p];
    }
    RenderedColumns(langs, t, r.catalogs);
  }

  /** Round trip on rows: the rendered rows of catalogs that repeat no
      trimmed original, read back into empty catalogs of the same languages
      (with no CSV file between them), raise no conflict and give each
      language exactly its trimmed translations, except those empty in
      PHP's sense ("" and "0"). */
  lemma ExportThenImport(langs: seq<string>, catalogs: map<string, seq<Entry>>, resolve: PoToCsv.Resolve)
    requires PoToCsv.Loaded(langs, catalogs) && "original" !in langs
    requires forall l :: l in catalogs ==>
      var originals := PoToCsv.Originals(PoToCsv.Trimmed(catalogs[l]));
      Distinct(originals) && "" !in originals
    ensures PoToCsv.Merge(langs, catalogs, resolve).table.Valid()
    ensures var rows := PoToCsv.Render(langs, PoToCsv.Merge(langs, catalogs, resolve).table);
      var r := CsvToPo.ImportRows(rows, map l | l in langs :: []);
      && r.Success? && r.value.log == []
      && (forall l :: l in r.value.catalogs <==> l in langs)
      && forall l, o :: l in langs ==>
           Translation(r.value.catalogs[l], o) == Kept(Translation(PoToCsv.Trimmed(catalogs[l]), o))
  {
    MergedKeys(langs, catalogs, resolve);
    ImportRendered(langs, PoToCsv.Merge(langs, catalogs, resolve).table);
    PoToCsv.NoConflictsWithoutRepeats(langs, catalogs, resolve);
  }
}

/**
 * The import direction, CsvToPoCommand: the CSV rows are read back into the
 * loaded per-language catalogs (lines 73-111 of execute()). The first row
 * that is not empty is the header; in every later row the first cell that
 * is not "" is the original, and each later cell that is not empty in PHP's
 * sense is applied to the catalog its header column names.
 */
module CsvToPo {
  import opened Wrappers
  import opened Text
  import opened Translations

  /** The answer mapping of handleConflict: "1" keeps the incoming value,
      "2" the stored one, "3" skips (null), and any other answer is itself
      the value. */
  function ConflictChoice(answer: string, stored: string, incoming: string): (r: Option<string>)
    ensures answer == "1" ==> r == Some(incoming)
    ensures answer == "2" ==> r == Some(stored)
    ensures answer == "3" ==> r == None
    ensures answer != "1" && answer != "2" && answer != "3" ==> r == Some(answer)
  {
    if answer == "1" then Some(incoming)
    else if answer == "2" then Some(stored)
    else if answer == "3" then None
    else Some(answer)
  }

  /** `$writeHandles[$header[$j]]` names no loaded catalog: PHP stops with a
      fatal error when it calls `find` on the null it gets. */
  datatype ImportError = MissingCatalog(language: string)

  /** The catalogs being edited, keyed by language, and the conflicts
      handed to handleConflict so far, in order. */
  datatype Import = Import(catalogs: map<string, seq<Entry>>, log: seq<Conflict>)

  /** The language of column `j`: `$header[$j]`, which is null, and so the
      key "", past the end of the header. */
  function ColumnLanguage(header: seq<string>, j: nat): string {
    if j < |header| then header[j] else ""
  }

  /** One non-empty cell applied to the catalog of `language`, lines 94-107:
      an entry whose translation differs is a conflict when that translation
      is non-empty (and stays as it is, the decision being discarded) and is
      filled when it is empty; otherwise the entry (original, cell) is added. */
  function ApplyCell(s: Import, original: string, language: string, cell: string): (r: Result<Import, ImportError>)
    ensures r.Failure? <==> language !in s.catalogs
    ensures r.Success? ==> s.log <= r.value.log && |r.value.log| <= |s.log| + 1
  {
    if language !in s.catalogs then Failure(MissingCatalog(language))
    else
      var entries := s.catalogs[language];
      var found := IndexOf(entries, original);
      if found.Some? && entries[found.value].translation != cell then
        var stored := entries[found.value].translation;
        if !PhpEmpty(stored) then
          Success(Import(s.catalogs, s.log + [Conflict(original, language, stored, cell)]))
        else
          Success(Import(s.catalogs[language := entries[found.value := Entry(original, cell)]], s.log))
      else
        Success(Import(s.catalogs[language := Added(entries, Entry(original, cell))], s.log))
  }

  /** Where a row stands: the import so far and the row's original, ""
      while it has not been seen (`$original == null` holds for "" too). */
  datatype RowState = RowState(imp: Import, original: string)

  /** Cell `j` of a data row, lines 84-95. */
  function CellStep(st: RowState, header: seq<string>, j: nat, cell: string): (r: Result<RowState, ImportError>)
    ensures r.Success? ==> r.value.original == if st.original == "" then cell else st.original
    ensures r.Failure? ==> st.original != "" && !PhpEmpty(cell) && ColumnLanguage(header, j) !in st.imp.catalogs
  {
    if st.original == "" then Success(RowState(st.imp, cell))
    else if PhpEmpty(cell) then Success(st)
    else
      var imp :- ApplyCell(st.imp, st.original, ColumnLanguage(header, j), cell);
      Success(RowState(imp, st.original))
  }

  /** The first `k` cells of a data row. */
  function RowCells(imp: Import, header: seq<string>, row: seq<string>, k: nat): Result<RowState, ImportError>
    requires k <= |row|
  {
    if k == 0 then Success(RowState(imp, ""))
    else
      var st :- RowCells(imp, header, row, k - 1);
      CellStep(st, header, k - 1, row[k - 1])
  }

  /** Where the reading stands: the import so far and the header, [] while
      no row has been taken as the header (`$header == null` holds for []). */
  datatype Reading = Reading(imp: Import, header: seq<string>)

  /** The first `n` rows, lines 77-110. */
  function ReadRows(imp: Import, rows: seq<seq<string>>, n: nat): Result<Reading, ImportError>
    requires n <= |rows|
  {
    if n == 0 then Success(Reading(imp, []))
    else
      var rd :- ReadRows(imp, rows, n - 1);
      if rd.header == [] then Success(Reading(rd.imp, rows[n - 1]))
      else
        var st :- RowCells(rd.imp, rd.header, rows[n - 1], |rows[n - 1]|);
        Success(Reading(st.imp, rd.header))
  }

  /** The whole import: the catalogs as edited, and the conflicts raised. */
  function ImportRows(rows: seq<seq<string>>, catalogs: map<string, seq<Entry>>): Result<Import, ImportError> {
    var rd :- ReadRows(Import(catalogs, []), rows, |rows|);
    Success(rd.imp)
  }

  /** Filling the empty translation of the entry for `original` at `i`. */
  lemma FillEffect(entries: seq<Entry>, i: nat, original: string, cell: string)
    requires IndexOf(entries, original) == Some(i) && PhpEmpty(entries[i].translation)
    ensures var after := entries[i := Entry(original, cell)];
      && Grows(entries, after)
      && Translation(after, original) == Some(cell)
      && forall o :: o != original ==> Translation(after, o) == Translation(entries, o)
  {
    forall o {
      IndexOfUpdate(entries, i, Entry(original, cell), o);
    }
  }

  /** Adding (original, cell) when the catalog has no entry for `original`
      or already translates it as `cell`. */
  lemma AddEffect(entries: seq<Entry>, original: string, cell: string)
    requires Translation(entries, original).None? || Translation(entries, original) == Some(cell)
    ensures var after := Added(entries, Entry(original, cell));
      && Grows(entries, after)
      && Translation(after, original) == Some(cell)
      && forall o :: o != original ==> Translation(after, o) == Translation(entries, o)
  {
    forall o {
      IndexOfAppend(entries, Entry(original, cell), o);
    }
  }

  /** Applying a cell fails exactly when no catalog is loaded for its
      column. Otherwise it changes the catalog of `language` only, deletes
      nothing and overwrites no non-empty translation. It raises a conflict
      exactly when that catalog holds a different non-empty translation for
      `original`, which then stays as it was; in every other case the
      catalog afterwards translates `original` as `cell`: an absent original
      gets one entry appended, an empty translation is filled in place, and
      an equal one leaves the catalog as it was. No other original's
      translation moves. */
  lemma ApplyCellEffect(s: Import, original: string, language: string, cell: string)
    ensures ApplyCell(s, original, language, cell).Failure? <==> language !in s.catalogs
    ensures ApplyCell(s, original, language, cell).Success? ==>
      var r := ApplyCell(s, original, language, cell).value;
      var before := s.catalogs[language];
      var after := r.catalogs[language];
      var stored := Translation(before, original);
      && r.catalogs == s.catalogs[language := after]
      && Grows(before, after)
      && (forall o :: o != original ==> Translation(after, o) == Translation(before, o))
      && (stored.None? ==> after == before + [Entry(original, cell)])
      && (stored.Some? ==> |after| == |before|)
      && (stored == Some(cell) ==> after == before)
      && if stored.Some? && stored.value != cell && !PhpEmpty(stored.value)
         then after == before && r.log == s.log + [Conflict(original, language, stored.value, cell)]
         else r.log == s.log && Translation(after, original) == Some(cell)
  {
    if language in s.catalogs {
      var entries := s.catalogs[language];
      var found := IndexOf(entries, original);
      if found.Some? && entries[found.value].translation != cell {
        if PhpEmpty(entries[found.value].translation) {
          FillEffect(entries, found.value, original, cell);
        }
      } else {
        AddEffect(entries, original, cell);
      }
    }
  }

  /** `b` is `a` after more of the import: the same languages, every
      catalog grown (nothing deleted, no non-empty translation overwritten)
      and the conflict log extended. */
  ghost predicate Extends(a: Import, b: Import) {
    && (forall l :: l in b.catalogs <==> l in a.catalogs)
    && (forall l :: l in a.catalogs ==> Grows(a.catalogs[l], b.catalogs[l]))
    && a.log <= b.log
  }

  lemma ExtendsTransitive(a: Import, b: Import, c: Import)
    requires Extends(a, b) && Extends(b, c)
    ensures Extends(a, c)
  {
    forall l | l in a.catalogs
      ensures Grows(a.catalogs[l], c.catalogs[l])
    {
      GrowsTransitive(a.catalogs[l], b.catalogs[l], c.catalogs[l]);
    }
  }

  lemma CellStepExtends(st: RowState, header: seq<string>, j: nat, cell: string)
    ensures CellStep(st, header, j, cell).Success? ==> Extends(st.imp, CellStep(st, header, j, cell).value.imp)
  {
    if st.original != "" && !PhpEmpty(cell) {
      ApplyCellEffect(st.imp, st.original, ColumnLanguage(header, j), cell);
    }
  }

  lemma {:induction false} RowCellsExtends(imp: Import, header: seq<string>, row: seq<string>, k: nat)
    requires k <= |row|
    ensures RowCells(imp, header, row, k).Success? ==> Extends(imp, RowCells(imp, header, row, k).value.imp)
  {
    if k > 0 {
      RowCellsExtends(imp, header, row, k - 1);
      var prev := RowCells(imp, header, row, k - 1);
      if prev.Success? {
        RowCellsNext(imp, header, row, k - 1);
        CellStepExtendsFrom(imp, prev.value, header, k - 1, row[k - 1]);
      }
    }
  }

  lemma CellStepExtendsFrom(imp: Import, st: RowState, header: seq<string>, j: nat, cell: string)
    requires Extends(imp, st.imp)
    ensures CellStep(st, header, j, cell).Success? ==> Extends(imp, CellStep(st, header, j, cell).value.imp)
  {
    CellStepExtends(st, header, j, cell);
    if CellStep(st, header, j, cell).Success? {
      ExtendsTransitive(imp, st.imp, CellStep(st, header, j, cell).value.imp);
    }
  }

  lemma {:induction false} ReadRowsExtends(imp: Import, rows: seq<seq<string>>, n: nat)
    requires n <= |rows|
    ensures ReadRows(imp, rows, n).Success? ==> Extends(imp, ReadRows(imp, rows, n).value.imp)
  {
    if n > 0 {
      ReadRowsExtends(imp, rows, n - 1);
      var prev := ReadRows(imp, rows, n - 1);
      if prev.Success? && prev.value.header != [] {
        var row := rows[n - 1];
        RowCellsExtends(prev.value.imp, prev.value.header, row, |row|);
        var st := RowCells(prev.value.imp, prev.value.header, row, |row|);
        if st.Success? {
          ExtendsTransitive(imp, prev.value.imp, st.value.imp);
        }
      }
    }
  }

  /** No entry is ever removed: after a successful import every loaded
      catalog still holds its entries at their positions with their
      originals, may only have grown, and has had a translation changed
      only where it was empty in PHP's sense. */
  lemma ImportGrows(rows: seq<seq<string>>, catalogs: map<string, seq<Entry>>)
    ensures ImportRows(rows, catalogs).Success? ==>
      var r := ImportRows(rows, catalogs).value;
      && (forall l :: l in r.catalogs <==> l in catalogs)
      && (forall l :: l in catalogs ==> Grows(catalogs[l], r.catalogs[l]) && |catalogs[l]| <= |r.catalogs[l]|)
  {
    ReadRowsExtends(Import(catalogs, []), rows, |rows|);
  }

  /** The index of a row's original: its first cell that is not "". */
  function FirstFilled(row: seq<string>): (i: nat)
    ensures i <= |row| && (i < |row| ==> row[i] != "")
    ensures forall j :: 0 <= j < i ==> row[j] == ""
  {
    if row == [] then 0
    else if row[0] != "" then 0
    else 1 + FirstFilled(row[1..])
  }

  /** The cells of a row up to and including its original write nothing:
      the leading "" cells are skipped and the original only becomes the
      row's key. */
  lemma {:induction false} RowUpToOriginal(imp: Import, header: seq<string>, row: seq<string>, k: nat)
    requires k <= |row| && k <= FirstFilled(row) + 1
    ensures RowCells(imp, header, row, k) == Success(RowState(imp, if k <= FirstFilled(row) then "" else row[k - 1]))
  {
    if k > 0 {
      RowUpToOriginal(imp, header, row, k - 1);
    }
  }

  /** A row whose cells after the original are all empty in PHP's sense
      changes nothing. */
  lemma {:induction false} RowWithoutValues(imp: Import, header: seq<string>, row: seq<string>, k: nat)
    requires k <= |row|
    requires forall j :: FirstFilled(row) < j < |row| ==> PhpEmpty(row[j])
    ensures RowCells(imp, header, row, k).Success? && RowCells(imp, header, row, k).value.imp == imp
  {
    if k <= FirstFilled(row) + 1 {
      RowUpToOriginal(imp, header, row, k);
    } else {
      RowWithoutValues(imp, header, row, k - 1);
      RowOriginalKept(imp, header, row, k - 1);
    }
  }

  /** Once the original is read, it stays the row's key. */
  lemma {:induction false} RowOriginalKept(imp: Import, header: seq<string>, row: seq<string>, k: nat)
    requires FirstFilled(row) < k <= |row|
    ensures RowCells(imp, header, row, k).Success? ==> RowCells(imp, header, row, k).value.original == row[FirstFilled(row)]
  {
    if k == FirstFilled(row) + 1 {
      RowUpToOriginal(imp, header, row, k);
    } else {
      RowOriginalKept(imp, header, row, k - 1);
    }
  }

  /** Rows before the header: the empty rows before it and the header row
      itself write nothing. */
  lemma {:induction false} HeaderRow(imp: Import, rows: seq<seq<string>>, n: nat)
    requires n < |rows| && rows[n] != [] && forall i :: 0 <= i < n ==> rows[i] == []
    ensures ReadRows(imp, rows, n + 1) == Success(Reading(imp, rows[n]))
  {
    EmptyRows(imp, rows, n);
  }

  lemma {:induction false} EmptyRows(imp: Import, rows: seq<seq<string>>, n: nat)
    requires n <= |rows| && forall i :: 0 <= i < n ==> rows[i] == []
    ensures ReadRows(imp, rows, n) == Success(Reading(imp, []))
  {
    if n > 0 {
      EmptyRows(imp, rows, n - 1);
    }
  }

  /** No non-empty cell of the row sits under a header cell naming `l`. */
  ghost predicate NothingFor(l: string, header: seq<string>, row: seq<string>) {
    forall j :: 0 <= j < |row| && j < |header| && header[j] == l ==> PhpEmpty(row[j])
  }

  lemma {:induction false} RowCellsKeep(imp: Import, header: seq<string>, row: seq<string>, k: nat, l: string)
    requires k <= |row| && l != "" && l in imp.catalogs && NothingFor(l, header, row)
    ensures RowCells(imp, header, row, k).Success? ==>
      var after := RowCells(imp, header, row, k).value.imp;
      l in after.catalogs && after.catalogs[l] == imp.catalogs[l]
  {
    if k > 0 {
      RowCellsKeep(imp, header, row, k - 1, l);
      var prev := RowCells(imp, header, row, k - 1);
      if prev.Success? && prev.value.original != "" && !PhpEmpty(row[k - 1]) {
        ApplyCellEffect(prev.value.imp, prev.value.original, ColumnLanguage(header, k - 1), row[k - 1]);
      }
    }
  }

  lemma {:induction false} ReadRowsKeep(imp: Import, header: seq<string>, data: seq<seq<string>>, n: nat, l: string)
    requires n <= |data| && header != [] && l != "" && l in imp.catalogs
    requires forall i :: 0 <= i < |data| ==> NothingFor(l, header, data[i])
    ensures ReadRows(imp, [header] + data, n + 1).Success? ==>
      var rd := ReadRows(imp, [header] + data, n + 1).value;
      rd.header == header && l in rd.imp.catalogs && rd.imp.catalogs[l] == imp.catalogs[l]
  {
    var rows := [header] + data;
    if n > 0 {
      ReadRowsKeep(imp, header, data, n - 1, l);
      var prev := ReadRows(imp, rows, n);
      if prev.Success? {
        assert rows[n] == data[n - 1];
        RowCellsKeep(prev.value.imp, header, data[n - 1], |data[n - 1]|, l);
      }
    }
  }

  /** A catalog whose column holds no non-empty cell below the header is
      left exactly as loaded. */
  lemma CatalogWithoutColumnUnchanged(header: seq<string>, data: seq<seq<string>>, catalogs: map<string, seq<Entry>>, l: string)
    requires header != [] && l != "" && l in catalogs
    requires forall i :: 0 <= i < |data| ==> NothingFor(l, header, data[i])
    ensures ImportRows([header] + data, catalogs).Success? ==>
      var r := ImportRows([header] + data, catalogs).value;
      l in r.catalogs && r.catalogs[l] == catalogs[l]
  {
    ReadRowsKeep(Import(catalogs, []), header, data, |data|, l);
  }

  // ---------------------------------------------------------------------
  // The loop of execute() over catalog objects edited in place

  /** What the catalogs hold. */
  ghost function Contents(handles: map<string, Catalog>): map<string, seq<Entry>>
    reads handles.Values
  {
    map l | l in handles :: handles[l].entries
  }

  /** Each language has its own catalog object (each is loaded separately). */
  ghost predicate Separate(handles: map<string, Catalog>) {
    forall l, l' :: l in handles && l' in handles && l != l' ==> handles[l] != handles[l']
  }

  /** Lines 94-107 on the catalog of `language`. */
  method ApplyCellTo(handles: map<string, Catalog>, log: seq<Conflict>, original: string, language: string, cell: string, ask: Ask)
    returns (result: Result<seq<Conflict>, ImportError>)
    requires Separate(handles)
    modifies handles.Values
    ensures var r := ApplyCell(Import(old(Contents(handles)), log), original, language, cell);
      && (result.Failure? <==> r.Failure?)
      && (result.Failure? ==> result.error == r.error && Contents(handles) == old(Contents(handles)))
      && (result.Success? ==> Import(Contents(handles), result.value) == r.value)
  {
    if language !in handles {
      return Failure(MissingCatalog(language));
    }
    var catalog := handles[language];
    var found := catalog.Find(original);
    if found.Some? && catalog.entries[found.value].translation != cell {
      var stored := catalog.entries[found.value].translation;
      if !PhpEmpty(stored) {
        var decision := ConflictChoice(ask(original, stored, cell), stored, cell);
        return Success(log + [Conflict(original, language, stored, cell)]);
      }
      catalog.SetTranslation(found.value, cell);
    } else {
      catalog.Add(Entry(original, cell));
    }
    assert Contents(handles) == old(Contents(handles))[language := catalog.entries];
    return Success(log);
  }

  /** The loop of lines 77-110: the catalogs are edited in place, and the
      run stops at the first cell whose column names no catalog. */
  method ImportCsv(rows: seq<seq<string>>, handles: map<string, Catalog>, ask: Ask)
    returns (result: Result<seq<Conflict>, ImportError>)
    requires Separate(handles)
    modifies handles.Values
    ensures var r := ImportRows(rows, old(Contents(handles)));
      && (result.Failure? <==> r.Failure?)
      && (result.Failure? ==> result.error == r.error)
      && (result.Success? ==> Import(Contents(handles), result.value) == r.value)
  {
    ghost var start := Import(Contents(handles), []);
    var header: seq<string> := [];
    var log: seq<Conflict> := [];
    for i := 0 to |rows|
      invariant ReadRows(start, rows, i) == Success(Reading(Import(Contents(handles), log), header))
    {
      var row := rows[i];
      if header == [] {
        header := row;
      } else {
        ghost var before := Import(Contents(handles), log);
        var original := "";
        for j := 0 to |row|
          invariant RowCells(before, header, row, j) == Success(RowState(Import(Contents(handles), log), original))
        {
          RowCellsNext(before, header, row, j);
          var cell := row[j];
          if original == "" {
            original := cell;
          } else if !PhpEmpty(cell) {
            var applied := ApplyCellTo(handles, log, original, ColumnLanguage(header, j), cell, ask);
            if applied.Failure? {
              RowCellsFailure(before, header, row, j + 1, |row|);
              ReadRowsFailure(start, rows, i + 1, |rows|);
              return Failure(applied.error);
            }
            log := applied.value;
          }
        }
      }
      ReadRowsNext(start, rows, i);
    }
    return Success(log);
  }

  /** One more cell of the row. */
  lemma RowCellsNext(imp: Import, header: seq<string>, row: seq<string>, j: nat)
    requires j < |row| && RowCells(imp, header, row, j).Success?
    ensures RowCells(imp, header, row, j + 1) == CellStep(RowCells(imp, header, row, j).value, header, j, row[j])
  {
  }

  /** One more row: the header when none is set yet, a data row otherwise. */
  lemma ReadRowsNext(imp: Import, rows: seq<seq<string>>, i: nat)
    requires i < |rows| && ReadRows(imp, rows, i).Success?
    ensures var rd := ReadRows(imp, rows, i).value;
      ReadRows(imp, rows, i + 1) ==
        if rd.header == [] then Success(Reading(rd.imp, rows[i]))
        else match RowCells(rd.imp, rd.header, rows[i], |rows[i]|)
          case Failure(e) => Failure(e)
          case Success(st) => Success(Reading(st.imp, rd.header))
  {
  }

  /** A failure ends the row: every longer prefix fails the same way. */
  lemma {:induction false} RowCellsFailure(imp: Import, header: seq<string>, row: seq<string>, k: nat, k': nat)
    requires k <= k' <= |row| && RowCells(imp, header, row, k).Failure?
    ensures RowCells(imp, header, row, k') == RowCells(imp, header, row, k)
  {
    if k < k' {
      RowCellsFailure(imp, header, row, k, k' - 1);
    }
  }

  /** A failure ends the run: every longer prefix of rows fails the same way. */
  lemma {:induction false} ReadRowsFailure(imp: Import, rows: seq<seq<string>>, n: nat, n': nat)
    requires n <= n' <= |rows| && ReadRows(imp, rows, n).Failure?
    ensures ReadRows(imp, rows, n') == ReadRows(imp, rows, n)
  {
    if n < n' {
      ReadRowsFailure(imp, rows, n, n' - 1);
    }
  }

  // ---------------------------------------------------------------------
  // Importing the same table twice

  /** Every catalog of `a` has grown into the catalog of the same language
      in `b`, and both hold the same languages. */
  ghost predicate Covers(a: map<string, seq<Entry>>, b: map<string, seq<Entry>>) {
    && (forall l :: l in a <==> l in b)
    && forall l :: l in a ==> Grows(a[l], b[l])
  }

  lemma ExtendsCovers(a: Import, b: Import, f: map<string, seq<Entry>>)
    requires Extends(a, b) && Covers(b.catalogs, f)
    ensures Covers(a.catalogs, f)
  {
    forall l | l in a.catalogs
      ensures Grows(a.catalogs[l], f[l])
    {
      GrowsTransitive(a.catalogs[l], b.catalogs[l], f[l]);
    }
  }

  /** Once a non-empty cell is applied to `original`, its catalog
      translates `original` with a value not empty in PHP's sense: the cell,
      or the non-empty translation a conflict kept. */
  lemma ApplyCellFills(s: Import, original: string, language: string, cell: string)
    requires !PhpEmpty(cell) && ApplyCell(s, original, language, cell).Success?
    ensures language in ApplyCell(s, original, language, cell).value.catalogs
    ensures var after := ApplyCell(s, original, language, cell).value.catalogs[language];
      Translation(after, original).Some? && !PhpEmpty(Translation(after, original).value)
  {
    ApplyCellEffect(s, original, language, cell);
  }

  /** A cell for an original its catalog already translates with a value
      not empty in PHP's sense changes no catalog: a different value is a
      conflict whose decision is discarded (line 99), an equal one the keyed
      add of an entry that is already there. */
  lemma ApplyCellSettled(s: Import, original: string, language: string, cell: string)
    requires language in s.catalogs
    requires Translation(s.catalogs[language], original).Some?
    requires !PhpEmpty(Translation(s.catalogs[language], original).value)
    ensures ApplyCell(s, original, language, cell).Success?
    ensures ApplyCell(s, original, language, cell).value.catalogs == s.catalogs
  {
    ApplyCellEffect(s, original, language, cell);
    var r := ApplyCell(s, original, language, cell).value;
    assert r.catalogs[language] == s.catalogs[language];
  }

  /** A row read once into `imp`, then again into any catalogs `f` the
      first reading has grown into, succeeds again, ends with the same
      original and leaves `f` as it was. */
  lemma {:induction false} RowCellsTwice(imp: Import, header: seq<string>, row: seq<string>, k: nat,
                                         f: map<string, seq<Entry>>, log: seq<Conflict>)
    requires k <= |row| && RowCells(imp, header, row, k).Success?
    requires Covers(RowCells(imp, header, row, k).value.imp.catalogs, f)
    ensures var again := RowCells(Import(f, log), header, row, k);
      && again.Success?
      && again.value.imp.catalogs == f
      && again.value.original == RowCells(imp, header, row, k).value.original
  {
    if k > 0 {
      var prev := RowCells(imp, header, row, k - 1).value;
      RowCellsNext(imp, header, row, k - 1);
      var st := RowCells(imp, header, row, k).value;
      CellStepExtends(prev, header, k - 1, row[k - 1]);
      ExtendsCovers(prev.imp, st.imp, f);
      RowCellsTwice(imp, header, row, k - 1, f, log);
      var again := RowCells(Import(f, log), header, row, k - 1).value;
      RowCellsNext(Import(f, log), header, row, k - 1);
      var cell := row[k - 1];
      if prev.original != "" && !PhpEmpty(cell) {
        var language := ColumnLanguage(header, k - 1);
        ApplyCellFills(prev.imp, prev.original, language, cell);
        GrowsKeepsFilled(st.imp.catalogs[language], f[language], prev.original);
        ApplyCellSettled(again.imp, prev.original, language, cell);
      }
    }
  }

  /** The same for the first `n` rows: read again into catalogs the first
      reading has grown into, they succeed, take the same header and leave
      those catalogs as they were. */
  lemma {:induction false} ReadRowsTwice(imp: Import, rows: seq<seq<string>>, n: nat,
                                         f: map<string, seq<Entry>>, log: seq<Conflict>)
    requires n <= |rows| && ReadRows(imp, rows, n).Success?
    requires Covers(ReadRows(imp, rows, n).value.imp.catalogs, f)
    ensures var again := ReadRows(Import(f, log), rows, n);
      && again.Success?
      && again.value.imp.catalogs == f
      && again.value.header == ReadRows(imp, rows, n).value.header
  {
    if n > 0 {
      var prev := ReadRows(imp, rows, n - 1).value;
      ReadRowsNext(imp, rows, n - 1);
      if prev.header != [] {
        var row := rows[n - 1];
        RowCellsExtends(prev.imp, prev.header, row, |row|);
        ExtendsCovers(prev.imp, RowCells(prev.imp, prev.header, row, |row|).value.imp, f);
      }
      ReadRowsTwice(imp, rows, n - 1, f, log);
      var again := ReadRows(Import(f, log), rows, n - 1).value;
      ReadRowsNext(Import(f, log), rows, n - 1);
      if prev.header != [] {
        assert again.imp == Import(f, again.imp.log);
        RowCellsTwice(prev.imp, prev.header, rows[n - 1], |rows[n - 1]|, f, again.imp.log);
      }
    }
  }

  /** Importing the same table a second time, into the catalogs the first
      import produced, succeeds and changes no catalog, whatever is
      answered at the prompts: every value the table holds is then already
      there, or a conflict whose decision is discarded. */
  lemma ImportTwice(rows: seq<seq<string>>, catalogs: map<string, seq<Entry>>)
    ensures ImportRows(rows, catalogs).Success? ==>
      var once := ImportRows(rows, catalogs).value.catalogs;
      ImportRows(rows, once).Success? && ImportRows(rows, once).value.catalogs == once
  {
    if ImportRows(rows, catalogs).Success? {
      var once := ImportRows(rows, catalogs).value.catalogs;
      ReadRowsTwice(Import(catalogs, []), rows, |rows|, once, []);
    }
  }

}

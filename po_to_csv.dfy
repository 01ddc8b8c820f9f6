/**
 * The export direction, PoToCsvCommand: N per-language catalogs are merged
 * into one table keyed by original (lines 75-94 of execute()), and the table
 * is flattened into CSV rows under the header `original, <languages>`
 * (lines 101-117).
 */
module PoToCsv {
  import opened Wrappers
  import opened Text
  import opened Sequences
  import opened Translations

  /** The answer mapping of handleConflict: "1" keeps the incoming value,
      "2" the stored one, and any other answer is itself the value. */
  function ConflictChoice(answer: string, stored: string, incoming: string): (r: string)
    ensures answer == "1" ==> r == incoming
    ensures answer == "2" ==> r == stored
    ensures answer != "1" && answer != "2" ==> r == answer
  {
    if answer == "1" then incoming
    else if answer == "2" then stored
    else answer
  }

  /** handleConflict: given the original, the stored value and the incoming
      one, the value the cell takes. */
  type Resolve = (string, string, string) -> string

  /** handleConflict as the command builds it: the prompt's answer, mapped. */
  function HandleConflict(ask: Ask): Resolve {
    (original, stored, incoming) => ConflictChoice(ask(original, stored, incoming), stored, incoming)
  }

  /** When the user only types trimmed answers, handleConflict turns trimmed
      values into a trimmed value. */
  lemma HandleConflictTrimmed(ask: Ask)
    requires forall o, s, t :: IsTrimmed(ask(o, s, t))
    ensures forall o, s, t :: IsTrimmed(s) && IsTrimmed(t) ==> IsTrimmed(HandleConflict(ask)(o, s, t))
  {
  }

  /** `$csvArray`: the originals in insertion order, and for each original
      its cells, a map from language to translation. */
  datatype Table = Table(keys: seq<string>, cells: map<string, map<string, string>>) {
    /** Every listed original has a row of cells, and every row is listed. */
    ghost predicate Valid() {
      forall o :: o in cells <==> o in keys
    }

    /** The cell for (original, language), if it is set. */
    function Cell(original: string, language: string): Option<string> {
      if original in cells && language in cells[original] then Some(cells[original][language])
      else None
    }
  }

  const EmptyTable := Table([], map[])

  /** Stores `value` in the cell (original, language); a new original gets a
      new row at the end. */
  function SetCell(t: Table, original: string, language: string, value: string): (r: Table)
    ensures r.keys == if original in t.cells then t.keys else t.keys + [original]
    ensures r.Cell(original, language) == Some(value)
  {
    if original !in t.cells then Table(t.keys + [original], t.cells[original := map[language := value]])
    else Table(t.keys, t.cells[original := t.cells[original][language := value]])
  }

  /** SetCell changes no other cell, and keeps every row listed. */
  lemma SetCellFrame(t: Table, original: string, language: string, value: string)
    ensures t.Valid() ==> SetCell(t, original, language, value).Valid()
    ensures forall o, l :: o != original || l != language ==>
              SetCell(t, original, language, value).Cell(o, l) == t.Cell(o, l)
  {
  }

  /** The table being built and the conflicts raised so far, in order. */
  datatype Merged = Merged(table: Table, log: seq<Conflict>)

  /** One trimmed entry of the catalog for `language` folded into the table
      (lines 82-91): a new original gets a row, a missing cell is filled, a
      differing value goes to handleConflict, an equal one changes nothing. */
  function Step(m: Merged, language: string, e: Entry, resolve: Resolve): (r: Merged)
    ensures r.table.keys == if e.original in m.table.cells then m.table.keys
                            else m.table.keys + [e.original]
  {
    var original, translation := e.original, e.translation;
    match m.table.Cell(original, language)
    case None => Merged(SetCell(m.table, original, language, translation), m.log)
    case Some(stored) =>
      if stored != translation then
        Merged(SetCell(m.table, original, language, resolve(original, stored, translation)),
               m.log + [Conflict(original, language, stored, translation)])
      else m
  }

  /** A step touches one cell only: the one for the entry's (original,
      language), which it leaves set; it keeps every row listed. */
  lemma StepCells(m: Merged, language: string, e: Entry, resolve: Resolve)
    ensures m.table.Valid() ==> Step(m, language, e, resolve).table.Valid()
    ensures forall o, l :: o != e.original || l != language ==>
              Step(m, language, e, resolve).table.Cell(o, l) == m.table.Cell(o, l)
    ensures Step(m, language, e, resolve).table.Cell(e.original, language).Some?
  {
    var original, translation := e.original, e.translation;
    match m.table.Cell(original, language)
    case None =>
      SetCellFrame(m.table, original, language, translation);
    case Some(stored) =>
      if stored != translation {
        SetCellFrame(m.table, original, language, resolve(original, stored, translation));
      }
  }

  /** A step that fills an empty cell stores the entry's translation and
      raises no conflict. */
  lemma StepFills(m: Merged, language: string, e: Entry, resolve: Resolve)
    requires m.table.Cell(e.original, language) == None
    ensures Step(m, language, e, resolve).log == m.log
    ensures Step(m, language, e, resolve).table.Cell(e.original, language) == Some(e.translation)
  {
  }

  /** A step raises at most one conflict: about the entry's original and
      language, with the stored value and the entry's differing translation. */
  lemma StepConflict(m: Merged, language: string, e: Entry, resolve: Resolve)
    ensures var r := Step(m, language, e, resolve);
      || r.log == m.log
      || (&& m.table.Cell(e.original, language).Some?
          && m.table.Cell(e.original, language).value != e.translation
          && r.log == m.log + [Conflict(e.original, language, m.table.Cell(e.original, language).value, e.translation)])
  {
  }

  /** The three outcomes of a step: a new original gets a row holding only
      this language's cell; a differing stored value is replaced by what
      handleConflict returns for (original, stored, incoming), once; an
      equal one changes nothing. */
  lemma StepCases(m: Merged, language: string, e: Entry, resolve: Resolve)
    ensures var r := Step(m, language, e, resolve);
      e.original !in m.table.cells ==>
        e.original in r.table.cells && r.table.cells[e.original] == map[language := e.translation] && r.log == m.log
    ensures var r := Step(m, language, e, resolve);
      var stored := m.table.Cell(e.original, language);
      stored.Some? && stored.value != e.translation ==>
        && r.table.Cell(e.original, language) == Some(resolve(e.original, stored.value, e.translation))
        && r.log == m.log + [Conflict(e.original, language, stored.value, e.translation)]
    ensures m.table.Cell(e.original, language) == Some(e.translation) ==> Step(m, language, e, resolve) == m
  {
  }

  /** The first `k` entries of one language's trimmed catalog folded into `m`. */
  function MergeEntries(m: Merged, language: string, entries: seq<Entry>, k: nat, resolve: Resolve): Merged
    requires k <= |entries|
  {
    if k == 0 then m
    else Step(MergeEntries(m, language, entries, k - 1, resolve), language, entries[k - 1], resolve)
  }

  /** `$poHandles`: the language keys in load order and their catalogs. */
  ghost predicate Loaded(langs: seq<string>, catalogs: map<string, seq<Entry>>) {
    Distinct(langs) && forall l :: l in langs <==> l in catalogs
  }

  /** The (trimmed) catalogs of the first `n` languages merged, in load
      order, into an empty table. */
  function MergeAll(langs: seq<string>, catalogs: map<string, seq<Entry>>, n: nat, resolve: Resolve): Merged
    requires Loaded(langs, catalogs) && n <= |langs|
  {
    if n == 0 then Merged(EmptyTable, [])
    else
      var language := langs[n - 1];
      MergeEntries(MergeAll(langs, catalogs, n - 1, resolve), language, catalogs[language], |catalogs[language]|, resolve)
  }

  /** A catalog's entries with original and translation trimmed (lines 79-80). */
  function Trimmed(entries: seq<Entry>): (r: seq<Entry>)
    ensures |r| == |entries|
  {
    seq(|entries|, i requires 0 <= i < |entries| => Entry(Trim(entries[i].original), Trim(entries[i].translation)))
  }

  /** Every catalog with its entries trimmed. */
  function TrimmedCatalogs(catalogs: map<string, seq<Entry>>): (r: map<string, seq<Entry>>)
    ensures forall l :: l in r <==> l in catalogs
  {
    map l | l in catalogs :: Trimmed(catalogs[l])
  }

  /** The merge of lines 75-94: every catalog, in load order, each entry
      trimmed. */
  function Merge(langs: seq<string>, catalogs: map<string, seq<Entry>>, resolve: Resolve): Merged
    requires Loaded(langs, catalogs)
  {
    MergeAll(langs, TrimmedCatalogs(catalogs), |langs|, resolve)
  }

  /** The body of the inner loop, lines 79-91: one catalog entry, trimmed,
      merged into the table. */
  method MergeEntry(table: Table, log: seq<Conflict>, language: string, e: Entry, ask: Ask)
    returns (table': Table, log': seq<Conflict>)
    ensures Merged(table', log') == Step(Merged(table, log), language, Entry(Trim(e.original), Trim(e.translation)), HandleConflict(ask))
  {
    var original := Trim(e.original);
    var translation := Trim(e.translation);
    table', log' := table, log;
    if original !in table.cells {
      table' := Table(table.keys + [original], table.cells[original := map[language := translation]]);
    } else if language !in table.cells[original] {
      table' := Table(table.keys, table.cells[original := table.cells[original][language := translation]]);
    } else if table.cells[original][language] != translation {
      var stored := table.cells[original][language];
      var value := ConflictChoice(ask(original, stored, translation), stored, translation);
      log' := log + [Conflict(original, language, stored, translation)];
      table' := Table(table.keys, table.cells[original := table.cells[original][language := value]]);
    }
  }

  /** The merge loop of execute(), lines 75-94. */
  method MergeCatalogs(langs: seq<string>, catalogs: map<string, seq<Entry>>, ask: Ask)
    returns (table: Table, log: seq<Conflict>)
    requires Loaded(langs, catalogs)
    ensures Merged(table, log) == Merge(langs, catalogs, HandleConflict(ask))
  {
    ghost var trimmed := TrimmedCatalogs(catalogs);
    table, log := EmptyTable, [];
    for n := 0 to |langs|
      invariant Merged(table, log) == MergeAll(langs, trimmed, n, HandleConflict(ask))
    {
      var language := langs[n];
      var entries := catalogs[language];
      ghost var start := Merged(table, log);
      for k := 0 to |entries|
        invariant Merged(table, log) == MergeEntries(start, language, Trimmed(entries), k, HandleConflict(ask))
      {
        table, log := MergeEntry(table, log, language, entries[k], ask);
      }
    }
  }

  /** Merging keeps every original listed with a row of cells. */
  lemma {:induction false} EntriesValid(m: Merged, language: string, entries: seq<Entry>, k: nat, resolve: Resolve)
    requires m.table.Valid() && k <= |entries|
    ensures MergeEntries(m, language, entries, k, resolve).table.Valid()
  {
    if k > 0 {
      EntriesValid(m, language, entries, k - 1, resolve);
      EntriesValidStep(m, language, entries, k, resolve);
    }
  }

  lemma EntriesValidStep(m: Merged, language: string, entries: seq<Entry>, k: nat, resolve: Resolve)
    requires 0 < k <= |entries| && MergeEntries(m, language, entries, k - 1, resolve).table.Valid()
    ensures MergeEntries(m, language, entries, k, resolve).table.Valid()
  {
    StepCells(MergeEntries(m, language, entries, k - 1, resolve), language, entries[k - 1], resolve);
  }

  lemma {:induction false} MergeValid(langs: seq<string>, catalogs: map<string, seq<Entry>>, n: nat, resolve: Resolve)
    requires Loaded(langs, catalogs) && n <= |langs|
    ensures MergeAll(langs, catalogs, n, resolve).table.Valid()
  {
    if n > 0 {
      MergeValid(langs, catalogs, n - 1, resolve);
      var language := langs[n - 1];
      EntriesValid(MergeAll(langs, catalogs, n - 1, resolve), language, catalogs[language], |catalogs[language]|, resolve);
    }
  }

  /** The CSV header: `original`, then the language keys in load order. */
  function Header(langs: seq<string>): seq<string> {
    ["original"] + langs
  }

  /** The row written for `original`: one cell per header column. */
  function Row(header: seq<string>, original: string, item: map<string, string>): seq<string> {
    seq(|header|, c requires 0 <= c < |header| =>
      if header[c] == "original" then original
      else if header[c] in item then item[header[c]]
      else "")
  }

  /** The rows written to the CSV: the header, then one row per original in
      table order, each as wide as the header, starting with the original,
      with the cell of each language column or "" where it is missing. */
  function Render(langs: seq<string>, t: Table): (rows: seq<seq<string>>)
    requires t.Valid()
    ensures |rows| == |t.keys| + 1 && rows[0] == Header(langs)
    ensures forall i :: 0 < i < |rows| ==> |rows[i]| == |rows[0]| && rows[i][0] == t.keys[i - 1]
    ensures forall i, c :: 0 < i < |rows| && 0 < c < |rows[i]| ==>
              rows[i][c] == if langs[c - 1] == "original" then t.keys[i - 1]
                            else t.Cell(t.keys[i - 1], langs[c - 1]).GetOr("")
  {
    var header := Header(langs);
    [header] + seq(|t.keys|, i requires 0 <= i < |t.keys| => Row(header, t.keys[i], t.cells[t.keys[i]]))
  }

  /** Building the rows, lines 101-117. */
  method WriteRows(langs: seq<string>, table: Table) returns (rows: seq<seq<string>>)
    requires table.Valid()
    ensures rows == Render(langs, table)
  {
    var header := ["original"] + langs;
    rows := [header];
    assert Render(langs, table)[..1] == [header];
    for i := 0 to |table.keys|
      invariant rows == Render(langs, table)[..i + 1]
    {
      var original := table.keys[i];
      var item := table.cells[original];
      var row := [];
      for c := 0 to |header|
        invariant row == Row(header, original, item)[..c]
      {
        if header[c] == "original" {
          row := row + [original];
        } else {
          row := row + [if header[c] in item then item[header[c]] else ""];
        }
      }
      assert row == Row(header, original, item);
      assert Render(langs, table)[..i + 2] == Render(langs, table)[..i + 1] + [row];
      rows := rows + [row];
    }
  }

  /** Lines 75-117 of execute(): merge, then flatten. */
  method Convert(langs: seq<string>, catalogs: map<string, seq<Entry>>, ask: Ask)
    returns (rows: seq<seq<string>>, log: seq<Conflict>)
    requires Loaded(langs, catalogs)
    ensures Merge(langs, catalogs, HandleConflict(ask)).table.Valid()
    ensures rows == Render(langs, Merge(langs, catalogs, HandleConflict(ask)).table)
    ensures log == Merge(langs, catalogs, HandleConflict(ask)).log
  {
    var table;
    table, log := MergeCatalogs(langs, catalogs, ask);
    MergeValid(langs, TrimmedCatalogs(catalogs), |langs|, HandleConflict(ask));
    rows := WriteRows(langs, table);
  }

  // ---------------------------------------------------------------------
  // Properties of the merge

  /** A catalog's originals in entry order. */
  function Originals(entries: seq<Entry>): (r: seq<string>)
    ensures |r| == |entries|
  {
    seq(|entries|, i requires 0 <= i < |entries| => entries[i].original)
  }

  /** Every entry of `entries` has no blank at either end. */
  ghost predicate AllTrimmed(entries: seq<Entry>) {
    forall i :: 0 <= i < |entries| ==> IsTrimmed(entries[i].original) && IsTrimmed(entries[i].translation)
  }

  lemma TrimmedCatalogsTrimmed(catalogs: map<string, seq<Entry>>)
    ensures forall l :: l in TrimmedCatalogs(catalogs) ==> AllTrimmed(TrimmedCatalogs(catalogs)[l])
  {
  }

  /** Every original of the first `n` catalogs, catalog after catalog in
      load order. */
  function AllOriginals(langs: seq<string>, catalogs: map<string, seq<Entry>>, n: nat): seq<string>
    requires Loaded(langs, catalogs) && n <= |langs|
  {
    if n == 0 then [] else AllOriginals(langs, catalogs, n - 1) + Originals(catalogs[langs[n - 1]])
  }

  lemma OriginalsSnoc(entries: seq<Entry>, k: nat, seen: seq<string>)
    requires 0 < k <= |entries|
    ensures seen + Originals(entries)[..k] == (seen + Originals(entries)[..k - 1]) + [entries[k - 1].original]
  {
    assert Originals(entries)[..k] == Originals(entries)[..k - 1] + [entries[k - 1].original];
  }

  /** `t` lists every original it has a row for, in the first-seen order
      of `seen`. */
  ghost predicate ListsFirstSeen(t: Table, seen: seq<string>) {
    t.Valid() && t.keys == FirstSeen(seen)
  }

  /** One step of EntriesKeysFirstSeen, on the tables alone. */
  lemma KeysStep(prev: Table, next: Table, before: seq<string>, o: string)
    requires ListsFirstSeen(prev, before) && next.Valid()
    requires next.keys == if o in prev.cells then prev.keys else prev.keys + [o]
    ensures ListsFirstSeen(next, before + [o])
  {
    FirstSeenSnoc(before, o);
    FirstSeenMembers(before);
    assert o in prev.cells <==> o in prev.keys;
  }

  lemma {:induction false} EntriesKeysFirstSeen(m: Merged, language: string, entries: seq<Entry>, k: nat, resolve: Resolve, seen: seq<string>)
    requires k <= |entries| && ListsFirstSeen(m.table, seen)
    ensures ListsFirstSeen(MergeEntries(m, language, entries, k, resolve).table, seen + Originals(entries)[..k])
  {
    if k == 0 {
      assert seen + Originals(entries)[..k] == seen;
    } else {
      EntriesKeysFirstSeen(m, language, entries, k - 1, resolve, seen);
      EntriesKeysStep(m, language, entries, k, resolve, seen);
    }
  }

  lemma EntriesKeysStep(m: Merged, language: string, entries: seq<Entry>, k: nat, resolve: Resolve, seen: seq<string>)
    requires 0 < k <= |entries|
    requires ListsFirstSeen(MergeEntries(m, language, entries, k - 1, resolve).table, seen + Originals(entries)[..k - 1])
    ensures ListsFirstSeen(MergeEntries(m, language, entries, k, resolve).table, seen + Originals(entries)[..k])
  {
    var prev := MergeEntries(m, language, entries, k - 1, resolve);
    var next := Step(prev, language, entries[k - 1], resolve);
    OriginalsSnoc(entries, k, seen);
    StepCells(prev, language, entries[k - 1], resolve);
    KeysStep(prev.table, next.table, seen + Originals(entries)[..k - 1], entries[k - 1].original);
  }

  /** Row order: the table's originals are the originals of all catalogs,
      each once, in the order they were first seen. */
  lemma {:induction false} KeysFirstSeen(langs: seq<string>, catalogs: map<string, seq<Entry>>, n: nat, resolve: Resolve)
    requires Loaded(langs, catalogs) && n <= |langs|
    ensures ListsFirstSeen(MergeAll(langs, catalogs, n, resolve).table, AllOriginals(langs, catalogs, n))
  {
    if n > 0 {
      KeysFirstSeen(langs, catalogs, n - 1, resolve);
      var entries := catalogs[langs[n - 1]];
      EntriesKeysFirstSeen(MergeAll(langs, catalogs, n - 1, resolve), langs[n - 1], entries, |entries|, resolve,
                           AllOriginals(langs, catalogs, n - 1));
      assert Originals(entries)[..|entries|] == Originals(entries);
    }
  }

  lemma {:induction false} AllOriginalsTrimmed(langs: seq<string>, catalogs: map<string, seq<Entry>>, n: nat)
    requires Loaded(langs, catalogs) && n <= |langs|
    requires forall l :: l in catalogs ==> AllTrimmed(catalogs[l])
    ensures forall x :: x in AllOriginals(langs, catalogs, n) ==> IsTrimmed(x)
  {
    if n > 0 {
      AllOriginalsTrimmed(langs, catalogs, n - 1);
    }
  }

  /** The rows of the exported table: one per trimmed original, each once,
      in the order the originals were first seen catalog after catalog, and
      none with a blank at either end. */
  lemma RowKeys(langs: seq<string>, catalogs: map<string, seq<Entry>>, resolve: Resolve)
    requires Loaded(langs, catalogs)
    ensures var keys := Merge(langs, catalogs, resolve).table.keys;
      && keys == FirstSeen(AllOriginals(langs, TrimmedCatalogs(catalogs), |langs|))
      && Distinct(keys)
      && forall i :: 0 <= i < |keys| ==> IsTrimmed(keys[i])
  {
    var trimmed := TrimmedCatalogs(catalogs);
    KeysFirstSeen(langs, trimmed, |langs|, resolve);
    FirstSeenMembers(AllOriginals(langs, trimmed, |langs|));
    TrimmedCatalogsTrimmed(catalogs);
    AllOriginalsTrimmed(langs, trimmed, |langs|);
  }

  /** Merging the catalog of `language` changes no cell of another column. */
  lemma {:induction false} ColumnIsolation(m: Merged, language: string, entries: seq<Entry>, k: nat, resolve: Resolve)
    requires k <= |entries|
    ensures forall o, l :: l != language ==> MergeEntries(m, language, entries, k, resolve).table.Cell(o, l) == m.table.Cell(o, l)
  {
    if k > 0 {
      ColumnIsolation(m, language, entries, k - 1, resolve);
      ColumnIsolationStep(m, language, entries, k, resolve);
    }
  }

  lemma ColumnIsolationStep(m: Merged, language: string, entries: seq<Entry>, k: nat, resolve: Resolve)
    requires 0 < k <= |entries|
    requires forall o, l :: l != language ==> MergeEntries(m, language, entries, k - 1, resolve).table.Cell(o, l) == m.table.Cell(o, l)
    ensures forall o, l :: l != language ==> MergeEntries(m, language, entries, k, resolve).table.Cell(o, l) == m.table.Cell(o, l)
  {
    StepCells(MergeEntries(m, language, entries, k - 1, resolve), language, entries[k - 1], resolve);
  }

  /** A conflict raised while merging the catalog of `language`: it is
      about that language, names one of its entries, and has a stored value
      that differs from the entry's translation. */
  ghost predicate RaisedBy(c: Conflict, language: string, entries: seq<Entry>) {
    c.language == language && Entry(c.original, c.incoming) in entries && c.stored != c.incoming
  }

  /** Merging one catalog only appends to the log, and only conflicts that
      catalog raised. */
  lemma {:induction false} EntriesConflicts(m: Merged, language: string, entries: seq<Entry>, k: nat, resolve: Resolve)
    requires k <= |entries|
    ensures var r := MergeEntries(m, language, entries, k, resolve);
      && m.log <= r.log
      && forall i :: |m.log| <= i < |r.log| ==> RaisedBy(r.log[i], language, entries)
  {
    if k > 0 {
      EntriesConflicts(m, language, entries, k - 1, resolve);
      EntriesConflictsStep(m, language, entries, k, resolve);
    }
  }

  lemma EntriesConflictsStep(m: Merged, language: string, entries: seq<Entry>, k: nat, resolve: Resolve)
    requires 0 < k <= |entries|
    requires var r := MergeEntries(m, language, entries, k - 1, resolve);
      && m.log <= r.log
      && forall i :: |m.log| <= i < |r.log| ==> RaisedBy(r.log[i], language, entries)
    ensures var r := MergeEntries(m, language, entries, k, resolve);
      && m.log <= r.log
      && forall i :: |m.log| <= i < |r.log| ==> RaisedBy(r.log[i], language, entries)
  {
    StepConflict(MergeEntries(m, language, entries, k - 1, resolve), language, entries[k - 1], resolve);
  }

  /** Every conflict of `log` names a language of `langs` and was raised by
      that language's catalog. */
  ghost predicate RaisedByCatalogs(log: seq<Conflict>, langs: seq<string>, catalogs: map<string, seq<Entry>>) {
    forall i :: 0 <= i < |log| ==>
      && log[i].language in langs
      && log[i].language in catalogs
      && RaisedBy(log[i], log[i].language, catalogs[log[i].language])
  }

  lemma RaisedByExtend(prev: seq<Conflict>, log: seq<Conflict>, langs: seq<string>, language: string,
                       catalogs: map<string, seq<Entry>>)
    requires RaisedByCatalogs(prev, langs, catalogs) && prev <= log && language in catalogs
    requires forall i :: |prev| <= i < |log| ==> RaisedBy(log[i], language, catalogs[language])
    ensures RaisedByCatalogs(log, langs + [language], catalogs)
  {
    forall i | 0 <= i < |log|
      ensures log[i].language in langs + [language]
    {
      if i < |prev| {
        assert log[i] == prev[i];
      }
    }
  }

  lemma {:induction false} ConflictsFromOwnCatalog(langs: seq<string>, catalogs: map<string, seq<Entry>>, n: nat, resolve: Resolve)
    requires Loaded(langs, catalogs) && n <= |langs|
    ensures RaisedByCatalogs(MergeAll(langs, catalogs, n, resolve).log, langs[..n], catalogs)
  {
    if n > 0 {
      ConflictsFromOwnCatalog(langs, catalogs, n - 1, resolve);
      ConflictsFromOwnCatalogStep(langs, catalogs, n, resolve);
    }
  }

  lemma ConflictsFromOwnCatalogStep(langs: seq<string>, catalogs: map<string, seq<Entry>>, n: nat, resolve: Resolve)
    requires Loaded(langs, catalogs) && 0 < n <= |langs|
    requires RaisedByCatalogs(MergeAll(langs, catalogs, n - 1, resolve).log, langs[..n - 1], catalogs)
    ensures RaisedByCatalogs(MergeAll(langs, catalogs, n, resolve).log, langs[..n], catalogs)
  {
    var language := langs[n - 1];
    var prev := MergeAll(langs, catalogs, n - 1, resolve);
    EntriesConflicts(prev, language, catalogs[language], |catalogs[language]|, resolve);
    RaisedByExtend(prev.log, MergeAll(langs, catalogs, n, resolve).log, langs[..n - 1], language, catalogs);
    assert langs[..n] == langs[..n - 1] + [language];
  }

  /** Every conflict of the export names a loaded language, its incoming
      value is an entry of that language's trimmed catalog, and it differs
      from the stored value. */
  lemma MergeConflicts(langs: seq<string>, catalogs: map<string, seq<Entry>>, resolve: Resolve)
    requires Loaded(langs, catalogs)
    ensures RaisedByCatalogs(Merge(langs, catalogs, resolve).log, langs, TrimmedCatalogs(catalogs))
  {
    ConflictsFromOwnCatalog(langs, TrimmedCatalogs(catalogs), |langs|, resolve);
    assert langs[..|langs|] == langs;
  }

  /** The column of `language` translates every original as `entries` does. */
  ghost predicate ColumnHolds(t: Table, language: string, entries: seq<Entry>) {
    forall o :: t.Cell(o, language) == Translation(entries, o)
  }

  /** The columns of `done` hold their catalogs, and no other column has a cell. */
  ghost predicate ColumnsHold(t: Table, done: seq<string>, catalogs: map<string, seq<Entry>>) {
    && (forall l :: l in done ==> l in catalogs && ColumnHolds(t, l, catalogs[l]))
    && (forall o, l :: l !in done ==> t.Cell(o, l) == None)
  }

  /** One step of EntriesMatch: an entry whose original the column does
      not hold yet is stored as it is. */
  lemma MatchStep(m: Merged, language: string, prefix: seq<Entry>, e: Entry, resolve: Resolve)
    requires Translation(prefix, e.original).None? && ColumnHolds(m.table, language, prefix)
    ensures Step(m, language, e, resolve).log == m.log
    ensures ColumnHolds(Step(m, language, e, resolve).table, language, prefix + [e])
  {
    TranslationAppendFresh(prefix, e);
    StepFills(m, language, e, resolve);
    StepCells(m, language, e, resolve);
  }

  /** In a catalog with no repeated original, no entry's original occurs
      before it. */
  lemma DistinctFresh(entries: seq<Entry>, k: nat)
    requires Distinct(Originals(entries)) && 0 < k <= |entries|
    ensures Translation(entries[..k - 1], entries[k - 1].original).None?
    ensures entries[..k] == entries[..k - 1] + [entries[k - 1]]
  {
    forall j | 0 <= j < k - 1
      ensures entries[j].original != entries[k - 1].original
    {
      assert Originals(entries)[j] != Originals(entries)[k - 1];
    }
  }

  /** Merging a catalog with no repeated original into a table with no cell
      in its column raises no conflict, and leaves that column holding
      exactly the catalog's translations. */
  lemma {:induction false} EntriesMatch(m: Merged, language: string, entries: seq<Entry>, k: nat, resolve: Resolve)
    requires k <= |entries| && Distinct(Originals(entries)) && ColumnHolds(m.table, language, [])
    ensures var r := MergeEntries(m, language, entries, k, resolve);
      r.log == m.log && ColumnHolds(r.table, language, entries[..k])
  {
    if k == 0 {
      assert entries[..k] == [];
    } else {
      EntriesMatch(m, language, entries, k - 1, resolve);
      EntriesMatchStep(m, language, entries, k, resolve);
    }
  }

  lemma EntriesMatchStep(m: Merged, language: string, entries: seq<Entry>, k: nat, resolve: Resolve)
    requires 0 < k <= |entries| && Distinct(Originals(entries))
    requires var r := MergeEntries(m, language, entries, k - 1, resolve);
      r.log == m.log && ColumnHolds(r.table, language, entries[..k - 1])
    ensures var r := MergeEntries(m, language, entries, k, resolve);
      r.log == m.log && ColumnHolds(r.table, language, entries[..k])
  {
    DistinctFresh(entries, k);
    MatchStep(MergeEntries(m, language, entries, k - 1, resolve), language, entries[..k - 1], entries[k - 1], resolve);
  }

  /** One step of MergeMatchesCatalogs, on the tables alone: the catalog of
      a new language filled its empty column and nothing else. */
  lemma MatchesStep(prev: Table, next: Table, done: seq<string>, language: string, catalogs: map<string, seq<Entry>>)
    requires language !in done && language in catalogs
    requires ColumnsHold(prev, done, catalogs)
    requires ColumnHolds(next, language, catalogs[language])
    requires forall o, l :: l != language ==> next.Cell(o, l) == prev.Cell(o, l)
    ensures ColumnsHold(next, done + [language], catalogs)
  {
    forall l | l in done
      ensures ColumnHolds(next, l, catalogs[l])
    {
      assert ColumnHolds(prev, l, catalogs[l]);
    }
  }

  /** The catalog of a language not merged yet, with no repeated original,
      merged into a table whose columns are exactly the catalogs of `done`. */
  lemma AddColumn(prev: Merged, done: seq<string>, language: string, catalogs: map<string, seq<Entry>>, resolve: Resolve)
    requires language !in done && language in catalogs && Distinct(Originals(catalogs[language]))
    requires prev.log == [] && ColumnsHold(prev.table, done, catalogs)
    ensures var next := MergeEntries(prev, language, catalogs[language], |catalogs[language]|, resolve);
      next.log == [] && ColumnsHold(next.table, done + [language], catalogs)
  {
    var entries := catalogs[language];
    assert ColumnHolds(prev.table, language, []);
    EntriesMatch(prev, language, entries, |entries|, resolve);
    ColumnIsolation(prev, language, entries, |entries|, resolve);
    assert entries[..|entries|] == entries;
    MatchesStep(prev.table, MergeEntries(prev, language, entries, |entries|, resolve).table, done, language, catalogs);
  }

  lemma {:induction false} MergeMatchesCatalogs(langs: seq<string>, catalogs: map<string, seq<Entry>>, n: nat, resolve: Resolve)
    requires Loaded(langs, catalogs) && n <= |langs|
    requires forall l :: l in catalogs ==> Distinct(Originals(catalogs[l]))
    ensures var r := MergeAll(langs, catalogs, n, resolve);
      r.log == [] && ColumnsHold(r.table, langs[..n], catalogs)
  {
    if n > 0 {
      MergeMatchesCatalogs(langs, catalogs, n - 1, resolve);
      MergeMatchesStep(langs, catalogs, n, resolve);
    }
  }

  lemma MergeMatchesStep(langs: seq<string>, catalogs: map<string, seq<Entry>>, n: nat, resolve: Resolve)
    requires Loaded(langs, catalogs) && 0 < n <= |langs|
    requires forall l :: l in catalogs ==> Distinct(Originals(catalogs[l]))
    requires var r := MergeAll(langs, catalogs, n - 1, resolve);
      r.log == [] && ColumnsHold(r.table, langs[..n - 1], catalogs)
    ensures var r := MergeAll(langs, catalogs, n, resolve);
      r.log == [] && ColumnsHold(r.table, langs[..n], catalogs)
  {
    var prev := MergeAll(langs, catalogs, n - 1, resolve);
    var language := langs[n - 1];
    DistinctLast(langs, n);
    assert MergeAll(langs, catalogs, n, resolve) == MergeEntries(prev, language, catalogs[language], |catalogs[language]|, resolve);
    AddColumn(prev, langs[..n - 1], language, catalogs, resolve);
  }

  /** When no catalog repeats a trimmed original, handleConflict is never
      called, however many languages share an original, and each language
      column holds exactly that language's trimmed translations. */
  lemma NoConflictsWithoutRepeats(langs: seq<string>, catalogs: map<string, seq<Entry>>, resolve: Resolve)
    requires Loaded(langs, catalogs)
    requires forall l :: l in catalogs ==> Distinct(Originals(Trimmed(catalogs[l])))
    ensures var r := Merge(langs, catalogs, resolve);
      && r.log == []
      && (forall o, l :: l in langs ==> r.table.Cell(o, l) == Translation(Trimmed(catalogs[l]), o))
      && (forall o, l :: l !in langs ==> r.table.Cell(o, l) == None)
  {
    MergeMatchesCatalogs(langs, TrimmedCatalogs(catalogs), |langs|, resolve);
    assert langs[..|langs|] == langs;
  }

  /** Every cell of the table has no blank at either end. */
  ghost predicate CellsTrimmed(t: Table) {
    forall o, l :: t.Cell(o, l).Some? ==> IsTrimmed(t.Cell(o, l).value)
  }

  lemma StepCellsTrimmed(m: Merged, language: string, e: Entry, resolve: Resolve)
    requires CellsTrimmed(m.table) && IsTrimmed(e.translation)
    requires forall o, s, t :: IsTrimmed(s) && IsTrimmed(t) ==> IsTrimmed(resolve(o, s, t))
    ensures CellsTrimmed(Step(m, language, e, resolve).table)
  {
    StepCells(m, language, e, resolve);
  }

  lemma {:induction false} EntriesCellsTrimmed(m: Merged, language: string, entries: seq<Entry>, k: nat, resolve: Resolve)
    requires k <= |entries| && CellsTrimmed(m.table) && AllTrimmed(entries)
    requires forall o, s, t :: IsTrimmed(s) && IsTrimmed(t) ==> IsTrimmed(resolve(o, s, t))
    ensures CellsTrimmed(MergeEntries(m, language, entries, k, resolve).table)
  {
    if k > 0 {
      EntriesCellsTrimmed(m, language, entries, k - 1, resolve);
      StepCellsTrimmed(MergeEntries(m, language, entries, k - 1, resolve), language, entries[k - 1], resolve);
    }
  }

  lemma {:induction false} MergeCellsTrimmed(langs: seq<string>, catalogs: map<string, seq<Entry>>, n: nat, resolve: Resolve)
    requires Loaded(langs, catalogs) && n <= |langs|
    requires forall l :: l in catalogs ==> AllTrimmed(catalogs[l])
    requires forall o, s, t :: IsTrimmed(s) && IsTrimmed(t) ==> IsTrimmed(resolve(o, s, t))
    ensures CellsTrimmed(MergeAll(langs, catalogs, n, resolve).table)
  {
    if n > 0 {
      MergeCellsTrimmed(langs, catalogs, n - 1, resolve);
      var language := langs[n - 1];
      EntriesCellsTrimmed(MergeAll(langs, catalogs, n - 1, resolve), language, catalogs[language], |catalogs[language]|, resolve);
    }
  }

  /** Cells are trimmed translations or answers typed at the prompt: when
      every answer is trimmed, so is every cell of the export. */
  lemma CellsAreTrimmed(langs: seq<string>, catalogs: map<string, seq<Entry>>, ask: Ask)
    requires Loaded(langs, catalogs)
    requires forall o, s, t :: IsTrimmed(ask(o, s, t))
    ensures CellsTrimmed(Merge(langs, catalogs, HandleConflict(ask)).table)
  {
    HandleConflictTrimmed(ask);
    TrimmedCatalogsTrimmed(catalogs);
    MergeCellsTrimmed(langs, TrimmedCatalogs(catalogs), |langs|, HandleConflict(ask));
  }
}

/**
 * The message catalog both commands work on: an ordered list of
 * (original, translation) entries, as a `Translations` object of the gettext
 * library holds them, together with the conflict tuple both merges raise.
 */
module Translations {
  import opened Wrappers
  import opened Text

  datatype Entry = Entry(original: string, translation: string)

  /** A conflict raised to the resolver: the same original in the same
      language with a stored value and a different incoming one. */
  datatype Conflict = Conflict(original: string, language: string, stored: string, incoming: string)

  /** What the user types at the conflict prompt, given the original, the
      stored value and the incoming value the prompt shows. */
  type Ask = (string, string, string) -> string

  /** The index of the first entry whose original is `original`: the lookup
      of `find(null, $original)`. */
  function IndexOf(entries: seq<Entry>, original: string): (r: Option<nat>)
    ensures r.Some? ==> r.value < |entries| && entries[r.value].original == original
    ensures r.Some? ==> forall k :: 0 <= k < r.value ==> entries[k].original != original
    ensures r.None? ==> forall k :: 0 <= k < |entries| ==> entries[k].original != original
  {
    if entries == [] then None
    else if entries[0].original == original then Some(0)
    else match IndexOf(entries[1..], original)
      case None => None
      case Some(i) => Some(i + 1)
  }

  /** The translation a catalog holds for `original`: that of its first
      entry with that original. */
  function Translation(entries: seq<Entry>, original: string): Option<string> {
    match IndexOf(entries, original)
    case Some(i) => Some(entries[i].translation)
    case None => None
  }

  /** Adding an entry to a catalog, which is keyed by original: the entry is
      appended when its original is new, and an existing entry for that
      original stays where and as it is. */
  function Added(entries: seq<Entry>, e: Entry): (r: seq<Entry>)
    ensures IndexOf(r, e.original).Some?
    ensures IndexOf(entries, e.original).None? ==> r[IndexOf(r, e.original).value] == e
    ensures |entries| <= |r| <= |entries| + 1 && entries == r[..|entries|]
    ensures IndexOf(entries, e.original).Some? ==> r == entries
    ensures IndexOf(entries, e.original).None? ==> r == entries + [e]
  {
    if IndexOf(entries, e.original).None? then
      assert IndexOf(entries + [e], e.original) == Some(|entries|) by {
        IndexOfAppend(entries, e, e.original);
      }
      entries + [e]
    else entries
  }

  /** Appending an entry does not move the lookup of any original already
      present, and finds the new entry for an original that was absent. */
  lemma {:induction false} IndexOfAppend(entries: seq<Entry>, e: Entry, original: string)
    ensures IndexOf(entries + [e], original) ==
              if IndexOf(entries, original).Some? then IndexOf(entries, original)
              else if e.original == original then Some(|entries|)
              else None
  {
    if entries != [] {
      assert (entries + [e])[1..] == entries[1..] + [e];
      IndexOfAppend(entries[1..], e, original);
    }
  }

  /** Rewriting an entry in place, with its original kept, moves no lookup. */
  lemma {:induction false} IndexOfUpdate(entries: seq<Entry>, i: nat, e: Entry, original: string)
    requires i < |entries| && entries[i].original == e.original
    ensures IndexOf(entries[i := e], original) == IndexOf(entries, original)
  {
    if i == 0 {
      assert entries[i := e][1..] == entries[1..];
    } else {
      assert entries[i := e][1..] == entries[1..][i - 1 := e];
      IndexOfUpdate(entries[1..], i - 1, e, original);
    }
  }

  /** Appending an entry whose original is absent adds exactly that
      translation and changes no other lookup. */
  lemma TranslationAppendFresh(entries: seq<Entry>, e: Entry)
    requires Translation(entries, e.original).None?
    ensures forall o :: Translation(entries + [e], o) ==
              if o == e.original then Some(e.translation) else Translation(entries, o)
  {
    forall o ensures Translation(entries + [e], o) ==
                     if o == e.original then Some(e.translation) else Translation(entries, o) {
      IndexOfAppend(entries, e, o);
    }
  }

  /** `next` keeps every entry of `prev` at its position with its original,
      and changes a translation only where it was empty in PHP's sense:
      nothing is deleted and no non-empty translation is overwritten. */
  predicate Grows(prev: seq<Entry>, next: seq<Entry>) {
    && |prev| <= |next|
    && forall k :: 0 <= k < |prev| ==>
         && next[k].original == prev[k].original
         && (next[k].translation == prev[k].translation || PhpEmpty(prev[k].translation))
  }

  lemma GrowsTransitive(a: seq<Entry>, b: seq<Entry>, c: seq<Entry>)
    requires Grows(a, b) && Grows(b, c)
    ensures Grows(a, c)
  {
  }

  /** Growing keeps every translation that is not empty in PHP's sense:
      the entry `find` reaches stays first for its original and keeps its
      value. */
  lemma GrowsKeepsFilled(prev: seq<Entry>, next: seq<Entry>, original: string)
    requires Grows(prev, next)
    requires Translation(prev, original).Some? && !PhpEmpty(Translation(prev, original).value)
    ensures Translation(next, original) == Translation(prev, original)
  {
    var i := IndexOf(prev, original).value;
    assert next[i].original == original;
    assert forall k :: 0 <= k < i ==> next[k].original == prev[k].original;
  }

  /** A loaded catalog (a gettext `Translations` object). The import merge
      edits its entries in place. */
  class Catalog {
    var entries: seq<Entry>

    constructor (entries: seq<Entry>)
      ensures this.entries == entries
    {
      this.entries := entries;
    }

    /** `find(null, $original)`: the position of the entry for `original`. */
    function Find(original: string): Option<nat>
      reads this
    {
      IndexOf(entries, original)
    }

    /** `$translation->setTranslation($s)` on the entry at `i`. */
    method SetTranslation(i: nat, translation: string)
      requires i < |entries|
      modifies this
      ensures entries == old(entries)[i := old(entries)[i].(translation := translation)]
    {
      entries := entries[i := entries[i].(translation := translation)];
    }

    /** `$catalog[] = $entry`. */
    method Add(e: Entry)
      modifies this
      ensures entries == Added(old(entries), e)
    {
      if Find(e.original).None? {
        entries := entries + [e];
      }
    }
  }
}

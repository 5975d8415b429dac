/** How the component decides that something on screen is already in the
    collection: the `watchedItems.find` of a search card and the one of the
    detail view. */
module Identity {
  import opened JsValues
  import opened Seqs
  import opened Media
  import Text

  /** Same title ignoring case, and same type. */
  predicate SameTitleAndKind(e: Entry, title: string, kind: Kind) {
    Text.Lower(e.title) == Text.Lower(title) && e.kind == kind
  }

  /** The search-card predicate: same provider id, or same title and type. */
  function MatchesResult(row: Row): Entry -> bool {
    (e: Entry) => e.tmdbId == Some(row.id) ||
                  SameTitleAndKind(e, DisplayTitle(row), KindOf(row.mediaType))
  }

  /** The `existingItem` of a search card. */
  function FindForResult(items: seq<Entry>, row: Row): (r: Option<Entry>)
    ensures r.None? <==> forall e :: e in items ==>
      e.tmdbId != Some(row.id) && !SameTitleAndKind(e, DisplayTitle(row), KindOf(row.mediaType))
    ensures r.Some? ==> r.value.tmdbId == Some(row.id) ||
                        SameTitleAndKind(r.value, DisplayTitle(row), KindOf(row.mediaType))
    ensures r.Some? ==> exists i :: FirstMatchAt(items, MatchesResult(row), i) && items[i] == r.value
  {
    Find(items, MatchesResult(row))
  }

  /** Where the detail view was opened: a collection card or a search card. */
  datatype Origin = FromCollection | FromSearch

  /** The item the detail view shows: `id` is a collection entry's local id
      when it was opened from the collection, and the provider id when it was
      opened from a search result, which carries no `tmdb_id`. */
  datatype Selected = Selected(id: int, tmdbId: Option<int>, title: string, kind: Kind, origin: Origin)

  /** `setSelectedItem(item)` on a collection card. */
  function SelectEntry(e: Entry): (s: Selected)
    ensures s.id == e.id && s.tmdbId == e.tmdbId && s.title == e.title && s.kind == e.kind
    ensures s.origin == FromCollection
  {
    Selected(e.id, e.tmdbId, e.title, e.kind, FromCollection)
  }

  /** `setSelectedItem({ ...item, title, type, ... })` on a search card. */
  function SelectRow(row: Row): (s: Selected)
    ensures s.id == row.id && s.tmdbId.None?
    ensures s.title == DisplayTitle(row) && (s.kind == Series <==> row.mediaType == "tv")
    ensures s.origin == FromSearch
  {
    Selected(row.id, None, DisplayTitle(row), KindOf(row.mediaType), FromSearch)
  }

  /** The detail view's predicate as written: `tmdb_id === item.tmdb_id`
      holds when both are undefined. */
  function MatchesSelectedAsWritten(sel: Selected): Entry -> bool {
    (e: Entry) => StrictEq(e.tmdbId, sel.tmdbId) || e.id == sel.id ||
                  SameTitleAndKind(e, sel.title, sel.kind)
  }

  function FindForSelectedAsWritten(items: seq<Entry>, sel: Selected): (r: Option<Entry>)
    ensures r.Some? ==> r.value in items && MatchesSelectedAsWritten(sel)(r.value)
    ensures r.None? <==> forall e :: e in items ==> !MatchesSelectedAsWritten(sel)(e)
    ensures r.Some? ==> exists i :: FirstMatchAt(items, MatchesSelectedAsWritten(sel), i) && items[i] == r.value
  {
    Find(items, MatchesSelectedAsWritten(sel))
  }

  /** An entry without a provider id, stored by an older version, is reported
      as the collected copy of an unrelated title: opening a legacy entry
      "Heat" finds the legacy entry "Alien" listed before it, so its rating
      buttons change "Alien". */
  lemma LegacyEntryMatchesUnrelated()
    ensures var alien := Entry(1, None, "Alien", Movie, Null, Null, "", None, Some(Love), "2024-01-01", None, [], []);
            var heat := Entry(2, None, "Heat", Movie, Null, Null, "", None, None, "2024-01-02", None, [], []);
            FindForSelectedAsWritten([alien, heat], SelectEntry(heat)) == Some(alien) &&
            alien.id != heat.id && !SameTitleAndKind(alien, heat.title, heat.kind)
  {
    var alien := Entry(1, None, "Alien", Movie, Null, Null, "", None, Some(Love), "2024-01-01", None, [], []);
    var heat := Entry(2, None, "Heat", Movie, Null, Null, "", None, None, "2024-01-02", None, [], []);
    assert MatchesSelectedAsWritten(SelectEntry(heat))(alien);
    assert |Text.Lower("Alien")| != |Text.Lower("Heat")|;
  }

  /** The same happens to every search result opened in the detail view. */
  lemma LegacyEntryMatchesAnySearchResult(items: seq<Entry>, row: Row)
    requires items != [] && items[0].tmdbId.None?
    ensures FindForSelectedAsWritten(items, SelectRow(row)) == Some(items[0])
  {
    assert MatchesSelectedAsWritten(SelectRow(row))(items[0]);
  }

  /** The provider id the shown item is known by: a search result's own
      `id`, or a collection entry's `tmdb_id`. */
  function ProviderId(sel: Selected): (p: Option<int>)
    ensures sel.origin == FromSearch ==> p == Some(sel.id)
    ensures sel.origin == FromCollection ==> p == sel.tmdbId
  {
    if sel.origin == FromSearch then Some(sel.id) else sel.tmdbId
  }

  /** The detail view's predicate, corrected: provider ids compared only when
      the shown item has one (a search result's being its `id`), and local
      ids only for an item opened from the collection. */
  function MatchesSelected(sel: Selected): Entry -> bool {
    (e: Entry) => (ProviderId(sel).Some? && e.tmdbId == ProviderId(sel)) ||
                  (sel.origin == FromCollection && e.id == sel.id) ||
                  SameTitleAndKind(e, sel.title, sel.kind)
  }

  /** The detail view's `existingItem`, corrected: the first entry sharing a
      defined provider id, the local id of a collection item, or the title and
      type with the item shown; an entry lacking a provider id is never found
      through it. */
  function FindForSelected(items: seq<Entry>, sel: Selected): (r: Option<Entry>)
    ensures r.Some? ==> (r.value in items &&
      ((ProviderId(sel).Some? && r.value.tmdbId == ProviderId(sel)) ||
       (sel.origin == FromCollection && r.value.id == sel.id) ||
       SameTitleAndKind(r.value, sel.title, sel.kind)))
    ensures r.Some? && r.value.tmdbId.None? ==>
      (sel.origin == FromCollection && r.value.id == sel.id) || SameTitleAndKind(r.value, sel.title, sel.kind)
    ensures r.None? <==> forall e :: e in items ==> !MatchesSelected(sel)(e)
    ensures r.Some? ==> exists i :: FirstMatchAt(items, MatchesSelected(sel), i) && items[i] == r.value
  {
    Find(items, MatchesSelected(sel))
  }

  /** The correction only matters for items without a provider id: for a
      collection entry with one, both predicates agree. */
  lemma CorrectionAgreesWithProviderId(items: seq<Entry>, e: Entry)
    requires e.tmdbId.Some?
    ensures FindForSelected(items, SelectEntry(e)) == FindForSelectedAsWritten(items, SelectEntry(e))
  {
    FindCongruent(items, MatchesSelected(SelectEntry(e)), MatchesSelectedAsWritten(SelectEntry(e)));
  }

  /** A search result opened in the detail view compares its provider id only
      with local ids: an entry collected under that provider id whose stored
      title differs (say "The Matrix" against the provider's "Matrix") is
      found by the search card but not by the detail view, which then offers
      to add it again. */
  lemma RenamedResultMissedAsWritten(e: Entry, row: Row)
    requires e.tmdbId == Some(row.id) && e.id != row.id
    requires !SameTitleAndKind(e, DisplayTitle(row), KindOf(row.mediaType))
    ensures FindForResult([e], row) == Some(e)
    ensures FindForSelectedAsWritten([e], SelectRow(row)).None?
  {
    assert MatchesResult(row)(e);
    assert !MatchesSelectedAsWritten(SelectRow(row))(e);
    assert forall x :: x in [e] ==> x == e;
  }

  /** The case in point: "The Matrix", collected under provider id 603, and
      the provider's row 603 now titled "Matrix". */
  lemma RenamedMatrixMissedAsWritten()
    ensures var e := Entry(1700000000000, Some(603), "The Matrix", Movie, Null, Null, "", None, Some(Up), "2024-01-01", None, [], []);
            var row := Row(603, Some("Matrix"), None, "movie", Str("/m.jpg"), Null, "", None, None, Some(87), Some([]), Some([]));
            FindForResult([e], row) == Some(e) && FindForSelectedAsWritten([e], SelectRow(row)).None?
  {
    var e := Entry(1700000000000, Some(603), "The Matrix", Movie, Null, Null, "", None, Some(Up), "2024-01-01", None, [], []);
    var row := Row(603, Some("Matrix"), None, "movie", Str("/m.jpg"), Null, "", None, None, Some(87), Some([]), Some([]));
    assert |Text.Lower(e.title)| != |Text.Lower(DisplayTitle(row))|;
    RenamedResultMissedAsWritten(e, row);
  }

  /** Corrected, the detail view of a search result finds exactly the entry its
      search card finds. */
  lemma DetailOfResultMatchesCard(items: seq<Entry>, row: Row)
    ensures FindForSelected(items, SelectRow(row)) == FindForResult(items, row)
  {
    FindCongruent(items, MatchesSelected(SelectRow(row)), MatchesResult(row));
  }

  /** An entry opened from the collection is found (possibly as an earlier
      entry with the same provider id or title). */
  lemma EntryIsFound(items: seq<Entry>, e: Entry)
    requires e in items
    ensures FindForSelected(items, SelectEntry(e)).Some?
  {
    assert MatchesSelected(SelectEntry(e))(e);
  }

  /** A search result collected under its provider id is found by the search
      card, whatever its title. */
  lemma CollectedResultIsFound(items: seq<Entry>, row: Row, now: int, today: string, rating: Option<Rating>)
    ensures FindForResult([NewEntry(row, rating, now, today)] + items, row) == Some(NewEntry(row, rating, now, today))
  {
    var e := NewEntry(row, rating, now, today);
    assert ([e] + items)[0] == e;
    assert MatchesResult(row)(e);
  }

  /** An entry whose provider id differs is found only through its title. */
  lemma OtherProviderIdNeedsTitle(items: seq<Entry>, row: Row)
    requires forall e :: e in items ==> e.tmdbId != Some(row.id)
    ensures FindForResult(items, row).Some? ==>
      SameTitleAndKind(FindForResult(items, row).value, DisplayTitle(row), KindOf(row.mediaType))
  {
  }

  lemma {:induction false} FindCongruent(s: seq<Entry>, p: Entry -> bool, q: Entry -> bool)
    requires forall x :: x in s ==> p(x) == q(x)
    ensures Find(s, p) == Find(s, q)
  {
    if s != [] {
      assert s[0] in s;
      FindCongruent(s[1..], p, q);
      assert forall x :: x in s[1..] ==> x in s;
    }
  }
}

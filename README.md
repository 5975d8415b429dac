# Nextflix collection core, in Dafny

Nextflix is a single-page React application (`src/App.jsx`) in which a user
searches The Movie Database (TMDB) for movies and TV series, rates titles
("love", "up", "down") and keeps them in a personal collection persisted in
the browser's `localStorage` under the key `nextflix-data`.

This project models the logic of that component that is not presentation:

- **JsValues**: the JavaScript values it relies on: `null`/`undefined` as
  `Option`, a JSON string property that may be absent, `null` or a string,
  the `||` operator on strings, and `===` between possibly undefined values.
- **Seqs**: `filter`, `map` and `find` on arrays, with their laws.
- **Text**: `trim`, `toLowerCase` and the string order used for sorting.
- **Media**: the provider row, the collection entry, and the entry that
  `addToWatchlist` builds from a row.
- **Search**: the result step of `searchTMDB`: a blank query clears the
  results; otherwise the provider rows are filtered and their cast and
  genres reset.
- **Collection**: the updates `addToWatchlist`, `updateRating` and
  `deleteItem` make to `watchedItems`, and the rating toggle of the buttons.
- **Identity**: how a search card and the detail view decide that an item is
  already in the collection.
- **Actions**: what each rating or remove button does to the collection.
- **Projection**: `filteredAndSortedItems`: filter by type and rating, then a
  stable sort by one of four keys.
- **Stats**: the six counters of the stats row.
- **Watchlist**: the component's state as a class `Store` with the
  collection, the `isInitialized` flag and the persisted copy; its methods
  are the load and save effects and the state updates. A state update is
  followed by the save effect of the render it causes, as React runs it.

The browser, the network and the clock are parameters: the provider's
answer is a `Search.Response`, `Date.now()` is `now` and today's ISO date is
`today`.

## Model

| member | source | states |
|---|---|---|
| JsValues.Or | src/App.jsx:153 | `a \|\| b` on strings is `a` exactly when `a` is a non-empty string, and `b` otherwise |
| Seqs.Filter | src/App.jsx:178 | `filter` keeps exactly the elements satisfying the predicate, never more than it was given |
| Seqs.Count | src/App.jsx:758-762 | the length of a filter is bounded by the array's length |
| Seqs.Map | src/App.jsx:122-126 | `map` applies the function to each element, position by position |
| Seqs.FirstIndex | src/App.jsx:339-343 | `findIndex` gives the first position satisfying the predicate, or none when no element does |
| Seqs.Find | src/App.jsx:339-343 | `find` gives the first element satisfying the predicate, and `undefined` exactly when none does |
| Seqs.FilterIsSubsequence | src/App.jsx:178 | a filter keeps the elements in their original order |
| Seqs.FilterConcat | src/App.jsx:114-121 | filtering distributes over concatenation |
| Seqs.FilterAll | src/App.jsx:178 | a filter that every element passes returns the array unchanged |
| Seqs.FilterMultiset | src/App.jsx:194-199 | a filter keeps each passing element as many times as it occurs |
| Seqs.FilterFilter | src/App.jsx:195-199 | two filters in a row are one filter by the conjunction |
| Seqs.CountSplit | src/App.jsx:757-759 | counts by two complementary predicates add up to the length |
| Seqs.CountCons | src/App.jsx:757-762 | a count grows by one exactly when the prepended element passes |
| Seqs.FilterMap | src/App.jsx:114-126 | when the map does not change what the filter sees, filter-then-map equals map-then-filter |
| Seqs.MapConcat | src/App.jsx:122-126 | `map` distributes over concatenation |
| Seqs.SubsequenceOfTail | src/App.jsx:178 | a subsequence of the tail is a subsequence of the whole |
| Seqs.SubsequenceOfSkip | src/App.jsx:178 | dropping the heads of a subsequence and of the whole leaves a subsequence |
| Text.TrimStart | src/App.jsx:39 | the leading part of `trim` leaves a suffix of the string that is empty or starts with a non-white character |
| Text.TrimEnd | src/App.jsx:39 | the trailing part of `trim` leaves a prefix of the string that is empty or ends with a non-white character |
| Text.Trim | src/App.jsx:39 | `query.trim()` is a contiguous slice of the query with no white space at either end, empty exactly when the query is all white space |
| Text.TrimEmptyIffAllWhitespace | src/App.jsx:39 | `!query.trim()` holds exactly when every character of the query is white space |
| Text.TrimEndKeepsNonWhitespace | src/App.jsx:39 | trimming never removes a character up to the last non-white one |
| Text.LowerChar | src/App.jsx:341 | an ASCII capital becomes its small letter (code plus 32) and every other character is unchanged |
| Text.Lower | src/App.jsx:341 | `toLowerCase` keeps the length and lower-cases each character in its place, as `LowerChar` does |
| Text.LeqTotal | src/App.jsx:203 | any two titles are comparable under the sort order |
| Text.LeqTransitive | src/App.jsx:203 | the sort order on strings is transitive |
| Text.LeqAntisymmetric | src/App.jsx:203 | two strings each no later than the other are equal |
| Media.KindOf | src/App.jsx:154 | an entry is a series exactly when the row's `media_type` is 'tv' |
| Media.DisplayTitle | src/App.jsx:153 | the title is `title` when that is non-empty, else `name` |
| Media.NewEntry | src/App.jsx:149-164 | the new entry carries the timestamp id, the provider id, the title, the type, poster, backdrop, overview, release date (or first air date), the given rating, today's date, the provider's average, and cast and genres defaulting to empty |
| Search.Reset | src/App.jsx:122-126 | a kept row differs from the provider row only in its cast and genres, which are empty |
| Search.Keep | src/App.jsx:115-121 | the filter of the provider rows; its meaning without JavaScript truthiness is stated by `Search.KeepExplained` |
| Search.Results | src/App.jsx:38-42 | a blank query or a failed request gives no results; every result passes the filter and has empty cast and genres; never more results than rows |
| Search.KeepExplained | src/App.jsx:115-121 | a row is kept exactly when it is a movie or tv row with a positive average and a non-empty poster, or no poster property at all and a non-empty backdrop |
| Search.BlankQueryNeedsNoProvider | src/App.jsx:39-42 | an all-white-space query gives no results whatever the provider would answer |
| Search.NonBlankQueryUsesProvider | src/App.jsx:113-128 | a query with a non-white character yields the provider rows filtered and reset |
| Search.ResultsOfConcat | src/App.jsx:114-126 | results keep the provider's order: those of `a + b` are those of `a` followed by those of `b` |
| Search.ResultsOfOne | src/App.jsx:114-126 | a single row gives one reset result when kept, none otherwise |
| Search.ResultsAreRowsInOrder | src/App.jsx:114-126 | the results are exactly the kept provider rows with cast and genres reset, in provider order |
| Collection.Prepend | src/App.jsx:166 | the new entry comes first and the collection follows it unchanged |
| Collection.WithRating | src/App.jsx:169-175 | `updateRating` changes the rating of every entry with that id and nothing else, keeping length and order |
| Collection.WithoutId | src/App.jsx:177-179 | `deleteItem` keeps exactly the entries with another id |
| Collection.Toggle | src/App.jsx:273 | pressing the button of the current rating clears it; any other press sets the pressed rating |
| Collection.ToggleTwice | src/App.jsx:273 | two presses of one button restore the rating when it was unset or that rating; from another rating they leave it unset |
| Collection.PrependPreservesOrder | src/App.jsx:166 | adding keeps every earlier entry, one position later, and adds exactly one entry |
| Collection.RateUnknownId | src/App.jsx:169-175 | rating an id no entry has changes nothing |
| Collection.RateTwice | src/App.jsx:169-175 | a second rating of the same id overrides the first, so a repeated update is idempotent |
| Collection.RateSame | src/App.jsx:169-175 | writing the rating the entries already have changes nothing |
| Collection.RateKeepsIds | src/App.jsx:169-175 | rating keeps every id, unique ids, and every field but the rating |
| Collection.DeleteAbsent | src/App.jsx:177-179 | deleting an id no entry has changes nothing |
| Collection.DeleteKeepsOthers | src/App.jsx:177-179 | deleting keeps the other entries in order and with their multiplicity, and removes as many as carry the id |
| Collection.DeleteOne | src/App.jsx:177-179 | with unique ids, deleting an entry's id removes exactly that entry |
| Collection.OnlyOneWithId | src/App.jsx:177-179 | with unique ids, no other entry carries an entry's id |
| Collection.DeleteKeepsUnique | src/App.jsx:177-179 | deleting keeps ids unique |
| Collection.SubsequenceKeepsUnique | src/App.jsx:177-179 | any ordered selection of a collection with unique ids has unique ids |
| Collection.SubsequenceMembers | src/App.jsx:177-179 | an ordered selection holds only entries of the collection |
| Collection.AddThenDelete | src/App.jsx:149-179 | adding under a fresh id keeps ids unique, and deleting that id gives back the collection |
| Identity.FindForResult | src/App.jsx:339-343 | the search card finds the first entry with the row's provider id or the same title (ignoring case) and type, and nothing exactly when no entry matches |
| Identity.SelectEntry | src/App.jsx:225 | the detail view of a collection entry carries its local id, provider id, title and type, and is marked as opened from the collection |
| Identity.SelectRow | src/App.jsx:348-360 | the detail view of a search result carries the provider id as `id`, no `tmdb_id`, the display title and the type, and is marked as opened from a search |
| Identity.FindForSelectedAsWritten | src/App.jsx:467-472 | the detail view's lookup as written finds the first entry satisfying its predicate, and nothing exactly when none does |
| Identity.LegacyEntryMatchesUnrelated | src/App.jsx:467-472 | as written, an entry without a provider id is found for another such entry with a different id and title |
| Identity.LegacyEntryMatchesAnySearchResult | src/App.jsx:467-472 | as written, a first entry without a provider id is found for every search result opened in the detail view |
| Identity.ProviderId | src/App.jsx:348-360 | the provider id of the shown item: a search result's `id`, a collection entry's `tmdb_id` |
| Identity.FindForSelected | src/App.jsx:467-472 | the corrected lookup finds the first entry sharing a defined provider id, the local id of a collection item, or the title and type, and nothing exactly when none does |
| Identity.CorrectionAgreesWithProviderId | src/App.jsx:467-472 | for a collection entry with a provider id, the corrected lookup and the one as written agree |
| Identity.RenamedResultMissedAsWritten | src/App.jsx:467-472 | as written, a search result whose collected entry has its provider id but another title is found by the search card and not by the detail view |
| Identity.RenamedMatrixMissedAsWritten | src/App.jsx:467-472 | the case in point: "The Matrix" collected under 603 is missed by the detail view of row 603 "Matrix" |
| Identity.DetailOfResultMatchesCard | src/App.jsx:339-343 | corrected, the detail view of a search result finds exactly the entry its search card finds |
| Identity.EntryIsFound | src/App.jsx:467-472 | a collection entry opened in the detail view is always found |
| Identity.CollectedResultIsFound | src/App.jsx:339-343 | a search result just added is found by its search card as that new entry |
| Identity.OtherProviderIdNeedsTitle | src/App.jsx:339-343 | when no entry has the row's provider id, a found entry has the same title and type |
| Identity.FindCongruent | src/App.jsx:339-343 | two predicates that agree on the collection find the same entry |
| Actions.PressOnEntry | src/App.jsx:270-303 | a collection card's button toggles that entry's rating, on every entry with its id, and changes nothing else |
| Actions.PressOnResult | src/App.jsx:400-447 | a search card's button adds the result first with the pressed rating when it is not collected, and otherwise toggles the found entry's rating: sets the pressed rating when it differs, clears it when it is the same |
| Actions.PressInDetailOfResult | src/App.jsx:574-666 | the detail view of a search result adds it first with the pressed rating when not collected, and otherwise toggles the found entry's rating |
| Actions.PressInDetailOfEntry | src/App.jsx:574-613 | the detail view of a collection entry always finds an entry, and toggles the rating of the entry found |
| Actions.RemoveInDetail | src/App.jsx:627-631 | "Remove from Collection" deletes the found entry's id as `deleteItem` does, which shortens the collection |
| Actions.DetailPressIsCardPress | src/App.jsx:400-447 | a rating button in a search result's detail view does what the same button on its search card does |
| Actions.DetailPressIsEntryPress | src/App.jsx:574-613 | when no earlier entry matches the opened one, its detail view's button does what its card's button does |
| Actions.RemoveInDetailRemovesOne | src/App.jsx:627-631 | with unique ids, the remove button takes out exactly the found entry and keeps the others in order |
| Actions.DeleteCountsDown | src/App.jsx:627-631 | deleting the id of a collected entry shortens the collection |
| Actions.FindIgnoresRating | src/App.jsx:339-343 | a lookup that ignores ratings stops at the same position after a rating change |
| Actions.PressNewResultTwice | src/App.jsx:400-447 | two presses on an uncollected search result leave it collected, first, and unrated |
| Actions.PressFoundResultTwice | src/App.jsx:400-447 | two presses on a collected search result apply two toggles to that entry only, restoring the collection when it was unrated or had that rating |
| Projection.Leq | src/App.jsx:201-210 | the comparator per key; that it is a total preorder is stated by `Projection.LeqTotal` and `Projection.LeqTransitive` |
| Projection.Insert | src/App.jsx:200-211 | inserting adds exactly one element and loses none |
| Projection.Sort | src/App.jsx:200-211 | sorting is a permutation |
| Projection.Ties | src/App.jsx:200-211 | the entries tied with a given one under the comparator, in order |
| Projection.LeqTotal | src/App.jsx:200-211 | the comparator orders every pair one way or the other |
| Projection.LeqTransitive | src/App.jsx:200-211 | the comparator is transitive for every key |
| Projection.InsertSorted | src/App.jsx:200-211 | inserting into a sorted list keeps it sorted |
| Projection.SortSorted | src/App.jsx:200-211 | the sorted list is ordered title ascending, or year, provider rating or date watched descending |
| Projection.TiesInsert | src/App.jsx:200-211 | insertion keeps an element after the elements tied with it |
| Projection.TiesCons | src/App.jsx:200-211 | the ties of a list with a head are the head's own tie followed by the tail's |
| Projection.NotBothTied | src/App.jsx:200-211 | two entries the comparator orders strictly are not both tied with a third |
| Projection.SortStable | src/App.jsx:200-211 | the sort is stable: tied entries keep their collection order |
| Projection.StableSortIsUnique | src/App.jsx:200-211 | any sorted permutation keeping tied entries in order equals the sort's result |
| Projection.SortedWithSameTiesEqual | src/App.jsx:200-211 | two sorted lists with the same ties for every element are equal |
| Projection.TiesOfHead | src/App.jsx:200-211 | the head of a list is the first of its ties |
| Projection.TiesMembers | src/App.jsx:200-211 | the ties of an element are elements of the list |
| Projection.Project | src/App.jsx:194-212 | `filteredAndSortedItems` holds exactly the entries passing both filters, with their multiplicity, sorted by the chosen key |
| Projection.ProjectSpec | src/App.jsx:194-212 | the view holds exactly the entries passing both filters with their multiplicity, sorted by the key, ties in collection order |
| Projection.FiltersCompose | src/App.jsx:195-199 | the type and rating filters combine by AND |
| Projection.AddedFirstInDefaultView | src/App.jsx:166-212 | an entry added today, with nothing dated later, comes first in the default view |
| Stats.CountsOf | src/App.jsx:756-762 | movies plus series is the total, and loved, liked, disliked and unrated add up to the total |
| Stats.KindsSplit | src/App.jsx:757-759 | the movie and series counters add up to the total |
| Stats.RatingsSplit | src/App.jsx:760-762 | every entry is counted by exactly one rating counter or is unrated |
| Stats.CountsAfterAdd | src/App.jsx:149-167 | adding raises the total, its type's counter and its rating's counter by one and no other |
| Stats.RatingKeepsKindCounts | src/App.jsx:169-175 | a rating change keeps the total and the type counters |
| Watchlist.Store.constructor | src/App.jsx:5-13 | the first render starts with an empty, uninitialized collection beside what storage holds |
| Watchlist.Store.Save | src/App.jsx:30-35 | the save effect writes the collection only once initialized, and then storage mirrors it |
| Watchlist.Store.Load | src/App.jsx:21-28 | the load effect takes the stored collection when there is one, marks the state initialized, and leaves stored data unchanged |
| Watchlist.Store.Mount | src/App.jsx:21-35 | mounting reads storage before writing it: the collection becomes the stored one (or empty) and stored data survives |
| Watchlist.Store.Add | src/App.jsx:149-167 | adding puts the new entry first and storage follows once initialized |
| Watchlist.Store.UpdateRating | src/App.jsx:169-175 | the collection becomes the rated collection and storage follows once initialized |
| Watchlist.Store.Delete | src/App.jsx:177-179 | the collection loses the id's entries and storage follows once initialized |
| Watchlist.Store.PressOnEntry | src/App.jsx:270-303 | a collection card's button updates the state as `Actions.PressOnEntry` |
| Watchlist.Store.PressOnResult | src/App.jsx:400-447 | a search card's button updates the state as `Actions.PressOnResult` |
| Watchlist.Store.PressInDetailOfResult | src/App.jsx:574-666 | the detail view of a search result updates the state as `Actions.PressInDetailOfResult` |
| Watchlist.Store.PressInDetailOfEntry | src/App.jsx:574-613 | the detail view of a collection entry updates the state as `Actions.PressInDetailOfEntry` |
| Watchlist.Store.RemoveInDetail | src/App.jsx:627-631 | the remove button updates the state as `Actions.RemoveInDetail` |
| Watchlist.Session | src/App.jsx:21-179 | mount, add, rate and delete the new entry: collection and storage end as stored |
| Watchlist.RateTwiceThenDelete | src/App.jsx:149-179 | a fresh entry added, rated and deleted leaves the collection as before |

## Left out

- The HTTP request, JSON decoding and the error log of `searchTMDB` (src/App.jsx:103-111, 128-133): the provider's answer is a parameter, a failure is `Failed`.
- The mock results used without an API key (src/App.jsx:44-98): they depend on `Math.random()` and on a key read from the build environment.
- The 500 ms debounce of the search box and the `isSearching` flag (src/App.jsx:138-147): timers are not modelled; `Search.Results` is what a search stores once it runs.
- `JSON.stringify`/`JSON.parse` of storage: the stored value is the entry sequence itself, so the round trip is taken as exact; malformed stored JSON (which makes the source throw) is not modelled.
- Entries read from storage whose `type` or `rating` is not one of the known strings: the datatypes admit only 'movie'/'series' and 'love'/'up'/'down'/null.
- Media.DisplayTitle: a row with neither title nor name gets the empty title, where the source keeps `undefined` and later throws in `toLowerCase`.
- Media.NewEntry: `vote_average` is a floating-point number in the source; the model keeps it as an integer in tenths.
- Text.Lower: only ASCII letters are lower-cased; Unicode case mapping is not modelled.
- Projection.Leq: `localeCompare` is modelled as code-point order, and `new Date(...)` on release and watch dates as ISO strings compared lexicographically (a missing release date is 1970-01-01); unparsable dates (NaN comparisons) are not modelled.
- Projection.Sort: the engine's stable sort is stood for by insertion sort; `Projection.StableSortIsUnique` shows any stable sort by the same comparator gives the same list.
- Watchlist.Store: the other UI state (search term, selected item and its `rating` echo at src/App.jsx:579, hero section, filter and sort controls, `resetSearch`, `resetCollectionFilters`) is presentation only.
- Watchlist.Store.RemoveInDetail and Actions.RemoveInDetail require a found entry, as the button is shown only then; closing the detail view is not modelled.
- Watchlist.Store.PressInDetailOfResult: uses the corrected detail lookup `Identity.FindForSelected`, not the one as written (see Findings).
- Watchlist.Store.PressInDetailOfEntry: uses the corrected detail lookup `Identity.FindForSelected`, not the one as written (see Findings).
- Watchlist.Store.RemoveInDetail: uses the corrected detail lookup `Identity.FindForSelected`, not the one as written (see Findings).
- Actions.PressInDetailOfResult: uses the corrected detail lookup `Identity.FindForSelected`, not the one as written (see Findings).
- Actions.PressInDetailOfEntry: uses the corrected detail lookup `Identity.FindForSelected`, not the one as written (see Findings).
- Actions.RemoveInDetail: uses the corrected detail lookup `Identity.FindForSelected`, not the one as written (see Findings).
  On an entry stored without a provider id these act on the entry shown, where the source acts on the first such entry ("Alien" for "Heat"); on a search result they act on the entry its search card finds.
- Collection.ToggleTwice: two presses of the same button give back the earlier rating only when it was unset or that rating; from a different rating they leave the entry unrated.
- Concurrency of React state updates: each handler's update is applied before the next event.

## Findings

| source | as written | input that shows it | evidently intended | confidence | as-written member | corrected member |
|---|---|---|---|---|---|---|
| src/App.jsx:467-472 | the detail view's lookup compares `watchedItem.tmdb_id === item.tmdb_id`, which holds when both are undefined | a collection with a stored entry "Alien" (id 1, no `tmdb_id`) before "Heat" (id 2, no `tmdb_id`); opening "Heat" finds "Alien", so its rating and remove buttons act on "Alien"; every search result (which carries no `tmdb_id`) likewise finds the first such entry | compare provider ids only when the shown item has one | medium, not executed | Identity.LegacyEntryMatchesUnrelated | Identity.FindForSelected |
| src/App.jsx:469 | a search result opened in the detail view carries its provider id in `id`, which the lookup compares only with local ids (`watchedItem.id === item.id`), never with `tmdb_id` | an entry collected as "The Matrix" under provider id 603, and the provider's row 603 now titled "Matrix": its search card finds the entry, its detail view does not and offers "Add to Collection", which adds a duplicate | match a search result by provider id as the search card does (`Identity.DetailOfResultMatchesCard`) | low, not executed | Identity.RenamedMatrixMissedAsWritten | Identity.FindForSelected |

/** The component's collection state: `watchedItems`, `isInitialized` and the
    `nextflix-data` entry of `localStorage`, with the load and save effects
    (lines 21-35) and the state updates of lines 149-179. A state update is
    followed by the re-render's save effect, as in React. */
module Watchlist {
  import opened JsValues
  import opened Media
  import opened Collection
  import opened Identity
  import Actions

  class Store {
    var items: seq<Entry>
    var initialized: bool
    /** What `localStorage` holds under 'nextflix-data' (None: nothing). */
    var persisted: Option<seq<Entry>>

    /** The persisted copy follows the collection once it has been loaded. */
    ghost predicate Mirrored()
      reads this
    {
      initialized ==> persisted == Some(items)
    }

    /** The first render: an empty collection, not yet initialized, with
        whatever an earlier session stored. */
    constructor (stored: Option<seq<Entry>>)
      ensures items == [] && !initialized && persisted == stored
    {
      items := [];
      initialized := false;
      persisted := stored;
    }

    /** The save effect: writes the collection only after the initial load. */
    method Save()
      modifies this
      ensures items == old(items) && initialized == old(initialized)
      ensures persisted == if initialized then Some(items) else old(persisted)
      ensures Mirrored()
    {
      if initialized {
        persisted := Some(items);
      }
    }

    /** The load effect (`if (saved) setWatchedItems(...)`,
        `setIsInitialized(true)`) and the save effect of the render it causes. */
    method Load()
      modifies this
      ensures initialized
      ensures items == if old(persisted).Some? then old(persisted).value else old(items)
      ensures persisted == Some(items)
      ensures old(persisted).Some? ==> persisted == old(persisted)
    {
      if persisted.Some? {
        items := persisted.value;
      }
      initialized := true;
      Save();
    }

    /** Mounting: the first render's save effect sees `isInitialized` false
        and writes nothing, so stored data is read before anything is written
        and survives the start unchanged. */
    method Mount()
      requires !initialized && items == []
      modifies this
      ensures initialized && Mirrored()
      ensures items == old(persisted).GetOr([])
      ensures old(persisted).Some? ==> persisted == old(persisted)
    {
      Save();
      assert persisted == old(persisted);
      Load();
    }

    /** `addToWatchlist(row, rating)`, `now` and `today` standing for the clock. */
    method Add(row: Row, rating: Option<Rating>, now: int, today: string)
      modifies this
      ensures items == [NewEntry(row, rating, now, today)] + old(items)
      ensures initialized == old(initialized)
      ensures persisted == if initialized then Some(items) else old(persisted)
    {
      items := Prepend(items, NewEntry(row, rating, now, today));
      Save();
    }

    /** `updateRating(id, rating)`. */
    method UpdateRating(id: int, rating: Option<Rating>)
      modifies this
      ensures items == WithRating(old(items), id, rating)
      ensures initialized == old(initialized)
      ensures persisted == if initialized then Some(items) else old(persisted)
    {
      items := WithRating(items, id, rating);
      Save();
    }

    /** `deleteItem(id)`. */
    method Delete(id: int)
      modifies this
      ensures items == WithoutId(old(items), id)
      ensures initialized == old(initialized)
      ensures persisted == if initialized then Some(items) else old(persisted)
    {
      items := WithoutId(items, id);
      Save();
    }

    /** A rating button on a collection card. */
    method PressOnEntry(e: Entry, pressed: Rating)
      modifies this
      ensures items == Actions.PressOnEntry(old(items), e, pressed)
      ensures initialized == old(initialized)
      ensures persisted == if initialized then Some(items) else old(persisted)
    {
      UpdateRating(e.id, if e.rating == Some(pressed) then None else Some(pressed));
    }

    /** A rating button on a search card. */
    method PressOnResult(row: Row, pressed: Rating, now: int, today: string)
      modifies this
      ensures items == Actions.PressOnResult(old(items), row, pressed, now, today)
      ensures initialized == old(initialized)
      ensures persisted == if initialized then Some(items) else old(persisted)
    {
      var existing := FindForResult(items, row);
      if existing.Some? {
        var x := existing.value;
        UpdateRating(x.id, if x.rating == Some(pressed) then None else Some(pressed));
      } else {
        Add(row, Some(pressed), now, today);
      }
    }

    /** A rating button in the detail view of a search result. */
    method PressInDetailOfResult(row: Row, pressed: Rating, now: int, today: string)
      modifies this
      ensures items == Actions.PressInDetailOfResult(old(items), row, pressed, now, today)
      ensures initialized == old(initialized)
      ensures persisted == if initialized then Some(items) else old(persisted)
    {
      var existing := FindForSelected(items, SelectRow(row));
      if existing.Some? {
        var x := existing.value;
        UpdateRating(x.id, if x.rating == Some(pressed) then None else Some(pressed));
      } else {
        Add(row, Some(pressed), now, today);
      }
    }

    /** A rating button in the detail view of a collection entry. */
    method PressInDetailOfEntry(e: Entry, pressed: Rating)
      requires e in items
      modifies this
      ensures items == Actions.PressInDetailOfEntry(old(items), e, pressed)
      ensures initialized == old(initialized)
      ensures persisted == if initialized then Some(items) else old(persisted)
    {
      EntryIsFound(items, e);
      var x := FindForSelected(items, SelectEntry(e)).value;
      UpdateRating(x.id, if x.rating == Some(pressed) then None else Some(pressed));
    }

    /** "Remove from Collection" in the detail view. */
    method RemoveInDetail(sel: Selected)
      requires FindForSelected(items, sel).Some?
      modifies this
      ensures items == Actions.RemoveInDetail(old(items), sel)
      ensures initialized == old(initialized)
      ensures persisted == if initialized then Some(items) else old(persisted)
    {
      var existing := FindForSelected(items, sel);
      Delete(existing.value.id);
    }
  }

  /** A session: mount, then add a search result, rate it and remove it; the
      stored collection ends as it started. */
  method Session(stored: seq<Entry>, row: Row, now: int, today: string) returns (s: Store)
    requires !HasId(stored, now)
    ensures fresh(s) && s.initialized && s.Mirrored()
    ensures s.items == stored && s.persisted == Some(stored)
  {
    s := new Store(Some(stored));
    s.Mount();
    s.Add(row, Some(Love), now, today);
    s.UpdateRating(now, Some(Down));
    RateTwiceThenDelete(stored, NewEntry(row, Some(Love), now, today), Some(Down));
    s.Delete(now);
  }

  lemma RateTwiceThenDelete(items: seq<Entry>, e: Entry, rating: Option<Rating>)
    requires !HasId(items, e.id)
    ensures WithoutId(WithRating([e] + items, e.id, rating), e.id) == items
  {
    RateUnknownId(items, e.id, rating);
    assert WithRating([e] + items, e.id, rating) == [e.(rating := rating)] + items;
    AddThenDelete(items, e.(rating := rating));
  }
}

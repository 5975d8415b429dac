/** What the rating and remove buttons do to the collection: the handlers of
    the collection card (lines 270-303), the search card (lines 400-447) and
    the detail view (lines 574-613, 627-631, 643-666). Each looks the item up,
    then either toggles the found entry's rating or adds a new entry. */
module Actions {
  import opened JsValues
  import opened Seqs
  import opened Media
  import opened Collection
  import opened Identity

  /** A rating button on a collection card: toggle that entry's rating. */
  function PressOnEntry(items: seq<Entry>, e: Entry, pressed: Rating): (r: seq<Entry>)
    ensures |r| == |items|
    ensures forall i :: 0 <= i < |items| && items[i].id == e.id ==>
                        r[i] == items[i].(rating := Toggle(e.rating, pressed))
    ensures forall i :: 0 <= i < |items| && items[i].id != e.id ==> r[i] == items[i]
  {
    WithRating(items, e.id, Toggle(e.rating, pressed))
  }

  /** A rating button on a search card: toggle the collected copy, or add the
      result with the pressed rating. */
  function PressOnResult(items: seq<Entry>, row: Row, pressed: Rating, now: int, today: string): (r: seq<Entry>)
    ensures FindForResult(items, row).None? ==> r == [NewEntry(row, Some(pressed), now, today)] + items
    ensures FindForResult(items, row).Some? ==>
      |r| == |items| &&
      r == WithRating(items, FindForResult(items, row).value.id, Toggle(FindForResult(items, row).value.rating, pressed))
  {
    match FindForResult(items, row)
    case Some(x) => WithRating(items, x.id, Toggle(x.rating, pressed))
    case None => Prepend(items, NewEntry(row, Some(pressed), now, today))
  }

  /** A rating button in the detail view of a search result: toggle the
      collected copy, or add the result with the pressed rating. */
  function PressInDetailOfResult(items: seq<Entry>, row: Row, pressed: Rating, now: int, today: string): (r: seq<Entry>)
    ensures FindForSelected(items, SelectRow(row)).None? ==> r == [NewEntry(row, Some(pressed), now, today)] + items
    ensures FindForSelected(items, SelectRow(row)).Some? ==>
      |r| == |items| &&
      r == WithRating(items, FindForSelected(items, SelectRow(row)).value.id,
                      Toggle(FindForSelected(items, SelectRow(row)).value.rating, pressed))
  {
    match FindForSelected(items, SelectRow(row))
    case Some(x) => WithRating(items, x.id, Toggle(x.rating, pressed))
    case None => Prepend(items, NewEntry(row, Some(pressed), now, today))
  }

  /** A rating button in the detail view of a collection entry; the entry is
      in the collection, so the lookup always finds one, and the entry found
      has its rating toggled. */
  function PressInDetailOfEntry(items: seq<Entry>, e: Entry, pressed: Rating): (r: seq<Entry>)
    requires e in items
    ensures |r| == |items|
    ensures exists x :: x in items && r == WithRating(items, x.id, Toggle(x.rating, pressed))
    ensures FindForSelected(items, SelectEntry(e)).Some? &&
      r == WithRating(items, FindForSelected(items, SelectEntry(e)).value.id,
                      Toggle(FindForSelected(items, SelectEntry(e)).value.rating, pressed))
  {
    EntryIsFound(items, e);
    var x := FindForSelected(items, SelectEntry(e)).value;
    WithRating(items, x.id, Toggle(x.rating, pressed))
  }

  /** "Remove from Collection" in the detail view, shown only when the lookup
      found an entry: delete every entry with that entry's id. */
  function RemoveInDetail(items: seq<Entry>, sel: Selected): (r: seq<Entry>)
    requires FindForSelected(items, sel).Some?
    ensures r == WithoutId(items, FindForSelected(items, sel).value.id)
    ensures !HasId(r, FindForSelected(items, sel).value.id) && |r| < |items|
  {
    var x := FindForSelected(items, sel).value;
    DeleteCountsDown(items, x);
    WithoutId(items, x.id)
  }

  /** The detail view of a search result and its search card do the same
      thing to the collection. */
  lemma DetailPressIsCardPress(items: seq<Entry>, row: Row, pressed: Rating, now: int, today: string)
    ensures PressInDetailOfResult(items, row, pressed, now, today) == PressOnResult(items, row, pressed, now, today)
  {
    DetailOfResultMatchesCard(items, row);
  }

  /** When no entry before it matches the opened entry, the detail view's
      button does what the entry's own card button does. */
  lemma DetailPressIsEntryPress(items: seq<Entry>, i: nat, pressed: Rating)
    requires i < |items|
    requires FirstMatchAt(items, MatchesSelected(SelectEntry(items[i])), i)
    ensures PressInDetailOfEntry(items, items[i], pressed) == PressOnEntry(items, items[i], pressed)
  {
    EntryIsFound(items, items[i]);
    var found := FindForSelected(items, SelectEntry(items[i])).value;
    var j :| FirstMatchAt(items, MatchesSelected(SelectEntry(items[i])), j) && items[j] == found;
    assert j == i;
  }

  /** With unique ids, the remove button takes out exactly the entry the
      lookup found and keeps the rest in order. */
  lemma RemoveInDetailRemovesOne(items: seq<Entry>, sel: Selected)
    requires UniqueIds(items) && FindForSelected(items, sel).Some?
    ensures exists i :: FirstMatchAt(items, MatchesSelected(sel), i) &&
                        RemoveInDetail(items, sel) == items[..i] + items[i + 1..]
  {
    var i :| FirstMatchAt(items, MatchesSelected(sel), i) && items[i] == FindForSelected(items, sel).value;
    DeleteOne(items, i);
  }

  lemma DeleteCountsDown(items: seq<Entry>, x: Entry)
    requires x in items
    ensures |WithoutId(items, x.id)| < |items|
  {
    DeleteKeepsOthers(items, x.id);
    assert x in Filter(items, IdIs(x.id));
  }

  /** The lookups do not look at ratings, so after a rating change they stop at
      the same position. */
  lemma {:induction false} FindIgnoresRating(items: seq<Entry>, p: Entry -> bool, id: int, rating: Option<Rating>)
    requires forall e: Entry :: p(e.(rating := rating)) == p(e)
    ensures FirstIndex(WithRating(items, id, rating), p) == FirstIndex(items, p)
  {
    if items != [] {
      assert WithRating(items, id, rating)[1..] == WithRating(items[1..], id, rating);
      FindIgnoresRating(items[1..], p, id, rating);
    }
  }

  /** Pressing a rating twice on a search result not yet collected leaves it
      collected, first, and unrated. */
  lemma PressNewResultTwice(items: seq<Entry>, row: Row, pressed: Rating, now: int, now2: int, today: string, today2: string)
    requires FindForResult(items, row).None?
    requires !HasId(items, now)
    ensures PressOnResult(PressOnResult(items, row, pressed, now, today), row, pressed, now2, today2)
            == [NewEntry(row, None, now, today)] + items
  {
    var e := NewEntry(row, Some(pressed), now, today);
    CollectedResultIsFound(items, row, now, today, Some(pressed));
    RateUnknownId(items, now, None);
    assert WithRating([e] + items, now, None) == [e.(rating := None)] + WithRating(items, now, None);
  }

  /** Pressing the same rating twice on a collected search result sets the
      entry's rating to what two toggles give, and leaves everything else: the
      collection is as before when the entry was unrated or had that rating. */
  lemma PressFoundResultTwice(items: seq<Entry>, row: Row, pressed: Rating, now: int, now2: int, today: string, today2: string)
    requires UniqueIds(items)
    requires FindForResult(items, row).Some?
    ensures var x := FindForResult(items, row).value;
      PressOnResult(PressOnResult(items, row, pressed, now, today), row, pressed, now2, today2)
        == WithRating(items, x.id, Toggle(Toggle(x.rating, pressed), pressed))
    ensures var x := FindForResult(items, row).value;
      x.rating.None? || x.rating == Some(pressed) ==>
      PressOnResult(PressOnResult(items, row, pressed, now, today), row, pressed, now2, today2) == items
  {
    var x := FindForResult(items, row).value;
    var first := Toggle(x.rating, pressed);
    var once := WithRating(items, x.id, first);
    var i := FirstIndex(items, MatchesResult(row)).value;
    FindIgnoresRating(items, MatchesResult(row), x.id, first);
    assert FindForResult(once, row) == Some(once[i]);
    assert once[i] == x.(rating := first);
    RateTwice(items, x.id, first, Toggle(first, pressed));
    forall y | y in items && y.id == x.id ensures y == x {
      var j :| 0 <= j < |items| && items[j] == y;
      assert j == i;
    }
    if x.rating.None? || x.rating == Some(pressed) {
      ToggleTwice(x.rating, pressed);
      RateSame(items, x.id, x.rating);
    }
  }
}

/** The updates `addToWatchlist`, `updateRating` and `deleteItem` make to the
    `watchedItems` array, as functions from the old array to the new one. */
module Collection {
  import opened JsValues
  import opened Seqs
  import opened Media

  /** No two entries share a local id. */
  ghost predicate UniqueIds(items: seq<Entry>) {
    forall i, j :: 0 <= i < j < |items| ==> items[i].id != items[j].id
  }

  predicate HasId(items: seq<Entry>, id: int) {
    exists e :: e in items && e.id == id
  }

  /** `[newItem, ...watchedItems]`. */
  function Prepend(items: seq<Entry>, e: Entry): (r: seq<Entry>)
    ensures |r| == |items| + 1 && r[0] == e && r[1..] == items
  {
    [e] + items
  }

  /** `items.map(item => item.id === id ? { ...item, rating } : item)`. */
  function WithRating(items: seq<Entry>, id: int, rating: Option<Rating>): (r: seq<Entry>)
    ensures |r| == |items|
    ensures forall i :: 0 <= i < |items| && items[i].id == id ==> r[i] == items[i].(rating := rating)
    ensures forall i :: 0 <= i < |items| && items[i].id != id ==> r[i] == items[i]
  {
    if items == [] then []
    else [if items[0].id == id then items[0].(rating := rating) else items[0]]
         + WithRating(items[1..], id, rating)
  }

  function IdIs(id: int): Entry -> bool {
    (e: Entry) => e.id == id
  }

  function IdIsNot(id: int): Entry -> bool {
    (e: Entry) => e.id != id
  }

  /** `items.filter(item => item.id !== id)`. */
  function WithoutId(items: seq<Entry>, id: int): (r: seq<Entry>)
    ensures forall e :: e in r <==> e in items && e.id != id
    ensures !HasId(r, id)
  {
    Filter(items, IdIsNot(id))
  }

  /** The rating a button press asks for: `item.rating === r ? null : r`. */
  function Toggle(current: Option<Rating>, pressed: Rating): (r: Option<Rating>)
    ensures r.None? <==> current == Some(pressed)
    ensures r.Some? ==> r.value == pressed
  {
    if current == Some(pressed) then None else Some(pressed)
  }

  /** A second press of the same button gives back the rating before the first
      press when that was unrated or the pressed rating; from a different
      rating, two presses leave the entry unrated. */
  lemma ToggleTwice(current: Option<Rating>, pressed: Rating)
    ensures Toggle(Toggle(current, pressed), pressed) ==
      if current.None? || current == Some(pressed) then current else None
  {
  }

  /** Prepending an entry adds exactly it at the front. */
  lemma PrependPreservesOrder(items: seq<Entry>, e: Entry)
    ensures forall i :: 0 <= i < |items| ==> Prepend(items, e)[i + 1] == items[i]
    ensures multiset(Prepend(items, e)) == multiset(items) + multiset{e}
  {
  }

  /** Rating an id that no entry has changes nothing. */
  lemma {:induction false} RateUnknownId(items: seq<Entry>, id: int, rating: Option<Rating>)
    requires !HasId(items, id)
    ensures WithRating(items, id, rating) == items
  {
    if items != [] {
      assert items[0] in items;
      assert !HasId(items[1..], id) by {
        forall e | e in items[1..] ensures e.id != id { assert e in items; }
      }
      RateUnknownId(items[1..], id, rating);
    }
  }

  /** A second update of the same id overrides the first; with the same rating
      it changes nothing (idempotence). */
  lemma {:induction false} RateTwice(items: seq<Entry>, id: int, first: Option<Rating>, second: Option<Rating>)
    ensures WithRating(WithRating(items, id, first), id, second) == WithRating(items, id, second)
  {
    if items != [] {
      RateTwice(items[1..], id, first, second);
    }
  }

  /** Writing the rating an entry already has changes nothing. */
  lemma {:induction false} RateSame(items: seq<Entry>, id: int, rating: Option<Rating>)
    requires forall e :: e in items && e.id == id ==> e.rating == rating
    ensures WithRating(items, id, rating) == items
  {
    if items != [] {
      assert items[0] in items;
      RateSame(items[1..], id, rating);
    }
  }

  /** Rating keeps every entry's id (and so uniqueness of ids) and every entry
      other than the rating field. */
  lemma RateKeepsIds(items: seq<Entry>, id: int, rating: Option<Rating>)
    ensures forall i :: 0 <= i < |items| ==> WithRating(items, id, rating)[i].id == items[i].id
    ensures UniqueIds(items) ==> UniqueIds(WithRating(items, id, rating))
    ensures forall e :: e in WithRating(items, id, rating) ==> exists f :: f in items && e == f.(rating := e.rating)
  {
    var r := WithRating(items, id, rating);
    forall e | e in r ensures exists f :: f in items && e == f.(rating := e.rating) {
      var i :| 0 <= i < |r| && r[i] == e;
      assert items[i] in items;
    }
  }

  /** Deleting an id that no entry has changes nothing. */
  lemma DeleteAbsent(items: seq<Entry>, id: int)
    requires !HasId(items, id)
    ensures WithoutId(items, id) == items
  {
    FilterAll(items, IdIsNot(id));
  }

  /** Deleting keeps the other entries, in order and with their multiplicity. */
  lemma DeleteKeepsOthers(items: seq<Entry>, id: int)
    ensures IsSubsequence(WithoutId(items, id), items)
    ensures forall e :: multiset(WithoutId(items, id))[e] == if e.id == id then 0 else multiset(items)[e]
    ensures |WithoutId(items, id)| == |items| - Count(items, IdIs(id))
  {
    FilterIsSubsequence(items, IdIsNot(id));
    FilterMultiset(items, IdIsNot(id));
    CountSplit(items, IdIsNot(id), IdIs(id));
  }

  /** Deleting an id that only one entry has removes exactly that entry. */
  lemma {:induction false} DeleteOne(items: seq<Entry>, i: nat)
    requires i < |items| && UniqueIds(items)
    ensures WithoutId(items, items[i].id) == items[..i] + items[i + 1..]
  {
    var id, pre, post := items[i].id, items[..i], items[i + 1..];
    var keep := IdIsNot(id);
    assert items == pre + ([items[i]] + post);
    assert Filter([items[i]] + post, keep) == post by {
      FilterConcat([items[i]], post, keep);
      assert [items[i]][1..] == [];
      OnlyOneWithId(items, i);
      DeleteAbsent(post, id);
    }
    assert Filter(pre, keep) == pre by {
      OnlyOneWithId(items, i);
      DeleteAbsent(pre, id);
    }
    FilterConcat(pre, [items[i]] + post, keep);
  }

  /** With unique ids, the entries before and after position `i` do not carry its id. */
  lemma OnlyOneWithId(items: seq<Entry>, i: nat)
    requires i < |items| && UniqueIds(items)
    ensures !HasId(items[..i], items[i].id) && !HasId(items[i + 1..], items[i].id)
  {
    forall e | e in items[..i] ensures e.id != items[i].id {
      var k :| 0 <= k < i && items[..i][k] == e;
      assert items[k] == e;
    }
    forall e | e in items[i + 1..] ensures e.id != items[i].id {
      var k :| 0 <= k < |items| - i - 1 && items[i + 1..][k] == e;
      assert items[i + 1 + k] == e;
    }
  }

  /** Deleting keeps ids unique. */
  lemma DeleteKeepsUnique(items: seq<Entry>, id: int)
    requires UniqueIds(items)
    ensures UniqueIds(WithoutId(items, id))
  {
    DeleteKeepsOthers(items, id);
    SubsequenceKeepsUnique(WithoutId(items, id), items);
  }

  lemma {:induction false} SubsequenceKeepsUnique(a: seq<Entry>, b: seq<Entry>)
    requires IsSubsequence(a, b) && UniqueIds(b)
    ensures UniqueIds(a)
    decreases |b|
  {
    if a != [] {
      if a[0] == b[0] {
        SubsequenceKeepsUnique(a[1..], b[1..]);
        SubsequenceMembers(a[1..], b[1..]);
        forall j | 0 < j < |a| ensures a[0].id != a[j].id {
          assert a[j] == a[1..][j - 1] && a[j] in b[1..];
          var m :| 0 <= m < |b[1..]| && b[1..][m] == a[j];
          assert b[m + 1] == a[j];
        }
        forall i, j | 0 < i < j < |a| ensures a[i].id != a[j].id {
          assert a[i] == a[1..][i - 1] && a[j] == a[1..][j - 1];
        }
      } else {
        SubsequenceKeepsUnique(a, b[1..]);
      }
    }
  }

  lemma {:induction false} SubsequenceMembers(a: seq<Entry>, b: seq<Entry>)
    requires IsSubsequence(a, b)
    ensures forall x :: x in a ==> x in b
    decreases |b|
  {
    if a != [] {
      if a[0] == b[0] {
        SubsequenceMembers(a[1..], b[1..]);
        assert a == [a[0]] + a[1..];
      } else {
        SubsequenceMembers(a, b[1..]);
      }
    }
  }

  /** Adding under a fresh id keeps ids unique, and deleting that id afterwards
      gives back the collection as it was. */
  lemma AddThenDelete(items: seq<Entry>, e: Entry)
    requires !HasId(items, e.id)
    ensures UniqueIds(items) ==> UniqueIds(Prepend(items, e))
    ensures WithoutId(Prepend(items, e), e.id) == items
  {
    FilterConcat([e], items, IdIsNot(e.id));
    DeleteAbsent(items, e.id);
    if UniqueIds(items) {
      forall j | 0 < j < |items| + 1 ensures Prepend(items, e)[j].id != e.id {
        assert Prepend(items, e)[j] in items;
      }
    }
  }
}

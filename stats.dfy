/** The six counters of the stats row (lines 756-762). */
module Stats {
  import opened JsValues
  import opened Seqs
  import opened Media
  import Collection

  datatype Counts = Counts(total: nat, movies: nat, series: nat, love: nat, up: nat, down: nat)

  function IsKind(k: Kind): Entry -> bool {
    (e: Entry) => e.kind == k
  }

  function IsRated(r: Rating): Entry -> bool {
    (e: Entry) => e.rating == Some(r)
  }

  const IsUnrated: Entry -> bool := (e: Entry) => e.rating.None?

  /** `watchedItems.length` and the lengths of five filters of it. */
  function CountsOf(items: seq<Entry>): (c: Counts)
    ensures c.movies + c.series == c.total == |items|
    ensures c.love + c.up + c.down + Count(items, IsUnrated) == c.total
  {
    KindsSplit(items);
    RatingsSplit(items);
    Counts(|items|, Count(items, IsKind(Movie)), Count(items, IsKind(Series)),
           Count(items, IsRated(Love)), Count(items, IsRated(Up)), Count(items, IsRated(Down)))
  }

  lemma KindsSplit(items: seq<Entry>)
    ensures Count(items, IsKind(Movie)) + Count(items, IsKind(Series)) == |items|
  {
    CountSplit(items, IsKind(Movie), IsKind(Series));
  }

  /** Every entry is loved, liked, disliked or unrated, and only one of them. */
  lemma {:induction false} RatingsSplit(items: seq<Entry>)
    ensures Count(items, IsRated(Love)) + Count(items, IsRated(Up)) + Count(items, IsRated(Down))
            + Count(items, IsUnrated) == |items|
  {
    if items != [] {
      var x, rest := items[0], items[1..];
      assert items == [x] + rest;
      RatingsSplit(rest);
      CountCons(x, rest, IsRated(Love));
      CountCons(x, rest, IsRated(Up));
      CountCons(x, rest, IsRated(Down));
      CountCons(x, rest, IsUnrated);
      match x.rating
      case None => assert IsUnrated(x) && !IsRated(Love)(x) && !IsRated(Up)(x) && !IsRated(Down)(x);
      case Some(Love) => assert !IsUnrated(x) && IsRated(Love)(x) && !IsRated(Up)(x) && !IsRated(Down)(x);
      case Some(Up) => assert !IsUnrated(x) && !IsRated(Love)(x) && IsRated(Up)(x) && !IsRated(Down)(x);
      case Some(Down) => assert !IsUnrated(x) && !IsRated(Love)(x) && !IsRated(Up)(x) && IsRated(Down)(x);
    }
  }

  /** Adding an entry raises the total, its type's counter and its rating's
      counter by one and leaves the others. */
  lemma CountsAfterAdd(items: seq<Entry>, e: Entry)
    ensures var before, after := CountsOf(items), CountsOf(Collection.Prepend(items, e));
      after.total == before.total + 1 &&
      after.movies == before.movies + (if e.kind == Movie then 1 else 0) &&
      after.series == before.series + (if e.kind == Series then 1 else 0) &&
      after.love == before.love + (if e.rating == Some(Love) then 1 else 0) &&
      after.up == before.up + (if e.rating == Some(Up) then 1 else 0) &&
      after.down == before.down + (if e.rating == Some(Down) then 1 else 0)
  {
    CountCons(e, items, IsKind(Movie));
    CountCons(e, items, IsKind(Series));
    CountCons(e, items, IsRated(Love));
    CountCons(e, items, IsRated(Up));
    CountCons(e, items, IsRated(Down));
  }

  /** A rating change moves no entry between the type counters. */
  lemma {:induction false} RatingKeepsKindCounts(items: seq<Entry>, id: int, rating: Option<Rating>)
    ensures var before, after := CountsOf(items), CountsOf(Collection.WithRating(items, id, rating));
      after.total == before.total && after.movies == before.movies && after.series == before.series
  {
    if items != [] {
      var rated := Collection.WithRating(items, id, rating);
      assert items == [items[0]] + items[1..];
      assert rated == [rated[0]] + rated[1..];
      assert rated[1..] == Collection.WithRating(items[1..], id, rating);
      RatingKeepsKindCounts(items[1..], id, rating);
      CountCons(items[0], items[1..], IsKind(Movie));
      CountCons(rated[0], rated[1..], IsKind(Movie));
    }
  }
}

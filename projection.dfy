/** `filteredAndSortedItems`: the collection filtered by type and rating and
    sorted by one of four keys with a stable sort (as `Array.prototype.sort`
    is), modelled as insertion sort. */
module Projection {
  import opened JsValues
  import opened Seqs
  import opened Media
  import Text

  datatype TypeFilter = AllTypes | OnlyType(kind: Kind)
  datatype RatingFilter = AllRatings | OnlyRating(rating: Rating)
  datatype SortKey = ByDateWatched | ByTitle | ByYear | ByTmdbRating
  datatype View = View(typeFilter: TypeFilter, ratingFilter: RatingFilter, sortBy: SortKey)

  /** The view the collection opens with, and the one the reset button restores. */
  const DefaultView := View(AllTypes, AllRatings, ByDateWatched)

  predicate MatchesType(f: TypeFilter, e: Entry) {
    f.AllTypes? || e.kind == f.kind
  }

  /** `filterRating === 'all' || item.rating === filterRating`: an unrated
      entry passes only 'all'. */
  predicate MatchesRating(f: RatingFilter, e: Entry) {
    f.AllRatings? || e.rating == Some(f.rating)
  }

  function TypeTest(v: View): Entry -> bool {
    (e: Entry) => MatchesType(v.typeFilter, e)
  }

  function RatingTest(v: View): Entry -> bool {
    (e: Entry) => MatchesRating(v.ratingFilter, e)
  }

  /** `matchesType && matchesRating`. */
  function Test(v: View): Entry -> bool {
    (e: Entry) => MatchesType(v.typeFilter, e) && MatchesRating(v.ratingFilter, e)
  }

  /** `new Date(x || 0)` as an ISO date: a missing or empty release date is
      the epoch. */
  const Epoch := "1970-01-01"

  function YearKey(e: Entry): string {
    if e.releaseDate.Some? && e.releaseDate.value != "" then e.releaseDate.value else Epoch
  }

  /** `tmdbRating || 0`. */
  function RatingKey(e: Entry): int {
    e.tmdbRating.GetOr(0)
  }

  /** The comparator of lines 201-210 returns a value `<= 0` for `a, b`: `a`
      may stay before `b`. Title ascending; year, provider rating and date
      watched descending. */
  predicate Leq(k: SortKey, a: Entry, b: Entry) {
    match k
    case ByTitle => Text.Leq(a.title, b.title)
    case ByYear => Text.Leq(YearKey(b), YearKey(a))
    case ByTmdbRating => RatingKey(b) <= RatingKey(a)
    case ByDateWatched => Text.Leq(b.dateWatched, a.dateWatched)
  }

  /** The comparator returns 0: neither entry must precede the other. */
  predicate Tied(k: SortKey, a: Entry, b: Entry) {
    Leq(k, a, b) && Leq(k, b, a)
  }

  ghost predicate Sorted(k: SortKey, s: seq<Entry>) {
    forall i, j :: 0 <= i < j < |s| ==> Leq(k, s[i], s[j])
  }

  lemma LeqTotal(k: SortKey, a: Entry, b: Entry)
    ensures Leq(k, a, b) || Leq(k, b, a)
  {
    match k
    case ByTitle => Text.LeqTotal(a.title, b.title);
    case ByYear => Text.LeqTotal(YearKey(a), YearKey(b));
    case ByTmdbRating =>
    case ByDateWatched => Text.LeqTotal(a.dateWatched, b.dateWatched);
  }

  lemma LeqTransitive(k: SortKey, a: Entry, b: Entry, c: Entry)
    requires Leq(k, a, b) && Leq(k, b, c)
    ensures Leq(k, a, c)
  {
    match k
    case ByTitle => Text.LeqTransitive(a.title, b.title, c.title);
    case ByYear => Text.LeqTransitive(YearKey(c), YearKey(b), YearKey(a));
    case ByTmdbRating =>
    case ByDateWatched => Text.LeqTransitive(c.dateWatched, b.dateWatched, a.dateWatched);
  }

  /** Insert `x` before the first element it may precede. */
  function Insert(k: SortKey, x: Entry, s: seq<Entry>): (r: seq<Entry>)
    ensures multiset(r) == multiset(s) + multiset{x}
    ensures |r| == |s| + 1
  {
    if s == [] then [x]
    else if Leq(k, x, s[0]) then [x] + s
    else
      assert s == [s[0]] + s[1..];
      [s[0]] + Insert(k, x, s[1..])
  }

  /** `s.sort(compare)`. */
  function Sort(k: SortKey, s: seq<Entry>): (r: seq<Entry>)
    ensures multiset(r) == multiset(s)
    ensures |r| == |s|
  {
    if s == [] then []
    else
      assert s == [s[0]] + s[1..];
      Insert(k, s[0], Sort(k, s[1..]))
  }

  /** The entries of `s` tied with `e`, in their order in `s`. */
  function Ties(k: SortKey, s: seq<Entry>, e: Entry): (r: seq<Entry>)
    ensures |r| <= |s|
  {
    if s == [] then []
    else (if Tied(k, s[0], e) then [s[0]] else []) + Ties(k, s[1..], e)
  }

  /** `filteredAndSortedItems`: the entries passing both filters, as often as
      the collection holds them, in the order the key asks for. */
  function Project(items: seq<Entry>, v: View): (r: seq<Entry>)
    ensures forall e :: multiset(r)[e] == if Test(v)(e) then multiset(items)[e] else 0
    ensures Sorted(v.sortBy, r)
  {
    FilterMultiset(items, Test(v));
    SortSorted(v.sortBy, Filter(items, Test(v)));
    Sort(v.sortBy, Filter(items, Test(v)))
  }

  lemma {:induction false} InsertSorted(k: SortKey, x: Entry, s: seq<Entry>)
    requires Sorted(k, s)
    ensures Sorted(k, Insert(k, x, s))
  {
    if s == [] {
    } else if Leq(k, x, s[0]) {
      forall y | y in s ensures Leq(k, x, y) {
        if y != s[0] { LeqTransitive(k, x, s[0], y); }
      }
      SortedCons(k, x, s);
    } else {
      LeqTotal(k, x, s[0]);
      InsertSorted(k, x, s[1..]);
      var t := Insert(k, x, s[1..]);
      forall y | y in t ensures Leq(k, s[0], y) {
        assert y in multiset(t);
        if y != x {
          assert y in s[1..];
          var j :| 0 <= j < |s[1..]| && s[1..][j] == y;
          assert s[j + 1] == y;
        }
      }
      SortedCons(k, s[0], t);
    }
  }

  /** A sorted list stays sorted behind an element no later than any of it. */
  lemma SortedCons(k: SortKey, x: Entry, s: seq<Entry>)
    requires Sorted(k, s)
    requires forall y :: y in s ==> Leq(k, x, y)
    ensures Sorted(k, [x] + s)
  {
    var r := [x] + s;
    forall i, j | 0 <= i < j < |r| ensures Leq(k, r[i], r[j]) {
      if i == 0 { assert r[j] == s[j - 1] && s[j - 1] in s; }
      else { assert r[i] == s[i - 1] && r[j] == s[j - 1]; }
    }
  }

  /** The projection is in the order the chosen key asks for. */
  lemma {:induction false} SortSorted(k: SortKey, s: seq<Entry>)
    ensures Sorted(k, Sort(k, s))
  {
    if s != [] {
      SortSorted(k, s[1..]);
      InsertSorted(k, s[0], Sort(k, s[1..]));
    }
  }

  lemma {:induction false} TiesInsert(k: SortKey, x: Entry, s: seq<Entry>, e: Entry)
    ensures Ties(k, Insert(k, x, s), e) == (if Tied(k, x, e) then [x] else []) + Ties(k, s, e)
  {
    if s == [] {
    } else if Leq(k, x, s[0]) {
      TiesCons(k, x, s, e);
    } else {
      NotBothTied(k, x, s[0], e);
      TiesInsert(k, x, s[1..], e);
      TiesCons(k, s[0], Insert(k, x, s[1..]), e);
    }
  }

  lemma TiesCons(k: SortKey, y: Entry, t: seq<Entry>, e: Entry)
    ensures Ties(k, [y] + t, e) == (if Tied(k, y, e) then [y] else []) + Ties(k, t, e)
  {
    assert ([y] + t)[1..] == t;
  }

  /** Two entries the comparator orders strictly are not tied with one entry. */
  lemma NotBothTied(k: SortKey, x: Entry, y: Entry, e: Entry)
    requires !Leq(k, x, y)
    ensures !(Tied(k, x, e) && Tied(k, y, e))
  {
    if Tied(k, x, e) && Tied(k, y, e) {
      LeqTransitive(k, x, e, y);
      assert false;
    }
  }

  /** Stability: entries the comparator ties keep their relative order. */
  lemma {:induction false} SortStable(k: SortKey, s: seq<Entry>, e: Entry)
    ensures Ties(k, Sort(k, s), e) == Ties(k, s, e)
  {
    if s != [] {
      SortStable(k, s[1..], e);
      TiesInsert(k, s[0], Sort(k, s[1..]), e);
    }
  }

  /** Any order that is sorted by the key and keeps tied entries in their
      input order is the one `Sort` produces: a stable sort's output is
      determined by its input, so insertion sort stands for the engine's sort. */
  lemma StableSortIsUnique(k: SortKey, s: seq<Entry>, r: seq<Entry>)
    requires Sorted(k, r)
    requires forall e :: Ties(k, r, e) == Ties(k, s, e)
    ensures r == Sort(k, s)
  {
    SortSorted(k, s);
    forall e ensures Ties(k, r, e) == Ties(k, Sort(k, s), e) {
      SortStable(k, s, e);
    }
    SortedWithSameTiesEqual(k, r, Sort(k, s));
  }

  lemma {:induction false} SortedWithSameTiesEqual(k: SortKey, a: seq<Entry>, b: seq<Entry>)
    requires Sorted(k, a) && Sorted(k, b)
    requires forall e :: Ties(k, a, e) == Ties(k, b, e)
    ensures a == b
    decreases |a| + |b|
  {
    if a == [] && b != [] {
      TiesOfHead(k, b);
      assert false;
    } else if a != [] && b == [] {
      TiesOfHead(k, a);
      assert false;
    } else if a != [] {
      SameHead(k, a, b);
      SameTiesOfTails(k, a, b);
      SortedWithSameTiesEqual(k, a[1..], b[1..]);
      assert a == [a[0]] + a[1..] && b == [b[0]] + b[1..];
    }
  }

  /** Two sorted lists with the same ties start with the same element. */
  lemma SameHead(k: SortKey, a: seq<Entry>, b: seq<Entry>)
    requires a != [] && b != [] && Sorted(k, a) && Sorted(k, b)
    requires forall e :: Ties(k, a, e) == Ties(k, b, e)
    ensures a[0] == b[0]
  {
    TiesOfHead(k, a);
    TiesOfHead(k, b);
    TiesMembers(k, b, a[0]);
    TiesMembers(k, a, b[0]);
    assert a[0] in Ties(k, b, a[0]);
    assert b[0] in Ties(k, a, b[0]);
    var i :| 0 <= i < |b| && b[i] == a[0];
    var j :| 0 <= j < |a| && a[j] == b[0];
    assert Leq(k, b[0], a[0]) by { if i > 0 { assert Leq(k, b[0], b[i]); } }
    assert Leq(k, a[0], b[0]) by { if j > 0 { assert Leq(k, a[0], a[j]); } }
    assert Tied(k, b[0], a[0]);
    assert Ties(k, b, a[0])[0] == b[0];
  }

  /** Removing the same head from two lists with the same ties leaves tails
      with the same ties. */
  lemma SameTiesOfTails(k: SortKey, a: seq<Entry>, b: seq<Entry>)
    requires a != [] && b != [] && a[0] == b[0]
    requires forall e :: Ties(k, a, e) == Ties(k, b, e)
    ensures forall e :: Ties(k, a[1..], e) == Ties(k, b[1..], e)
  {
    forall e ensures Ties(k, a[1..], e) == Ties(k, b[1..], e) {
      var head := if Tied(k, a[0], e) then [a[0]] else [];
      assert Ties(k, a, e) == head + Ties(k, a[1..], e);
      assert Ties(k, b, e) == head + Ties(k, b[1..], e);
      assert Ties(k, a[1..], e) == Ties(k, a, e)[|head|..];
      assert Ties(k, b[1..], e) == Ties(k, b, e)[|head|..];
    }
  }

  /** The first element of a sequence heads its own ties. */
  lemma TiesOfHead(k: SortKey, s: seq<Entry>)
    requires s != []
    ensures Ties(k, s, s[0]) != [] && Ties(k, s, s[0])[0] == s[0]
  {
    LeqTotal(k, s[0], s[0]);
  }

  lemma {:induction false} TiesMembers(k: SortKey, s: seq<Entry>, e: Entry)
    ensures forall x :: x in Ties(k, s, e) ==> x in s && Tied(k, x, e)
  {
    if s != [] {
      TiesMembers(k, s[1..], e);
    }
  }

  /** The projection holds exactly the entries passing both filters, as often
      as the collection holds them; it is sorted by the chosen key; and entries
      tied under the key appear in collection order. */
  lemma ProjectSpec(items: seq<Entry>, v: View)
    ensures forall e :: multiset(Project(items, v))[e] ==
                        if Test(v)(e) then multiset(items)[e] else 0
    ensures Sorted(v.sortBy, Project(items, v))
    ensures forall e :: Ties(v.sortBy, Project(items, v), e) == Ties(v.sortBy, Filter(items, Test(v)), e)
  {
    FilterMultiset(items, Test(v));
    SortSorted(v.sortBy, Filter(items, Test(v)));
    forall e ensures Ties(v.sortBy, Project(items, v), e) == Ties(v.sortBy, Filter(items, Test(v)), e) {
      SortStable(v.sortBy, Filter(items, Test(v)), e);
    }
  }

  /** The two filters combine with AND: applying one after the other gives
      the same entries in the same order. */
  lemma FiltersCompose(items: seq<Entry>, v: View)
    ensures Filter(items, Test(v)) == Filter(Filter(items, TypeTest(v)), RatingTest(v))
  {
    FilterFilter(items, TypeTest(v), RatingTest(v), Test(v));
  }

  /** An entry just added with today's date, when no entry is dated later,
      comes first in the default view. */
  lemma AddedFirstInDefaultView(items: seq<Entry>, e: Entry)
    requires forall x :: x in items ==> Text.Leq(x.dateWatched, e.dateWatched)
    ensures Project([e] + items, DefaultView) == [e] + Project(items, DefaultView)
  {
    var test := Test(DefaultView);
    assert Filter([e] + items, test) == [e] + Filter(items, test) by {
      assert ([e] + items)[1..] == items;
    }
    var t := Sort(ByDateWatched, Filter(items, test));
    assert [e] + Filter(items, test) != [];
    assert ([e] + Filter(items, test))[1..] == Filter(items, test);
    if t != [] {
      assert t[0] in multiset(Filter(items, test));
      assert Leq(ByDateWatched, e, t[0]);
    }
  }
}

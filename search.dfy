/** The result step of `searchTMDB`: a blank query clears the results without
    asking the provider; otherwise the provider's rows are filtered and their
    `cast`/`genres` reset. The HTTP request itself is outside the model: the
    provider's answer is a parameter. */
module Search {
  import opened JsValues
  import opened Seqs
  import opened Media
  import Text

  /** What the provider request produced: the decoded `results` array, or a
      failure (a thrown `fetch`, a non-OK status, undecodable JSON). */
  datatype Response = Answered(rows: seq<Row>) | Failed

  /** `!query.trim()`. */
  predicate Blank(query: string) {
    Text.Trim(query) == ""
  }

  /** The filter of lines 115-121: a movie or tv row with a positive average
      whose `poster_path` is neither null nor empty and which has a poster or
      a backdrop. */
  predicate Keep(row: Row) {
    (row.mediaType == "movie" || row.mediaType == "tv") &&
    row.voteAverage.Some? && row.voteAverage.value > 0 &&
    (Truthy(row.posterPath) || Truthy(row.backdropPath)) &&
    row.posterPath != Null &&
    row.posterPath != Str("")
  }

  /** `{ ...item, cast: [], genres: [] }`. */
  function Reset(row: Row): (r: Row)
    ensures r.cast == Some([]) && r.genres == Some([])
    ensures r.(cast := row.cast, genres := row.genres) == row
  {
    row.(cast := Some([]), genres := Some([]))
  }

  /** The results `searchTMDB(query)` stores, given the provider's response. */
  function Results(query: string, response: Response): (r: seq<Row>)
    ensures Blank(query) ==> r == []
    ensures response.Failed? ==> r == []
    ensures forall x :: x in r ==> x.cast == Some([]) && x.genres == Some([]) && Keep(x)
    ensures !Blank(query) && response.Answered? ==> |r| <= |response.rows|
  {
    if Blank(query) then []
    else match response
      case Failed => []
      case Answered(rows) => Map(Filter(rows, Keep), Reset)
  }

  /** Which rows survive, said without JavaScript truthiness: the poster must
      be a non-empty string, or be left out of the row altogether while the
      backdrop is a non-empty string. */
  lemma KeepExplained(row: Row)
    ensures Keep(row) <==>
      (row.mediaType == "movie" || row.mediaType == "tv") &&
      row.voteAverage.Some? && row.voteAverage.value > 0 &&
      ((row.posterPath.Str? && row.posterPath.s != "") ||
       (row.posterPath == Absent && Truthy(row.backdropPath)))
  {
  }

  /** A blank query gives no results whatever the provider would answer, so the
      request is never needed. */
  lemma BlankQueryNeedsNoProvider(query: string, a: Response, b: Response)
    requires forall i :: 0 <= i < |query| ==> Text.IsWhitespace(query[i])
    ensures Results(query, a) == Results(query, b) == []
  {
    Text.TrimEmptyIffAllWhitespace(query);
  }

  /** A query with a non-white character is passed on to the provider. */
  lemma NonBlankQueryUsesProvider(query: string, rows: seq<Row>)
    requires exists i :: 0 <= i < |query| && !Text.IsWhitespace(query[i])
    ensures Results(query, Answered(rows)) == Map(Filter(rows, Keep), Reset)
  {
    Text.TrimEmptyIffAllWhitespace(query);
  }

  /** Results keep the provider's order: the rows of `a` come before those of
      `b`, each part filtered on its own. */
  lemma {:induction false} ResultsOfConcat(query: string, a: seq<Row>, b: seq<Row>)
    ensures Results(query, Answered(a + b)) == Results(query, Answered(a)) + Results(query, Answered(b))
  {
    if !Blank(query) {
      FilterConcat(a, b, Keep);
      MapConcat(Filter(a, Keep), Filter(b, Keep), Reset);
    }
  }

  /** One row on its own: kept (with empty cast and genres) exactly when `Keep` holds. */
  lemma ResultsOfOne(query: string, row: Row)
    requires !Blank(query)
    ensures Results(query, Answered([row])) == if Keep(row) then [Reset(row)] else []
  {
    assert [row][1..] == [];
  }

  /** Every result is a provider row with only `cast`/`genres` replaced, and the
      results, read with their own `cast`/`genres` reset, are an
      order-preserving subsequence of the provider rows read the same way. */
  lemma ResultsAreRowsInOrder(query: string, rows: seq<Row>)
    requires !Blank(query)
    ensures forall x :: x in Results(query, Answered(rows)) <==> exists y :: y in rows && Keep(y) && x == Reset(y)
    ensures IsSubsequence(Results(query, Answered(rows)), Map(rows, Reset))
  {
    assert Results(query, Answered(rows)) == Map(Filter(rows, Keep), Reset);
    KeptRowsReset(rows);
    FilterMap(rows, Reset, Keep);
    FilterIsSubsequence(Map(rows, Reset), Keep);
  }

  lemma KeptRowsReset(rows: seq<Row>)
    ensures forall x :: x in Map(Filter(rows, Keep), Reset) <==> exists y :: y in rows && Keep(y) && x == Reset(y)
  {
    var kept := Filter(rows, Keep);
    forall x ensures x in Map(kept, Reset) <==> exists y :: y in rows && Keep(y) && x == Reset(y) {
      if x in Map(kept, Reset) {
        var i :| 0 <= i < |kept| && Map(kept, Reset)[i] == x;
        assert kept[i] in rows && Keep(kept[i]);
      }
      if exists y :: y in rows && Keep(y) && x == Reset(y) {
        var y :| y in rows && Keep(y) && x == Reset(y);
        assert y in kept;
        var i :| 0 <= i < |kept| && kept[i] == y;
        assert Map(kept, Reset)[i] == x;
      }
    }
  }
}

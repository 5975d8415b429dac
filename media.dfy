/** The two record shapes of the component: a provider search row (a TMDB
    `search/multi` result) and a collection entry (an element of
    `watchedItems`), and the conversion `addToWatchlist` performs. */
module Media {
  import opened JsValues

  /** The user's rating: 'love', 'up' or 'down'; `null` is `None`. */
  datatype Rating = Love | Up | Down

  /** An entry's `type`: 'movie' or 'series'. */
  datatype Kind = Movie | Series

  /** A provider row. `voteAverage` is the provider's average in tenths
      (8.5 is 85). `cast` and `genres` are not provider fields; the search
      step sets them to empty arrays. */
  datatype Row = Row(
    id: int,
    title: Option<string>,
    name: Option<string>,
    mediaType: string,
    posterPath: Field,
    backdropPath: Field,
    overview: string,
    releaseDate: Option<string>,
    firstAirDate: Option<string>,
    voteAverage: Option<int>,
    cast: Option<seq<string>>,
    genres: Option<seq<string>>)

  /** A collection entry. `id` is the local id (a millisecond timestamp at
      creation), `tmdbId` the provider id (missing on entries stored by older
      versions), `dateWatched` an ISO `YYYY-MM-DD` date, `tmdbRating` tenths. */
  datatype Entry = Entry(
    id: int,
    tmdbId: Option<int>,
    title: string,
    kind: Kind,
    poster: Field,
    backdrop: Field,
    overview: string,
    releaseDate: Option<string>,
    rating: Option<Rating>,
    dateWatched: string,
    tmdbRating: Option<int>,
    cast: seq<string>,
    genres: seq<string>)

  /** `media_type === 'tv' ? 'series' : 'movie'`. */
  function KindOf(mediaType: string): (k: Kind)
    ensures k == Series <==> mediaType == "tv"
  {
    if mediaType == "tv" then Series else Movie
  }

  /** `title || name`; a row with neither has the empty title. */
  function DisplayTitle(row: Row): (t: string)
    ensures row.title.Some? && row.title.value != "" ==> t == row.title.value
    ensures (row.title.None? || row.title.value == "") && row.name.Some? ==> t == row.name.value
  {
    Or(row.title, row.name).GetOr("")
  }

  /** The entry `addToWatchlist(row, rating)` builds, with `now` standing for
      `Date.now()` and `today` for the ISO date of `new Date()`. */
  function NewEntry(row: Row, rating: Option<Rating>, now: int, today: string): (e: Entry)
    ensures e.id == now && e.tmdbId == Some(row.id)
    ensures e.title == DisplayTitle(row)
    ensures e.kind == Series <==> row.mediaType == "tv"
    ensures e.poster == row.posterPath && e.backdrop == row.backdropPath
    ensures e.overview == row.overview
    ensures row.releaseDate.Some? && row.releaseDate.value != "" ==> e.releaseDate == row.releaseDate
    ensures (row.releaseDate.None? || row.releaseDate.value == "") ==> e.releaseDate == row.firstAirDate
    ensures e.rating == rating && e.dateWatched == today
    ensures e.tmdbRating == row.voteAverage
    ensures e.cast == (if row.cast.Some? then row.cast.value else [])
    ensures e.genres == (if row.genres.Some? then row.genres.value else [])
  {
    Entry(
      id := now,
      tmdbId := Some(row.id),
      title := DisplayTitle(row),
      kind := KindOf(row.mediaType),
      poster := row.posterPath,
      backdrop := row.backdropPath,
      overview := row.overview,
      releaseDate := Or(row.releaseDate, row.firstAirDate),
      rating := rating,
      dateWatched := today,
      tmdbRating := row.voteAverage,
      cast := row.cast.GetOr([]),
      genres := row.genres.GetOr([]))
  }
}

/** The movie handlers other than the catalog query: single lookup, adding a
    movie from the external provider, partial update, delete, the bulk sync
    of the provider's popular listing, and the argument checks of the two
    provider pass-throughs. The provider is a function parameter. */
module MovieController {
  import opened Common
  import opened Text
  import opened Seqs
  import opened Schema
  import opened Store

  // ---------------------------------------------------------------------------
  // The provider's data

  datatype Genre = Genre(id: int, name: string)

  /** A title as the provider's detail endpoint returns it. */
  datatype ProviderMovie = ProviderMovie(
    id: int,
    title: string,
    overview: Option<string>,
    posterPath: Option<string>,
    backdropPath: Option<string>,
    releaseDate: string,
    voteAverage: int,
    genres: Option<seq<Genre>>)

  /** An entry of the provider's popular listing (no genre names). */
  datatype ListingEntry = ListingEntry(
    id: int,
    title: string,
    overview: Option<string>,
    posterPath: Option<string>,
    backdropPath: Option<string>,
    releaseDate: string,
    voteAverage: int)

  // ---------------------------------------------------------------------------
  // GET /movies/:id

  function GetMovie(movies: seq<Movie>, id: nat): (r: Response<Movie>)
    ensures r.Fail? <==> forall k :: 0 <= k < |movies| ==> movies[k].id != id
    ensures r.Fail? ==> r.status == STATUS_NOT_FOUND
    ensures r.Ok? ==> r.status == STATUS_OK && r.body in movies && r.body.id == id
  {
    match FindMovie(movies, id)
    case None => Fail(STATUS_NOT_FOUND)
    case Some(k) => Ok(STATUS_OK, movies[k])
  }

  // ---------------------------------------------------------------------------
  // POST /movies

  function GenreNames(genres: seq<Genre>): (names: seq<string>)
    ensures |names| == |genres| && forall k :: 0 <= k < |genres| ==> names[k] == genres[k].name
  {
    seq(|genres|, k requires 0 <= k < |genres| => genres[k].name)
  }

  /** The stored `genres` column: the names joined with commas, or `""` when
      the provider sends no genre list. */
  function GenresColumn(genres: Option<seq<Genre>>): (column: string)
    ensures genres.None? || genres.value == [] ==> column == ""
    ensures genres.Some? && |genres.value| == 1 ==> column == genres.value[0].name
    ensures genres.Some? && (forall k :: 0 <= k < |genres.value| ==> genres.value[k].name != "") ==>
              (column == "" <==> genres.value == [])
  {
    if genres.Some? then Join(GenreNames(genres.value), ',') else ""
  }

  /** A non-empty list of comma-free genre names can be read back from the
      stored column by splitting on commas. */
  lemma GenresRoundTrip(genres: seq<Genre>)
    requires |genres| >= 1
    requires forall k :: 0 <= k < |genres| ==> ',' !in genres[k].name
    ensures Split(GenresColumn(Some(genres)), ',') == GenreNames(genres)
  {
    SplitJoin(GenreNames(genres), ',');
  }

  /** An availability bound in a request body: a truthy value becomes that
      date, anything else becomes `null`. */
  function DateOrNull(v: BodyValue<nat>): (r: Option<nat>)
    ensures r.Some? <==> v.Truthy?
    ensures v.Truthy? ==> r == Some(v.value)
  {
    if v.Truthy? then Some(v.value) else None
  }

  /** The row created from the provider's detail for a title. */
  function MovieFromProvider(p: ProviderMovie, id: nat, start: BodyValue<nat>, end: BodyValue<nat>, now: nat): (m: Movie)
    ensures m.id == id && m.tmdbId == Some(p.id) && m.createdAt == now
    ensures m.title == p.title && m.releaseDate == p.releaseDate && m.voteAverage == p.voteAverage
    ensures m.posterPath == p.posterPath && m.backdropPath == p.backdropPath
    ensures m.overview == Some(p.overview.GetOr(""))
    ensures p.genres.None? ==> m.genres == ""
    ensures p.genres.Some? ==> m.genres == Join(GenreNames(p.genres.value), ',')
    ensures !m.isFeatured && m.videoUrl.None?
    ensures m.availabilityStart == DateOrNull(start) && m.availabilityEnd == DateOrNull(end)
    ensures m.availabilityStart.Some? <==> start.Truthy?
    ensures m.availabilityEnd.Some? <==> end.Truthy?
  {
    Movie(
      id := id,
      tmdbId := Some(p.id),
      title := p.title,
      overview := Some(p.overview.GetOr("")),
      posterPath := p.posterPath,
      backdropPath := p.backdropPath,
      releaseDate := p.releaseDate,
      voteAverage := p.voteAverage,
      genres := GenresColumn(p.genres),
      isFeatured := false,
      videoUrl := None,
      availabilityStart := DateOrNull(start),
      availabilityEnd := DateOrNull(end),
      createdAt := now)
  }

  /** Appending a row whose id is the next autoincrement value and whose
      `tmdbId` is not yet taken keeps the movie table's constraints. */
  lemma AppendKeepsMovieTable(movies: seq<Movie>, nextId: nat, m: Movie)
    requires MovieTable(movies, nextId)
    requires m.id == nextId
    requires m.tmdbId.Some? ==> FindMovieByTmdbId(movies, m.tmdbId.value).None?
    ensures MovieTable(movies + [m], nextId + 1)
  {
    PairwiseAppend(movies, m, MovieRowsOrdered);
  }

  lemma AppendKeepsReferences(history: seq<WatchEntry>, users: seq<User>, movies: seq<Movie>, m: Movie)
    requires ReferencesValid(history, users, movies)
    ensures ReferencesValid(history, users, movies + [m])
  {
    forall k | 0 <= k < |history|
      ensures HasMovie(movies + [m], history[k].movieId)
    {
      var j :| 0 <= j < |movies| && movies[j].id == history[k].movieId;
      assert (movies + [m])[j] == movies[j];
    }
  }

  /** POST /movies with body `{ tmdbId, availabilityStart, availabilityEnd }`.
      A `tmdbId` already in the table is refused with 400 before the provider
      is asked; an unknown title is 404; if the provider's own id is already
      in the table, the unique constraint makes the insert fail (500). */
  method AddMovieFromTmdb(
    db: Database, tmdbId: int, start: BodyValue<nat>, end: BodyValue<nat>,
    getMovieById: int -> Option<ProviderMovie>, now: nat)
    returns (r: Response<Movie>)
    requires db.Valid()
    modifies db
    ensures db.Valid()
    ensures db.users == old(db.users) && db.history == old(db.history)
    ensures db.nextUserId == old(db.nextUserId) && db.nextHistoryId == old(db.nextHistoryId)
    ensures FindMovieByTmdbId(old(db.movies), tmdbId).Some? ==>
              r == Fail(STATUS_BAD_REQUEST)
              && db.movies == old(db.movies) && db.nextMovieId == old(db.nextMovieId)
    ensures FindMovieByTmdbId(old(db.movies), tmdbId).None? && getMovieById(tmdbId).None? ==>
              r == Fail(STATUS_NOT_FOUND)
              && db.movies == old(db.movies) && db.nextMovieId == old(db.nextMovieId)
    ensures FindMovieByTmdbId(old(db.movies), tmdbId).None? && getMovieById(tmdbId).Some? ==>
              var p := getMovieById(tmdbId).value;
              if FindMovieByTmdbId(old(db.movies), p.id).Some? then
                r == Fail(STATUS_SERVER_ERROR)
                && db.movies == old(db.movies) && db.nextMovieId == old(db.nextMovieId)
              else
                var m := MovieFromProvider(p, old(db.nextMovieId), start, end, now);
                r == Ok(STATUS_CREATED, m)
                && db.movies == old(db.movies) + [m] && db.nextMovieId == old(db.nextMovieId) + 1
  {
    if FindMovieByTmdbId(db.movies, tmdbId).Some? {
      return Fail(STATUS_BAD_REQUEST);
    }
    var data := getMovieById(tmdbId);
    if data.None? {
      return Fail(STATUS_NOT_FOUND);
    }
    var p := data.value;
    if FindMovieByTmdbId(db.movies, p.id).Some? {
      return Fail(STATUS_SERVER_ERROR);
    }
    var m := MovieFromProvider(p, db.nextMovieId, start, end, now);
    AppendKeepsMovieTable(db.movies, db.nextMovieId, m);
    AppendKeepsReferences(db.history, db.users, db.movies, m);
    db.movies, db.nextMovieId := db.movies + [m], db.nextMovieId + 1;
    r := Ok(STATUS_CREATED, m);
  }

  // ---------------------------------------------------------------------------
  // PUT /movies/:id

  /** The fields of an update body. For the plain fields `None` is a field the
      body leaves out (`undefined`), which the store leaves alone; `videoUrl`
      and `overview` are nullable, so `Some(None)` clears them. */
  datatype MoviePatch = MoviePatch(
    title: Option<string>,
    overview: Option<Option<string>>,
    genres: Option<string>,
    isFeatured: Option<bool>,
    videoUrl: Option<Option<string>>,
    availabilityStart: BodyValue<nat>,
    availabilityEnd: BodyValue<nat>)

  const EMPTY_PATCH: MoviePatch := MoviePatch(None, None, None, None, None, Undefined, Undefined)

  /** An availability bound under update: `undefined` leaves it alone, a
      falsy value clears it, a truthy value sets it. */
  function AvailabilityAfter(current: Option<nat>, v: BodyValue<nat>): (r: Option<nat>)
    ensures v.Undefined? ==> r == current
    ensures v.Falsy? ==> r.None?
    ensures v.Truthy? ==> r == Some(v.value)
  {
    match v
    case Undefined => current
    case Falsy => None
    case Truthy(t) => Some(t)
  }

  function PatchMovie(m: Movie, patch: MoviePatch): (m': Movie)
    ensures m'.id == m.id && m'.tmdbId == m.tmdbId && m'.createdAt == m.createdAt
    ensures m'.posterPath == m.posterPath && m'.backdropPath == m.backdropPath
    ensures m'.releaseDate == m.releaseDate && m'.voteAverage == m.voteAverage
    ensures m'.title == Assign(m.title, patch.title)
    ensures m'.overview == Assign(m.overview, patch.overview)
    ensures m'.genres == Assign(m.genres, patch.genres)
    ensures m'.isFeatured == Assign(m.isFeatured, patch.isFeatured)
    ensures m'.videoUrl == Assign(m.videoUrl, patch.videoUrl)
    ensures m'.availabilityStart == AvailabilityAfter(m.availabilityStart, patch.availabilityStart)
    ensures m'.availabilityEnd == AvailabilityAfter(m.availabilityEnd, patch.availabilityEnd)
  {
    m.(
      title := Assign(m.title, patch.title),
      overview := Assign(m.overview, patch.overview),
      genres := Assign(m.genres, patch.genres),
      isFeatured := Assign(m.isFeatured, patch.isFeatured),
      videoUrl := Assign(m.videoUrl, patch.videoUrl),
      availabilityStart := AvailabilityAfter(m.availabilityStart, patch.availabilityStart),
      availabilityEnd := AvailabilityAfter(m.availabilityEnd, patch.availabilityEnd))
  }

  /** A body that supplies no field leaves the row as it was, and applying
      the same body twice is the same as applying it once. */
  lemma PatchMovieLaws(m: Movie, patch: MoviePatch)
    ensures PatchMovie(m, EMPTY_PATCH) == m
    ensures PatchMovie(PatchMovie(m, patch), patch) == PatchMovie(m, patch)
  {
  }

  /** PUT /movies/:id. Updating an id that is not in the table makes the
      store throw, which becomes a 500. */
  method UpdateMovie(db: Database, id: nat, patch: MoviePatch) returns (r: Response<Movie>)
    requires db.Valid()
    modifies db
    ensures db.Valid()
    ensures db.users == old(db.users) && db.history == old(db.history)
    ensures db.nextMovieId == old(db.nextMovieId) && db.nextUserId == old(db.nextUserId)
    ensures db.nextHistoryId == old(db.nextHistoryId)
    ensures match FindMovie(old(db.movies), id)
      case None => r == Fail(STATUS_SERVER_ERROR) && db.movies == old(db.movies)
      case Some(k) =>
        && r == Ok(STATUS_OK, PatchMovie(old(db.movies)[k], patch))
        && db.movies == old(db.movies)[k := PatchMovie(old(db.movies)[k], patch)]
  {
    var found := FindMovie(db.movies, id);
    if found.None? {
      return Fail(STATUS_SERVER_ERROR);
    }
    var k := found.value;
    var m := PatchMovie(db.movies[k], patch);
    ghost var before := db.movies;
    forall i | 0 <= i < k ensures MovieRowsOrdered(before[i], m) {
      assert MovieRowsOrdered(before[i], before[k]);
    }
    forall j | k < j < |before| ensures MovieRowsOrdered(m, before[j]) {
      assert MovieRowsOrdered(before[k], before[j]);
    }
    PairwiseReplace(before, k, m, MovieRowsOrdered);
    db.movies := db.movies[k := m];
    forall e | 0 <= e < |db.history| ensures HasMovie(db.movies, db.history[e].movieId) {
      var j :| 0 <= j < |before| && before[j].id == db.history[e].movieId;
      assert db.movies[j].id == before[j].id;
    }
    r := Ok(STATUS_OK, m);
  }

  // ---------------------------------------------------------------------------
  // DELETE /movies/:id

  /** The movie table without the row `id`. */
  function WithoutMovie(movies: seq<Movie>, id: nat): (r: seq<Movie>)
    ensures forall m :: m in r <==> m in movies && m.id != id
  {
    Filter(movies, (m: Movie) => m.id != id)
  }

  /** The history table without the rows of movie `id` (the cascade). */
  function WithoutMovieHistory(history: seq<WatchEntry>, id: nat): (r: seq<WatchEntry>)
    ensures forall e :: e in r <==> e in history && e.movieId != id
  {
    Filter(history, (e: WatchEntry) => e.movieId != id)
  }

  /** Removing a movie row together with its history rows keeps every table
      constraint, the foreign keys included. */
  lemma DeleteMovieKeepsTables(
    movies: seq<Movie>, users: seq<User>, history: seq<WatchEntry>, nextMovieId: nat, nextHistoryId: nat, id: nat)
    requires MovieTable(movies, nextMovieId) && HistoryTable(history, nextHistoryId)
    requires ReferencesValid(history, users, movies)
    ensures MovieTable(WithoutMovie(movies, id), nextMovieId)
    ensures HistoryTable(WithoutMovieHistory(history, id), nextHistoryId)
    ensures ReferencesValid(WithoutMovieHistory(history, id), users, WithoutMovie(movies, id))
  {
    var movies', history' := WithoutMovie(movies, id), WithoutMovieHistory(history, id);
    PairwiseFilter(movies, (m: Movie) => m.id != id, MovieRowsOrdered);
    PairwiseFilter(history, (e: WatchEntry) => e.movieId != id, HistoryRowsOrdered);
    forall k | 0 <= k < |movies'| ensures movies'[k].id < nextMovieId {
      assert movies'[k] in movies;
    }
    forall k | 0 <= k < |history'| ensures history'[k].id < nextHistoryId {
      assert history'[k] in history;
    }
    forall k | 0 <= k < |history'|
      ensures HasUser(users, history'[k].userId) && HasMovie(movies', history'[k].movieId)
    {
      var e := history'[k];
      assert e in history;
      var i :| 0 <= i < |history| && history[i] == e;
      var j :| 0 <= j < |movies| && movies[j].id == e.movieId;
      assert movies[j] in movies';
    }
  }

  /** DELETE /movies/:id: removes the row and, by the cascade the schema is
      assumed to declare, the history rows that point at it. Deleting an id
      that is not in the table makes the store throw, which becomes a 500. */
  method DeleteMovie(db: Database, id: nat) returns (r: Response<()>)
    requires db.Valid()
    modifies db
    ensures db.Valid()
    ensures db.users == old(db.users)
    ensures db.nextMovieId == old(db.nextMovieId) && db.nextUserId == old(db.nextUserId)
    ensures db.nextHistoryId == old(db.nextHistoryId)
    ensures FindMovie(old(db.movies), id).None? ==>
              r == Fail(STATUS_SERVER_ERROR) && db.movies == old(db.movies) && db.history == old(db.history)
    ensures FindMovie(old(db.movies), id).Some? ==>
              && r == Ok(STATUS_OK, ())
              && db.movies == WithoutMovie(old(db.movies), id)
              && db.history == WithoutMovieHistory(old(db.history), id)
  {
    if FindMovie(db.movies, id).None? {
      return Fail(STATUS_SERVER_ERROR);
    }
    DeleteMovieKeepsTables(db.movies, db.users, db.history, db.nextMovieId, db.nextHistoryId, id);
    db.movies := WithoutMovie(db.movies, id);
    db.history := WithoutMovieHistory(db.history, id);
    r := Ok(STATUS_OK, ());
  }

  // ---------------------------------------------------------------------------
  // POST /movies/sync-tmdb

  /** The row inserted for a listing entry: the listing's fields, an empty
      genre list, and the table's defaults for the rest. */
  function MovieFromListing(e: ListingEntry, id: nat, now: nat): (m: Movie)
    ensures m.id == id && m.tmdbId == Some(e.id) && m.genres == ""
    ensures m.title == e.title && m.overview == e.overview && m.releaseDate == e.releaseDate
    ensures m.voteAverage == e.voteAverage && m.createdAt == now
    ensures m.posterPath == e.posterPath && m.backdropPath == e.backdropPath
    ensures !m.isFeatured && m.videoUrl.None? && m.availabilityStart.None? && m.availabilityEnd.None?
  {
    Movie(
      id := id,
      tmdbId := Some(e.id),
      title := e.title,
      overview := e.overview,
      posterPath := e.posterPath,
      backdropPath := e.backdropPath,
      releaseDate := e.releaseDate,
      voteAverage := e.voteAverage,
      genres := "",
      isFeatured := false,
      videoUrl := None,
      availabilityStart := None,
      availabilityEnd := None,
      createdAt := now)
  }

  /** The movie table, its counter, and the number of rows added so far. */
  datatype SyncState = SyncState(movies: seq<Movie>, nextId: nat, added: nat)

  /** One iteration: insert the entry if its `tmdbId` is absent, else skip
      it. It adds at most one row, and the count and the counter grow by the
      rows added. */
  function SyncStep(s: SyncState, e: ListingEntry, now: nat): (r: SyncState)
    ensures |s.movies| <= |r.movies| <= |s.movies| + 1
    ensures r.added == s.added + (|r.movies| - |s.movies|) && r.nextId == s.nextId + (|r.movies| - |s.movies|)
  {
    if FindMovieByTmdbId(s.movies, e.id).Some? then s
    else SyncState(s.movies + [MovieFromListing(e, s.nextId, now)], s.nextId + 1, s.added + 1)
  }

  /** After a step the entry's `tmdbId` is in the table, the old rows are
      kept, and an entry already stored changes nothing. */
  lemma SyncStepLaws(s: SyncState, e: ListingEntry, now: nat)
    ensures FindMovieByTmdbId(SyncStep(s, e, now).movies, e.id).Some?
    ensures s.movies <= SyncStep(s, e, now).movies
    ensures FindMovieByTmdbId(s.movies, e.id).Some? ==> SyncStep(s, e, now) == s
  {
    if FindMovieByTmdbId(s.movies, e.id).None? {
      assert SyncStep(s, e, now).movies[|s.movies|].tmdbId == Some(e.id);
    }
  }

  /** The state after iterating over `entries` in order; it adds at most
      one row per entry. */
  function SyncAll(s: SyncState, entries: seq<ListingEntry>, now: nat): (r: SyncState)
    ensures |s.movies| <= |r.movies| <= |s.movies| + |entries|
    decreases |entries|
  {
    if |entries| == 0 then s
    else SyncStep(SyncAll(s, entries[..|entries| - 1], now), entries[|entries| - 1], now)
  }

  /** The sync only appends: existing rows stay as they were, and the counter
      and the count of insertions advance with the number of rows added. */
  lemma {:induction false} SyncAppendsOnly(s: SyncState, entries: seq<ListingEntry>, now: nat)
    ensures var t := SyncAll(s, entries, now);
      && |t.movies| >= |s.movies|
      && t.movies[..|s.movies|] == s.movies
      && t.added == s.added + (|t.movies| - |s.movies|)
      && t.nextId == s.nextId + (|t.movies| - |s.movies|)
    decreases |entries|
  {
    if |entries| > 0 {
      var mid := SyncAll(s, entries[..|entries| - 1], now);
      SyncAppendsOnly(s, entries[..|entries| - 1], now);
      var t := SyncStep(mid, entries[|entries| - 1], now);
      assert t.movies[..|s.movies|] == mid.movies[..|s.movies|];
    }
  }

  /** Each sync step keeps the movie table's constraints. */
  lemma {:induction false} SyncKeepsMovieTable(s: SyncState, entries: seq<ListingEntry>, now: nat)
    requires MovieTable(s.movies, s.nextId)
    ensures var t := SyncAll(s, entries, now); MovieTable(t.movies, t.nextId)
    decreases |entries|
  {
    if |entries| > 0 {
      var mid := SyncAll(s, entries[..|entries| - 1], now);
      SyncKeepsMovieTable(s, entries[..|entries| - 1], now);
      var e := entries[|entries| - 1];
      if FindMovieByTmdbId(mid.movies, e.id).None? {
        AppendKeepsMovieTable(mid.movies, mid.nextId, MovieFromListing(e, mid.nextId, now));
      }
    }
  }

  /** After the sync every listed `tmdbId` is in the table. */
  lemma {:induction false} SyncCoversListing(s: SyncState, entries: seq<ListingEntry>, now: nat)
    ensures var t := SyncAll(s, entries, now);
      forall k :: 0 <= k < |entries| ==> FindMovieByTmdbId(t.movies, entries[k].id).Some?
    decreases |entries|
  {
    if |entries| > 0 {
      var front := entries[..|entries| - 1];
      var mid := SyncAll(s, front, now);
      SyncCoversListing(s, front, now);
      var t := SyncAll(s, entries, now);
      var last := entries[|entries| - 1];
      forall k | 0 <= k < |entries|
        ensures FindMovieByTmdbId(t.movies, entries[k].id).Some?
      {
        if k < |entries| - 1 {
          assert entries[k] == front[k];
          var i := FindMovieByTmdbId(mid.movies, entries[k].id).value;
          assert t.movies[i] == mid.movies[i];
        } else if FindMovieByTmdbId(mid.movies, last.id).Some? {
          assert t == mid;
        } else {
          assert t.movies[|mid.movies|].tmdbId == Some(last.id);
        }
      }
    }
  }

  /** A step that adds a row adds the entry's row, whose `tmdbId` is then
      also absent from any prefix of the table. */
  lemma StepAddsAbsent(prefix: seq<Movie>, mid: SyncState, e: ListingEntry, now: nat)
    requires prefix <= mid.movies
    requires |SyncStep(mid, e, now).movies| > |mid.movies|
    ensures SyncStep(mid, e, now).movies[|mid.movies|] == MovieFromListing(e, mid.nextId, now)
    ensures FindMovieByTmdbId(prefix, e.id).None?
  {
    forall i | 0 <= i < |prefix| ensures prefix[i].tmdbId != Some(e.id) {
      assert mid.movies[i] == prefix[i];
    }
  }

  /** Every row the sync adds comes from a listing entry whose `tmdbId` was
      not in the table before, and has an empty genre list. */
  lemma {:induction false} SyncAddsOnlyAbsent(s: SyncState, entries: seq<ListingEntry>, now: nat)
    ensures var t := SyncAll(s, entries, now);
      forall k :: |s.movies| <= k < |t.movies| ==>
        && t.movies[k].genres == ""
        && (exists j :: 0 <= j < |entries| && t.movies[k] == MovieFromListing(entries[j], t.movies[k].id, now))
        && t.movies[k].tmdbId.Some?
        && FindMovieByTmdbId(s.movies, t.movies[k].tmdbId.value).None?
    decreases |entries|
  {
    if |entries| > 0 {
      var front := entries[..|entries| - 1];
      var mid := SyncAll(s, front, now);
      SyncAddsOnlyAbsent(s, front, now);
      SyncAppendsOnly(s, front, now);
      var last := entries[|entries| - 1];
      var t := SyncStep(mid, last, now);
      assert t == SyncAll(s, entries, now);
      forall k | |s.movies| <= k < |t.movies|
        ensures && t.movies[k].genres == ""
                && (exists j :: 0 <= j < |entries| && t.movies[k] == MovieFromListing(entries[j], t.movies[k].id, now))
                && t.movies[k].tmdbId.Some?
                && FindMovieByTmdbId(s.movies, t.movies[k].tmdbId.value).None?
      {
        if k < |mid.movies| {
          assert t.movies[k] == mid.movies[k];
          var j :| 0 <= j < |front| && mid.movies[k] == MovieFromListing(front[j], mid.movies[k].id, now);
          assert front[j] == entries[j];
        } else {
          StepAddsAbsent(s.movies, mid, last, now);
          assert entries[|entries| - 1] == last;
        }
      }
    }
  }

  /** The sync keeps the movie table's constraints, and every history row
      still finds its movie. */
  lemma SyncKeepsReferences(s: SyncState, entries: seq<ListingEntry>, now: nat, history: seq<WatchEntry>, users: seq<User>)
    requires MovieTable(s.movies, s.nextId) && ReferencesValid(history, users, s.movies)
    ensures var t := SyncAll(s, entries, now);
      MovieTable(t.movies, t.nextId) && ReferencesValid(history, users, t.movies)
  {
    var t := SyncAll(s, entries, now);
    SyncKeepsMovieTable(s, entries, now);
    SyncAppendsOnly(s, entries, now);
    forall k | 0 <= k < |history| ensures HasMovie(t.movies, history[k].movieId) {
      var j :| 0 <= j < |s.movies| && s.movies[j].id == history[k].movieId;
      assert t.movies[j] == s.movies[j];
    }
  }

  /** The loop of the sync: each listed title whose `tmdbId` is absent is
      inserted with the next id, in listing order; returns how many were. */
  method InsertAbsent(db: Database, entries: seq<ListingEntry>, now: nat) returns (addedCount: nat)
    modifies db`movies, db`nextMovieId
    ensures SyncState(db.movies, db.nextMovieId, addedCount) == SyncAll(SyncState(old(db.movies), old(db.nextMovieId), 0), entries, now)
  {
    ghost var start := SyncState(db.movies, db.nextMovieId, 0);
    addedCount := 0;
    for i := 0 to |entries|
      invariant SyncState(db.movies, db.nextMovieId, addedCount) == SyncAll(start, entries[..i], now)
    {
      var e := entries[i];
      assert entries[..i + 1][..i] == entries[..i];
      if FindMovieByTmdbId(db.movies, e.id).None? {
        db.movies, db.nextMovieId := db.movies + [MovieFromListing(e, db.nextMovieId, now)], db.nextMovieId + 1;
        addedCount := addedCount + 1;
      }
    }
    assert entries[..|entries|] == entries;
  }

  /** POST /movies/sync-tmdb with the provider's popular listing (`None` when
      the provider answers without results, which is a 500). Each entry whose
      `tmdbId` is absent is inserted; the response reports how many were. */
  method SyncPopularMovies(db: Database, popular: Option<seq<ListingEntry>>, now: nat) returns (r: Response<nat>)
    requires db.Valid()
    modifies db
    ensures db.Valid()
    ensures db.users == old(db.users) && db.history == old(db.history)
    ensures db.nextUserId == old(db.nextUserId) && db.nextHistoryId == old(db.nextHistoryId)
    ensures popular.None? ==>
              r == Fail(STATUS_SERVER_ERROR)
              && db.movies == old(db.movies) && db.nextMovieId == old(db.nextMovieId)
    ensures popular.Some? ==>
              var t := SyncAll(SyncState(old(db.movies), old(db.nextMovieId), 0), popular.value, now);
              r == Ok(STATUS_OK, t.added) && db.movies == t.movies && db.nextMovieId == t.nextId
  {
    if popular.None? {
      return Fail(STATUS_SERVER_ERROR);
    }
    ghost var start := SyncState(db.movies, db.nextMovieId, 0);
    var addedCount := InsertAbsent(db, popular.value, now);
    SyncKeepsReferences(start, popular.value, now, db.history, db.users);
    r := Ok(STATUS_OK, addedCount);
  }

  /** The names the provider service exports. There is no
      `getPopularMovies` among them. */
  const SERVICE_EXPORTS: set<string> :=
    {"getMovieById", "searchMovies", "getMoviesByCategory", "getMovieCredits", "getMovieVideos", "getMovieImages"}

  /** What the handler's call `getPopularMovies()` yields: the provider's
      listing when the service exports that name. Otherwise the name is
      `undefined`, calling it throws a `TypeError`, and the handler's `catch`
      answers 500, the same answer as a listing without results. */
  function PopularListing(exports: set<string>, listing: seq<ListingEntry>): (r: Option<seq<ListingEntry>>)
    ensures r.Some? <==> "getPopularMovies" in exports
    ensures r.Some? ==> r.value == listing
  {
    if "getPopularMovies" in exports then Some(listing) else None
  }

  /** POST /movies/sync-tmdb as shipped, with the service above: whatever the
      provider would list, the request is answered 500 and nothing is
      inserted. */
  method SyncPopularMoviesAsWritten(db: Database, listing: seq<ListingEntry>, now: nat) returns (r: Response<nat>)
    requires db.Valid()
    modifies db
    ensures db.Valid()
    ensures r == Fail(STATUS_SERVER_ERROR)
    ensures db.movies == old(db.movies) && db.nextMovieId == old(db.nextMovieId)
    ensures db.users == old(db.users) && db.history == old(db.history)
    ensures db.nextUserId == old(db.nextUserId) && db.nextHistoryId == old(db.nextHistoryId)
  {
    assert "getPopularMovies" !in SERVICE_EXPORTS;
    r := SyncPopularMovies(db, PopularListing(SERVICE_EXPORTS, listing), now);
  }

  /** The discrepancy on one input: with an empty table and a one-entry
      listing, the shipped handler inserts nothing, while the sync the
      handler is written to perform inserts that entry and reports 1. */
  lemma ShippedSyncInsertsNothing(e: ListingEntry, now: nat)
    ensures PopularListing(SERVICE_EXPORTS, [e]).None?
    ensures var t := SyncAll(SyncState([], 0, 0), [e], now);
      t.added == 1 && t.movies == [MovieFromListing(e, 0, now)]
  {
    assert "getPopularMovies" !in SERVICE_EXPORTS;
    assert [e][..0] == [];
  }

  // ---------------------------------------------------------------------------
  // GET /movies/tmdb/search and GET /movies/tmdb/list (pass-throughs)

  /** Search the provider; an absent or empty query is refused with 400. */
  function SearchTmdb<P>(query: Option<string>, searchMovies: string -> P): (r: Response<P>)
    ensures r.Fail? <==> query.None? || query.value == ""
    ensures r.Fail? ==> r.status == STATUS_BAD_REQUEST
    ensures r.Ok? ==> r == Ok(STATUS_OK, searchMovies(query.value))
  {
    if query.None? || query.value == "" then Fail(STATUS_BAD_REQUEST)
    else Ok(STATUS_OK, searchMovies(query.value))
  }

  const VALID_CATEGORIES: seq<string> := ["popular", "top_rated", "upcoming", "now_playing"]

  /** A provider listing by category; the category defaults to `popular`, the
      page to 1, and a category outside the four known ones is refused with
      400 before the provider is asked. */
  function GetTmdbMovies<P>(category: Option<string>, page: Option<nat>, byCategory: (string, nat) -> P): (r: Response<P>)
    ensures var c := if category.None? || category.value == "" then "popular" else category.value;
      && (r.Ok? <==> c in VALID_CATEGORIES)
      && (r.Fail? ==> r.status == STATUS_BAD_REQUEST)
      && (r.Ok? ==> r == Ok(STATUS_OK, byCategory(c, page.GetOr(1))))
  {
    var c := if category.None? || category.value == "" then "popular" else category.value;
    if c !in VALID_CATEGORIES then Fail(STATUS_BAD_REQUEST)
    else Ok(STATUS_OK, byCategory(c, page.GetOr(1)))
  }
}

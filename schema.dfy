/** The three tables of the database: movies, users and watch history, their
    rows, and the constraints the database enforces on them (autoincrement
    ids, unique `tmdbId`, unique `email`, unique `(userId, movieId)`, and
    foreign keys from history rows to users and movies). Tables are kept in
    id order, which is insertion order under autoincrement. */
module Schema {
  import opened Common
  import opened Seqs

  datatype Role = USER | ADMIN

  /** A row of the movie table. Dates are timestamps; the provider's vote
      average is an integer standing for the same order. */
  datatype Movie = Movie(
    id: nat,
    tmdbId: Option<int>,
    title: string,
    overview: Option<string>,
    posterPath: Option<string>,
    backdropPath: Option<string>,
    releaseDate: string,
    voteAverage: int,
    genres: string,
    isFeatured: bool,
    videoUrl: Option<string>,
    availabilityStart: Option<nat>,
    availabilityEnd: Option<nat>,
    createdAt: nat)

  /** A row of the user table; `password` holds the hash, never the
      cleartext. */
  datatype User = User(id: nat, name: string, email: string, password: string, role: Role, createdAt: nat)

  /** A row of the watch-history table. */
  datatype WatchEntry = WatchEntry(id: nat, userId: nat, movieId: nat, watchedAt: nat)

  // Constraints between two rows of the same table, the first before the second.

  predicate MovieRowsOrdered(a: Movie, b: Movie) {
    a.id < b.id && (a.tmdbId.Some? ==> a.tmdbId != b.tmdbId)
  }

  predicate UserRowsOrdered(a: User, b: User) {
    a.id < b.id && a.email != b.email
  }

  predicate HistoryRowsOrdered(a: WatchEntry, b: WatchEntry) {
    a.id < b.id && (a.userId, a.movieId) != (b.userId, b.movieId)
  }

  // Lookups, one per unique key.

  function FindMovie(movies: seq<Movie>, id: nat): (r: Option<nat>)
    ensures r.Some? ==> r.value < |movies| && movies[r.value].id == id
    ensures r.None? <==> forall k :: 0 <= k < |movies| ==> movies[k].id != id
  {
    FirstIndex(movies, (m: Movie) => m.id == id)
  }

  function FindMovieByTmdbId(movies: seq<Movie>, tmdbId: int): (r: Option<nat>)
    ensures r.Some? ==> r.value < |movies| && movies[r.value].tmdbId == Some(tmdbId)
    ensures r.None? <==> forall k :: 0 <= k < |movies| ==> movies[k].tmdbId != Some(tmdbId)
  {
    FirstIndex(movies, (m: Movie) => m.tmdbId == Some(tmdbId))
  }

  function FindUser(users: seq<User>, id: nat): (r: Option<nat>)
    ensures r.Some? ==> r.value < |users| && users[r.value].id == id
    ensures r.None? <==> forall k :: 0 <= k < |users| ==> users[k].id != id
  {
    FirstIndex(users, (u: User) => u.id == id)
  }

  function FindUserByEmail(users: seq<User>, email: string): (r: Option<nat>)
    ensures r.Some? ==> r.value < |users| && users[r.value].email == email
    ensures r.None? <==> forall k :: 0 <= k < |users| ==> users[k].email != email
  {
    FirstIndex(users, (u: User) => u.email == email)
  }

  function FindEntry(history: seq<WatchEntry>, userId: nat, movieId: nat): (r: Option<nat>)
    ensures r.Some? ==> r.value < |history| && history[r.value].userId == userId && history[r.value].movieId == movieId
    ensures r.None? <==> forall k :: 0 <= k < |history| ==> history[k].userId != userId || history[k].movieId != movieId
  {
    FirstIndex(history, (e: WatchEntry) => e.userId == userId && e.movieId == movieId)
  }

  predicate HasMovie(movies: seq<Movie>, id: nat) {
    exists k :: 0 <= k < |movies| && movies[k].id == id
  }

  predicate HasUser(users: seq<User>, id: nat) {
    exists k :: 0 <= k < |users| && users[k].id == id
  }

  // Table invariants.

  ghost predicate MovieTable(movies: seq<Movie>, nextId: nat) {
    Pairwise(movies, MovieRowsOrdered) && forall k :: 0 <= k < |movies| ==> movies[k].id < nextId
  }

  ghost predicate UserTable(users: seq<User>, nextId: nat) {
    Pairwise(users, UserRowsOrdered) && forall k :: 0 <= k < |users| ==> users[k].id < nextId
  }

  ghost predicate HistoryTable(history: seq<WatchEntry>, nextId: nat) {
    Pairwise(history, HistoryRowsOrdered) && forall k :: 0 <= k < |history| ==> history[k].id < nextId
  }

  /** Every history row points at an existing user and an existing movie. */
  ghost predicate ReferencesValid(history: seq<WatchEntry>, users: seq<User>, movies: seq<Movie>) {
    forall k :: 0 <= k < |history| ==> HasUser(users, history[k].userId) && HasMovie(movies, history[k].movieId)
  }
}

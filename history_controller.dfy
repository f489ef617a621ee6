/** The watch-history handlers: `addToHistory` upserts the row for a
    (user, movie) pair, `getHistory` lists a user's rows, most recent first,
    each joined with its movie. */
module HistoryController {
  import opened Common
  import opened Seqs
  import opened Ordering
  import opened Schema
  import opened Store

  /** The table after an upsert, the index of the pair's row, and the
      autoincrement counter after it. */
  datatype UpsertResult = UpsertResult(rows: seq<WatchEntry>, index: nat, nextId: nat)

  /** The store's `upsert` on the unique pair `(userId, movieId)`: refresh the
      timestamp of the pair's row if there is one, otherwise create it. */
  function Upsert(rows: seq<WatchEntry>, userId: nat, movieId: nat, now: nat, nextId: nat): (r: UpsertResult)
    ensures r.index < |r.rows|
    ensures r.rows[r.index].userId == userId && r.rows[r.index].movieId == movieId
    ensures r.rows[r.index].watchedAt == now
    ensures |r.rows| >= |rows|
    ensures forall k :: 0 <= k < |rows| && k != r.index ==> r.rows[k] == rows[k]
    ensures FindEntry(rows, userId, movieId).Some? ==>
              && |r.rows| == |rows| && r.nextId == nextId
              && r.rows[r.index] == rows[r.index].(watchedAt := now)
    ensures FindEntry(rows, userId, movieId).None? ==>
              && |r.rows| == |rows| + 1 && r.index == |rows| && r.nextId == nextId + 1
              && r.rows[r.index].id == nextId
  {
    match FindEntry(rows, userId, movieId)
    case Some(k) => UpsertResult(rows[k := rows[k].(watchedAt := now)], k, nextId)
    case None => UpsertResult(rows + [WatchEntry(nextId, userId, movieId, now)], |rows|, nextId + 1)
  }

  /** After an upsert on a table with unique pairs, the pair has exactly one
      row, and the table still satisfies its constraints. */
  lemma UpsertKeepsTable(rows: seq<WatchEntry>, userId: nat, movieId: nat, now: nat, nextId: nat)
    requires HistoryTable(rows, nextId)
    ensures var r := Upsert(rows, userId, movieId, now, nextId);
      && HistoryTable(r.rows, r.nextId)
      && forall k :: 0 <= k < |r.rows| && k != r.index ==>
           (r.rows[k].userId, r.rows[k].movieId) != (userId, movieId)
  {
    var r := Upsert(rows, userId, movieId, now, nextId);
    match FindEntry(rows, userId, movieId)
    case Some(k) =>
      var e := rows[k].(watchedAt := now);
      PairwiseReplace(rows, k, e, HistoryRowsOrdered);
      forall j | 0 <= j < |r.rows| && j != k
        ensures (r.rows[j].userId, r.rows[j].movieId) != (userId, movieId)
      {
        if j < k {
          assert HistoryRowsOrdered(rows[j], rows[k]);
        } else {
          assert HistoryRowsOrdered(rows[k], rows[j]);
        }
      }
    case None =>
      PairwiseAppend(rows, WatchEntry(nextId, userId, movieId, now), HistoryRowsOrdered);
  }

  /** A second upsert of the same pair leaves the same number of rows, keeps
      the row's id, and leaves the second call's time on it. */
  lemma UpsertTwice(rows: seq<WatchEntry>, userId: nat, movieId: nat, t1: nat, t2: nat, nextId: nat)
    requires HistoryTable(rows, nextId)
    ensures var once := Upsert(rows, userId, movieId, t1, nextId);
            var twice := Upsert(once.rows, userId, movieId, t2, once.nextId);
      && |twice.rows| == |once.rows| && twice.nextId == once.nextId
      && twice.index == once.index
      && twice.rows[twice.index] == once.rows[once.index].(watchedAt := t2)
  {
    var once := Upsert(rows, userId, movieId, t1, nextId);
    UpsertKeepsTable(rows, userId, movieId, t1, nextId);
    assert FindEntry(once.rows, userId, movieId).Some?;
  }

  /** POST /history: upsert the caller's row for `movieId`. The response is
      201 whether the row was created or refreshed. Creating a row whose
      user or movie does not exist violates a foreign key, and the store's
      error becomes a 500. */
  method AddToHistory(db: Database, userId: nat, movieId: nat, now: nat) returns (r: Response<WatchEntry>)
    requires db.Valid()
    modifies db
    ensures db.Valid()
    ensures db.movies == old(db.movies) && db.users == old(db.users)
    ensures db.nextMovieId == old(db.nextMovieId) && db.nextUserId == old(db.nextUserId)
    ensures var u := Upsert(old(db.history), userId, movieId, now, old(db.nextHistoryId));
      if FindEntry(old(db.history), userId, movieId).None?
         && (!HasUser(old(db.users), userId) || !HasMovie(old(db.movies), movieId))
      then r == Fail(STATUS_SERVER_ERROR)
           && db.history == old(db.history) && db.nextHistoryId == old(db.nextHistoryId)
      else r == Ok(STATUS_CREATED, u.rows[u.index])
           && db.history == u.rows && db.nextHistoryId == u.nextId
  {
    var existing := FindEntry(db.history, userId, movieId);
    if existing.None? && (!HasUser(db.users, userId) || !HasMovie(db.movies, movieId)) {
      return Fail(STATUS_SERVER_ERROR);
    }
    UpsertKeepsTable(db.history, userId, movieId, now, db.nextHistoryId);
    var u := Upsert(db.history, userId, movieId, now, db.nextHistoryId);
    ghost var before := db.history;
    db.history, db.nextHistoryId := u.rows, u.nextId;
    forall k | 0 <= k < |db.history|
      ensures HasUser(db.users, db.history[k].userId) && HasMovie(db.movies, db.history[k].movieId)
    {
      if k != u.index {
        assert db.history[k] == before[k];
      } else if existing.Some? {
        assert db.history[k].userId == before[k].userId && db.history[k].movieId == before[k].movieId;
      }
    }
    r := Ok(STATUS_CREATED, u.rows[u.index]);
  }

  /** One entry of a user's history, joined with its movie. */
  datatype HistoryItem = HistoryItem(entry: WatchEntry, movie: Movie)

  /** The rows of the history table that belong to `userId`, in table order. */
  function RowsOf(history: seq<WatchEntry>, userId: nat): (r: seq<WatchEntry>)
    ensures forall e :: e in r <==> e in history && e.userId == userId
  {
    Filter(history, (e: WatchEntry) => e.userId == userId)
  }

  /** The user's rows are kept as often as the table holds them, and no
      other row. */
  lemma RowsOfKeepsEveryRow(history: seq<WatchEntry>, userId: nat)
    ensures forall e :: multiset(RowsOf(history, userId))[e] ==
                          if e.userId == userId then multiset(history)[e] else 0
  {
    FilterMultiplicity(history, (e: WatchEntry) => e.userId == userId);
  }

  function WatchedAtKey(e: WatchEntry): Key {
    IntKey(e.watchedAt)
  }

  /** Pairs each entry with its movie (`include: { movie: true }`). */
  function WithMovies(entries: seq<WatchEntry>, movies: seq<Movie>): (r: seq<HistoryItem>)
    requires forall k :: 0 <= k < |entries| ==> HasMovie(movies, entries[k].movieId)
    ensures |r| == |entries|
    ensures forall k :: 0 <= k < |r| ==> r[k].entry == entries[k]
    ensures forall k :: 0 <= k < |r| ==> r[k].movie in movies && r[k].movie.id == entries[k].movieId
    decreases |entries|
  {
    if |entries| == 0 then []
    else
      assert HasMovie(movies, entries[0].movieId);
      var i := FindMovie(movies, entries[0].movieId);
      [HistoryItem(entries[0], movies[i.value])] + WithMovies(entries[1..], movies)
  }

  function Entries(items: seq<HistoryItem>): (r: seq<WatchEntry>)
    ensures |r| == |items| && forall k :: 0 <= k < |items| ==> r[k] == items[k].entry
  {
    seq(|items|, k requires 0 <= k < |items| => items[k].entry)
  }

  /** The user's rows, newest first. */
  function NewestFirst(history: seq<WatchEntry>, userId: nat): (r: seq<WatchEntry>)
    ensures multiset(r) == multiset(RowsOf(history, userId))
    ensures forall k :: 0 <= k < |r| ==> r[k].userId == userId && r[k] in history
    ensures forall i, j :: 0 <= i < j < |r| ==> r[i].watchedAt >= r[j].watchedAt
  {
    var rows := RowsOf(history, userId);
    var r := SortBy(rows, WatchedAtKey, Desc);
    PermutationMembers(r, rows);
    forall i, j | 0 <= i < j < |r| ensures r[i].watchedAt >= r[j].watchedAt {
      assert InOrder(WatchedAtKey(r[i]), WatchedAtKey(r[j]), Desc);
    }
    r
  }

  /** GET /history for the authenticated user `userId`. */
  function GetHistory(history: seq<WatchEntry>, movies: seq<Movie>, userId: nat): (r: seq<HistoryItem>)
    requires forall k :: 0 <= k < |history| ==> HasMovie(movies, history[k].movieId)
    ensures multiset(Entries(r)) == multiset(RowsOf(history, userId))
    ensures forall k :: 0 <= k < |r| ==> r[k].entry.userId == userId && r[k].entry in history
    ensures forall k :: 0 <= k < |r| ==> r[k].movie in movies && r[k].movie.id == r[k].entry.movieId
    ensures forall i, j :: 0 <= i < j < |r| ==> r[i].entry.watchedAt >= r[j].entry.watchedAt
  {
    var mine := NewestFirst(history, userId);
    forall k | 0 <= k < |mine| ensures HasMovie(movies, mine[k].movieId) {
      var i :| 0 <= i < |history| && history[i] == mine[k];
    }
    var r := WithMovies(mine, movies);
    assert Entries(r) == mine;
    r
  }

  /** A user with no rows gets an empty list, not an error; a user with rows
      gets all of them. */
  lemma HistoryEmptyIffNoRows(history: seq<WatchEntry>, movies: seq<Movie>, userId: nat)
    requires forall k :: 0 <= k < |history| ==> HasMovie(movies, history[k].movieId)
    ensures GetHistory(history, movies, userId) == [] <==>
            forall k :: 0 <= k < |history| ==> history[k].userId != userId
  {
    var r := GetHistory(history, movies, userId);
    var mine := RowsOf(history, userId);
    if r == [] {
      assert Entries(r) == [];
      assert multiset(mine) == multiset{};
    } else {
      var e := r[0].entry;
      assert e in multiset(Entries(r));
      assert e in mine;
      var k :| 0 <= k < |history| && history[k] == e;
    }
  }
}

/** The database the controllers share: three tables and their autoincrement
    counters, updated in place by the controllers. */
module Store {
  import opened Schema

  class Database {
    var movies: seq<Movie>
    var users: seq<User>
    var history: seq<WatchEntry>
    var nextMovieId: nat
    var nextUserId: nat
    var nextHistoryId: nat

    /** The constraints the database enforces on its tables. */
    ghost predicate Valid()
      reads this
    {
      && MovieTable(movies, nextMovieId)
      && UserTable(users, nextUserId)
      && HistoryTable(history, nextHistoryId)
      && ReferencesValid(history, users, movies)
    }

    constructor ()
      ensures Valid()
      ensures movies == [] && users == [] && history == []
    {
      movies, users, history := [], [], [];
      nextMovieId, nextUserId, nextHistoryId := 1, 1, 1;
    }
  }
}

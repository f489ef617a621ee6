/** The catalog query engine behind GET /movies: optional substring filters
    on title and genres, a fixed mapping from `sortBy` to one ordered column,
    and offset pagination. */
module Catalog {
  import opened Common
  import opened Text
  import opened Seqs
  import opened Ordering
  import opened Schema

  /** The query string of GET /movies, already parsed; `None` is a parameter
      the request leaves out. */
  datatype MovieQuery = MovieQuery(
    search: Option<string>,
    genre: Option<string>,
    sortBy: Option<string>,
    page: Option<nat>,
    limit: Option<nat>)

  datatype SortField = CreatedAt | VoteAverage | Title | ReleaseDate

  datatype Order = Order(field: SortField, dir: Direction)

  const DEFAULT_SORT: string := "latest"
  const DEFAULT_PAGE: nat := 1
  const DEFAULT_LIMIT: nat := 20

  /** The `orderBy` chosen for a `sortBy` value. */
  function OrderFor(sortBy: Option<string>): (o: Order)
    ensures sortBy == Some("popular") ==> o == Order(VoteAverage, Desc)
    ensures sortBy == Some("oldest") ==> o == Order(CreatedAt, Asc)
    ensures sortBy == Some("a-z") ==> o == Order(Title, Asc)
    ensures sortBy == Some("release_date") ==> o == Order(ReleaseDate, Desc)
    ensures sortBy !in {Some("popular"), Some("oldest"), Some("a-z"), Some("release_date")} ==>
              o == Order(CreatedAt, Desc)
  {
    var key := sortBy.GetOr(DEFAULT_SORT);
    if key == "popular" then Order(VoteAverage, Desc)
    else if key == "oldest" then Order(CreatedAt, Asc)
    else if key == "a-z" then Order(Title, Asc)
    else if key == "release_date" then Order(ReleaseDate, Desc)
    else Order(CreatedAt, Desc)
  }

  /** The value of the ordered column of a movie. */
  function ColumnKey(field: SortField, m: Movie): Key {
    match field
    case CreatedAt => IntKey(m.createdAt)
    case VoteAverage => IntKey(m.voteAverage)
    case Title => TextKey(m.title)
    case ReleaseDate => TextKey(m.releaseDate)
  }

  /** A filter given as an empty string is falsy and is not applied. A
      column always holds itself, and never a longer filter. */
  predicate FilterHolds(filter: Option<string>, column: string): (holds: bool)
    ensures filter.None? || filter.value == "" ==> holds
    ensures filter == Some(column) ==> holds
    ensures filter.Some? && |filter.value| > |column| ==> !holds
  {
    assert OccursAt(column, column, 0) by { assert column[0..|column|] == column; }
    filter.None? || filter.value == "" || Contains(column, filter.value)
  }

  /** The `where` clause: title contains `search`, genres contain `genre`.
      Without filters every movie matches, and a movie matches its own
      title and genres. */
  predicate Matches(m: Movie, search: Option<string>, genre: Option<string>): (ok: bool)
    ensures search.None? && genre.None? ==> ok
    ensures search == Some(m.title) && genre == Some(m.genres) ==> ok
    ensures ok ==> (search.None? || |search.value| <= |m.title|) && (genre.None? || |genre.value| <= |m.genres|)
  {
    FilterHolds(search, m.title) && FilterHolds(genre, m.genres)
  }

  function Matching(movies: seq<Movie>, search: Option<string>, genre: Option<string>): (r: seq<Movie>)
    ensures |r| <= |movies|
    ensures forall m :: m in r <==> m in movies && Matches(m, search, genre)
  {
    Filter(movies, (m: Movie) => Matches(m, search, genre))
  }

  /** The matches keep every matching movie as often as the table holds it,
      and nothing else, so their count is the number of matching rows. */
  lemma MatchingKeepsEveryMatch(movies: seq<Movie>, search: Option<string>, genre: Option<string>)
    ensures forall m :: multiset(Matching(movies, search, genre))[m] ==
                          if Matches(m, search, genre) then multiset(movies)[m] else 0
  {
    FilterMultiplicity(movies, (m: Movie) => Matches(m, search, genre));
  }

  /** The sort key of the ordered column. */
  function KeyOf(field: SortField): Movie -> Key {
    (m: Movie) => ColumnKey(field, m)
  }

  /** The matching movies in the chosen order. */
  function Ordered(movies: seq<Movie>, search: Option<string>, genre: Option<string>, sortBy: Option<string>): (r: seq<Movie>)
    ensures multiset(r) == multiset(Matching(movies, search, genre))
    ensures |r| == |Matching(movies, search, genre)|
    ensures SortedBy(r, KeyOf(OrderFor(sortBy).field), OrderFor(sortBy).dir)
  {
    var o := OrderFor(sortBy);
    SortBy(Matching(movies, search, genre), KeyOf(o.field), o.dir)
  }

  /** Rows `skip .. skip + take` of `s`, or fewer at the end (`skip`/`take`). */
  function Window<T>(s: seq<T>, skip: nat, take: nat): (r: seq<T>)
    ensures |r| <= take
    ensures skip >= |s| ==> r == []
    ensures skip < |s| ==> r == s[skip..if skip + take <= |s| then skip + take else |s|]
  {
    if skip >= |s| then []
    else if skip + take <= |s| then s[skip..skip + take]
    else s[skip..]
  }

  /** `Math.ceil(total / limit)` for a positive limit. */
  function CeilDiv(total: nat, limit: nat): (pages: nat)
    requires limit > 0
    ensures pages * limit >= total
    ensures pages == 0 || (pages - 1) * limit < total
  {
    var pages := (total + limit - 1) / limit;
    DivBounds(total + limit - 1, limit);
    pages
  }

  lemma DivBounds(n: nat, d: nat)
    requires d > 0
    ensures (n / d) * d <= n < (n / d) * d + d
  {
  }

  /** `(page - 1) * limit`, negative exactly for page 0 with a positive limit. */
  function Skip(page: nat, limit: nat): (skip: int)
    ensures skip < 0 <==> page == 0 && limit > 0
    ensures page >= 1 ==> skip == (page - 1) * limit
  {
    if page == 0 then -(limit as int)
    else
      var pages: nat := page - 1;
      assert pages * limit >= 0;
      pages * limit
  }

  datatype Pagination = Pagination(page: nat, limit: nat, total: nat, totalPages: Option<nat>)

  datatype MoviePage = MoviePage(data: seq<Movie>, pagination: Pagination)

  /** GET /movies. `skip = (page - 1) * limit`; the store rejects a negative
      skip (page 0), which becomes a 500. With limit 0, `total / limit` is not
      a finite number and `totalPages` is sent as `null` (`None`). */
  function GetMovies(movies: seq<Movie>, q: MovieQuery): (r: Response<MoviePage>)
    ensures var page := q.page.GetOr(DEFAULT_PAGE);
            var limit := q.limit.GetOr(DEFAULT_LIMIT);
      && (r.Fail? <==> page == 0 && limit > 0)
      && (r.Fail? ==> r.status == STATUS_SERVER_ERROR)
      && (r.Ok? ==>
            r.status == STATUS_OK && r.body.pagination.page == page && r.body.pagination.limit == limit)
  {
    var page := q.page.GetOr(DEFAULT_PAGE);
    var limit := q.limit.GetOr(DEFAULT_LIMIT);
    var skip := Skip(page, limit);
    if skip < 0 then Fail(STATUS_SERVER_ERROR)
    else
      var total := |Matching(movies, q.search, q.genre)|;
      var data := Window(Ordered(movies, q.search, q.genre, q.sortBy), skip, limit);
      var totalPages := if limit == 0 then None else Some(CeilDiv(total, limit));
      Ok(STATUS_OK, MoviePage(data, Pagination(page, limit, total, totalPages)))
  }

  /** Every movie on a page matches the filters and is in the table, and a
      page holds at most `limit` movies. */
  lemma PageMatchesFilters(movies: seq<Movie>, q: MovieQuery)
    requires GetMovies(movies, q).Ok?
    ensures var p := GetMovies(movies, q).body;
      && |p.data| <= p.pagination.limit
      && forall k :: 0 <= k < |p.data| ==>
           p.data[k] in movies && Matches(p.data[k], q.search, q.genre)
  {
    var p := GetMovies(movies, q).body;
    var ordered := Ordered(movies, q.search, q.genre, q.sortBy);
    forall k | 0 <= k < |p.data|
      ensures p.data[k] in movies && Matches(p.data[k], q.search, q.genre)
    {
      assert p.data[k] in ordered;
      assert p.data[k] in multiset(ordered);
      assert p.data[k] in Matching(movies, q.search, q.genre);
    }
  }

  /** A page is the window `[skip, skip + limit)` of the ordered matches. */
  lemma PageIsWindow(movies: seq<Movie>, q: MovieQuery)
    requires GetMovies(movies, q).Ok?
    ensures var page := q.page.GetOr(DEFAULT_PAGE);
            var limit := q.limit.GetOr(DEFAULT_LIMIT);
            var skip := Skip(page, limit);
            var ordered := Ordered(movies, q.search, q.genre, q.sortBy);
            var data := GetMovies(movies, q).body.data;
      && skip >= 0
      && (skip >= |ordered| ==> data == [])
      && (skip < |ordered| ==> |data| == (if skip + limit <= |ordered| then limit else |ordered| - skip))
      && forall k :: 0 <= k < |data| ==> data[k] == ordered[skip + k]
  {
  }

  /** `total` counts every matching movie, not only those on the page, and
      `totalPages` is the least number of pages of `limit` that hold them. */
  lemma TotalCountsAllMatches(movies: seq<Movie>, q: MovieQuery)
    requires GetMovies(movies, q).Ok?
    ensures var p := GetMovies(movies, q).body.pagination;
      && p.total == |Matching(movies, q.search, q.genre)|
      && (p.limit > 0 ==> p.totalPages == Some(CeilDiv(p.total, p.limit)))
      && (p.limit == 0 ==> p.totalPages.None?)
  {
    var page := q.page.GetOr(DEFAULT_PAGE);
    var limit := q.limit.GetOr(DEFAULT_LIMIT);
    var total := |Matching(movies, q.search, q.genre)|;
    var pages := if limit == 0 then None else Some(CeilDiv(total, limit));
    assert GetMovies(movies, q).body.pagination == Pagination(page, limit, total, pages);
  }

  /** The page is in the order `sortBy` selects. */
  lemma PageIsSorted(movies: seq<Movie>, q: MovieQuery)
    requires GetMovies(movies, q).Ok?
    ensures var o := OrderFor(q.sortBy);
            var data := GetMovies(movies, q).body.data;
      forall i, j :: 0 <= i < j < |data| ==>
        InOrder(ColumnKey(o.field, data[i]), ColumnKey(o.field, data[j]), o.dir)
  {
    var o := OrderFor(q.sortBy);
    var ordered := Ordered(movies, q.search, q.genre, q.sortBy);
    var skip := Skip(q.page.GetOr(DEFAULT_PAGE), q.limit.GetOr(DEFAULT_LIMIT));
    var data := GetMovies(movies, q).body.data;
    PageIsWindow(movies, q);
    forall i, j | 0 <= i < j < |data|
      ensures InOrder(ColumnKey(o.field, data[i]), ColumnKey(o.field, data[j]), o.dir)
    {
      assert InOrder(KeyOf(o.field)(ordered[skip + i]), KeyOf(o.field)(ordered[skip + j]), o.dir);
    }
  }

  /** Sorting `a-z` gives titles in non-decreasing lexicographic order. */
  lemma AlphabeticalPageIsByTitle(movies: seq<Movie>, q: MovieQuery)
    requires q.sortBy == Some("a-z")
    requires GetMovies(movies, q).Ok?
    ensures var data := GetMovies(movies, q).body.data;
      forall i, j :: 0 <= i < j < |data| ==> LexLeq(data[i].title, data[j].title)
  {
    PageIsSorted(movies, q);
  }

  /** Row `off` of page `page` is row `(page - 1) * limit + off` of the
      ordered matches. */
  lemma RowOfPage(movies: seq<Movie>, q: MovieQuery, page: nat, off: nat)
    requires q.limit.GetOr(DEFAULT_LIMIT) > 0 && page >= 1 && off < q.limit.GetOr(DEFAULT_LIMIT)
    requires Skip(page, q.limit.GetOr(DEFAULT_LIMIT)) + off < |Ordered(movies, q.search, q.genre, q.sortBy)|
    ensures var r := GetMovies(movies, q.(page := Some(page)));
      && r.Ok? && off < |r.body.data|
      && r.body.data[off] == Ordered(movies, q.search, q.genre, q.sortBy)[Skip(page, q.limit.GetOr(DEFAULT_LIMIT)) + off]
  {
    var q' := q.(page := Some(page));
    assert q'.limit.GetOr(DEFAULT_LIMIT) == q.limit.GetOr(DEFAULT_LIMIT) && q'.page.GetOr(DEFAULT_PAGE) == page;
    PageIsWindow(movies, q');
  }

  /** The page (from 1) and the row on it where row `k` of the ordered
      matches is sent, for pages of `limit` rows. */
  function PageOf(k: nat, limit: nat): (r: (nat, nat))
    requires limit > 0
    ensures r.0 >= 1 && r.1 < limit && Skip(r.0, limit) + r.1 == k
    decreases k
  {
    if k < limit then (1, k)
    else
      var (page, off) := PageOf(k - limit, limit);
      (page + 1, off)
  }

  /** `PageOf` is `k / limit + 1` and `k % limit`. */
  lemma PageOfIsDivision(k: nat, limit: nat)
    requires limit > 0
    ensures PageOf(k, limit) == (k / limit + 1, k % limit)
  {
    var (page, off) := PageOf(k, limit);
    DivBounds(k, limit);
    var pages: nat := page - 1;
    assert pages * limit + off == k;
    DivisionUnique(k, limit, pages, off);
  }

  lemma DivisionUnique(k: nat, d: nat, q: nat, m: nat)
    requires d > 0 && m < d && q * d + m == k
    ensures q == k / d && m == k % d
  {
    DivBounds(k, d);
    var q0 := k / d;
    if q < q0 {
      MulMonotone(q + 1, q0, d);
    } else if q > q0 {
      MulMonotone(q0 + 1, q, d);
    }
  }

  lemma MulMonotone(a: nat, b: nat, d: nat)
    requires a <= b
    ensures a * d <= b * d
  {
  }

  /** Every matching movie appears on some page: row `k` of the ordered
      matches is row `off` of page `page`, where `(page, off) = PageOf(k, limit)`. */
  lemma EveryMatchIsOnItsPage(movies: seq<Movie>, q: MovieQuery, k: nat)
    requires q.limit.GetOr(DEFAULT_LIMIT) > 0
    requires k < |Ordered(movies, q.search, q.genre, q.sortBy)|
    ensures var (page, off) := PageOf(k, q.limit.GetOr(DEFAULT_LIMIT));
            var r := GetMovies(movies, q.(page := Some(page)));
      && r.Ok?
      && off < |r.body.data|
      && r.body.data[off] == Ordered(movies, q.search, q.genre, q.sortBy)[k]
  {
    var (page, off) := PageOf(k, q.limit.GetOr(DEFAULT_LIMIT));
    RowOfPage(movies, q, page, off);
  }
}

# Movie catalog backend: controllers and auth guards in Dafny

This project models the request handlers of a movie-streaming backend built on
Express and Prisma:

- the movie controller: a catalog query with filters, sorting and pagination,
  single lookup, adding a title from an external movie provider, partial update,
  delete, bulk sync of the provider's popular list, and the argument checks of the
  provider search and category listing;
- the watch-history controller: an upsert per (user, movie) pair, and the
  user's history, most recent first, joined with movies;
- the admin user controller: list, create, update and delete accounts;
- the authentication middleware: a bearer token is verified and its account is
  loaded from the table, and the admin guard checks that loaded account.

The database is `Store.Database`, a class with the movie, user and watch-history
tables (`seq`s in id order) and their autoincrement counters. Its `Valid()`
predicate holds the constraints the database enforces:

- increasing ids below the counter;
- unique `tmdbId`;
- unique `email`;
- unique `(userId, movieId)`;
- foreign keys from history rows to users and movies.

Handlers that write are methods that modify the database. Each one keeps
`Valid()` and states its new tables as a pure function of the old ones. Handlers
that only read are functions.

Some parts are parameters of the model:

- the movie provider (`getMovieById`, search and category listing). The sync
  handler calls a `getPopularMovies` that the provider service does not export
  (see "## Findings"); the corrected sync takes the listing such a function
  would return;
- the password hash;
- the token signature check;
- the clock (`now`).

## Model

| member | source | states |
|---|---|---|
| Catalog.OrderFor | backend/src/controllers/movieController.js:18-27 | `popular` sorts by vote average descending, `oldest` by creation time ascending, `a-z` by title ascending, `release_date` by release date descending; any other value, `latest` included, sorts by creation time descending |
| Catalog.FilterHolds | backend/src/controllers/movieController.js:10-16 | an absent or empty filter always holds; a column holds itself and never a longer filter |
| Catalog.Matches | backend/src/controllers/movieController.js:10-16 | without filters every movie matches; a movie matches its own title and genres; a match's filters are no longer than its columns |
| Catalog.Matching | backend/src/controllers/movieController.js:10-16 | a row is kept exactly when it is in the table, its title contains a non-empty `search`, and its genres contain a non-empty `genre`; an empty or absent filter is not applied |
| Catalog.MatchingKeepsEveryMatch | backend/src/controllers/movieController.js:31-38 | each matching row is kept as often as the table holds it and no other row, so `count` and `findMany` see the same rows |
| Catalog.Ordered | backend/src/controllers/movieController.js:31-36 | the ordered result is a permutation of the matching rows |
| Catalog.Window | backend/src/controllers/movieController.js:33-34 | `skip`/`take`: rows `skip..skip+take` of the input, cut at its end, and empty when `skip` is past the end |
| Catalog.Skip | backend/src/controllers/movieController.js:29 | `(page - 1) * limit`, which is negative exactly when page is 0 and limit is positive |
| Catalog.CeilDiv | backend/src/controllers/movieController.js:46 | `Math.ceil(total / limit)`: the least page count whose pages of `limit` rows hold `total` rows |
| Catalog.GetMovies | backend/src/controllers/movieController.js:6-53 | 500 exactly when the skip is negative (page 0 with a positive limit); otherwise 200 with the requested page and limit echoed, defaulting to page 1 and limit 20 |
| Catalog.PageMatchesFilters | backend/src/controllers/movieController.js:10-36 | every movie on a page is in the table and matches both filters, and a page holds at most `limit` movies |
| Catalog.PageIsWindow | backend/src/controllers/movieController.js:29-36 | the page is the window `[skip, skip + limit)` of the ordered matches, with its exact length |
| Catalog.TotalCountsAllMatches | backend/src/controllers/movieController.js:38-47 | `total` is the number of all matching rows, not just the page; `totalPages` is their ceiling page count; with limit 0 it is `null` |
| Catalog.PageIsSorted | backend/src/controllers/movieController.js:18-36 | consecutive and non-consecutive rows of a page are in the order `sortBy` selects |
| Catalog.AlphabeticalPageIsByTitle | backend/src/controllers/movieController.js:23-24 | with `sortBy=a-z` titles are in non-decreasing lexicographic order |
| Catalog.RowOfPage | backend/src/controllers/movieController.js:29-36 | for any positive limit, the default 20 included, row `off` of page `page` is row `(page - 1) * limit + off` of the ordered matches |
| Catalog.PageOf | backend/src/controllers/movieController.js:29 | for every row index there is a page from 1 and an offset below `limit` whose skip plus offset is that index |
| Catalog.PageOfIsDivision | backend/src/controllers/movieController.js:29 | that page is `k / limit + 1` and that offset is `k % limit` |
| Catalog.EveryMatchIsOnItsPage | backend/src/controllers/movieController.js:29-47 | for any positive limit, the default 20 included, every matching movie is sent on exactly the page and offset computed by `PageOf`, so paging through the results misses none |
| MovieController.GetMovie | backend/src/controllers/movieController.js:56-68 | 404 exactly when no row has the id; otherwise 200 with the row that has it |
| MovieController.GenresRoundTrip | backend/src/controllers/movieController.js:89 | the comma-joined genre column splits back into the provider's genre names when they contain no comma |
| MovieController.GenresColumn | backend/src/controllers/movieController.js:89 | no genre list or an empty one gives `""`; one genre gives its name; with non-empty names the column is empty exactly when the list is |
| MovieController.DateOrNull | backend/src/controllers/movieController.js:104-105 | a truthy availability bound becomes that date, anything else `null` |
| MovieController.MovieFromProvider | backend/src/controllers/movieController.js:89-107 | the new row takes the provider's id, title, images, release date and vote average; the overview defaults to `""`; genres are the provider's genre names joined with commas, `""` when it gives none; not featured; no video; each availability bound is its date when truthy and `null` otherwise |
| MovieController.AppendKeepsMovieTable | backend/src/controllers/movieController.js:92-107 | inserting a row with the next id and an unused `tmdbId` keeps the table's uniqueness and id constraints |
| MovieController.AddMovieFromTmdb | backend/src/controllers/movieController.js:72-114 | 400 without asking the provider when the `tmdbId` is stored; 404 when the provider has no such title; 500 when the provider's own id is already stored; otherwise the mapped row is appended with the next id and returned with 201; other tables unchanged |
| MovieController.AvailabilityAfter | backend/src/controllers/movieController.js:130-131 | an omitted bound is untouched, a falsy one is cleared, a truthy one is set |
| MovieController.PatchMovie | backend/src/controllers/movieController.js:120-133 | each supplied field is replaced and every other column, the id, `tmdbId` and creation time included, is kept |
| MovieController.PatchMovieLaws | backend/src/controllers/movieController.js:122-133 | an empty body changes nothing, and applying the same body twice equals applying it once |
| MovieController.UpdateMovie | backend/src/controllers/movieController.js:117-139 | 500 with no change for an unknown id; otherwise only that row is replaced by its patched version and returned with 200 |
| MovieController.WithoutMovie | backend/src/controllers/movieController.js:145 | the remaining rows are exactly the rows whose id differs |
| MovieController.WithoutMovieHistory | backend/src/controllers/movieController.js:145 | the cascade: a history row remains exactly when it was stored and points at another movie |
| MovieController.DeleteMovieKeepsTables | backend/src/controllers/movieController.js:142-150 | removing the movie and its history rows keeps every constraint, the foreign keys included |
| MovieController.DeleteMovie | backend/src/controllers/movieController.js:142-150 | 500 with no change for an unknown id; otherwise the row and, by cascade, its history rows are removed; users untouched |
| MovieController.MovieFromListing | backend/src/controllers/movieController.js:168-179 | a synced row carries the listing's id, title, overview, images, release date and vote average, an empty genre column, and is not featured and has no video or availability |
| MovieController.SyncStep | backend/src/controllers/movieController.js:162-181 | one iteration adds at most one row; the count and the id counter grow by the rows added |
| MovieController.SyncStepLaws | backend/src/controllers/movieController.js:162-181 | after a step the entry's `tmdbId` is stored and the old rows are a prefix; an entry already stored changes nothing |
| MovieController.SyncAll | backend/src/controllers/movieController.js:161-182 | the fold over the listing has at least as many rows as before and at most one more per entry |
| MovieController.SyncAppendsOnly | backend/src/controllers/movieController.js:161-182 | the sync keeps the existing rows as a prefix; the reported count equals the number of appended rows and the id counter advances by it |
| MovieController.SyncKeepsMovieTable | backend/src/controllers/movieController.js:162-179 | the sync keeps `tmdbId` unique and ids increasing, even when the listing repeats an id |
| MovieController.SyncCoversListing | backend/src/controllers/movieController.js:162-182 | after the sync every listed `tmdbId` is in the table |
| MovieController.SyncAddsOnlyAbsent | backend/src/controllers/movieController.js:163-179 | every appended row comes from a listing entry whose `tmdbId` was not stored before, and has empty genres |
| MovieController.SyncKeepsReferences | backend/src/controllers/movieController.js:161-182 | the sync keeps the movie table's constraints and every history row's movie |
| MovieController.InsertAbsent | backend/src/controllers/movieController.js:161-181 | the loop updating the table in place ends with the table, counter and count of the fold over the listing |
| MovieController.SyncPopularMovies | backend/src/controllers/movieController.js:154-188 | the corrected handler: 500 with no change when no listing comes back; otherwise the table, counter and count are those of the sync fold over the listing, returned with 200 |
| MovieController.PopularListing | backend/src/controllers/movieController.js:156-159 | the call yields the listing exactly when the service exports `getPopularMovies` |
| MovieController.SyncPopularMoviesAsWritten | backend/src/controllers/movieController.js:154-188 | as shipped: every request answers 500 and leaves the tables unchanged, whatever the provider lists |
| MovieController.ShippedSyncInsertsNothing | backend/src/controllers/movieController.js:156 | for an empty table and a one-entry listing the shipped call yields nothing, while the sync the handler intends inserts the entry and reports 1 |
| MovieController.SearchTmdb | backend/src/controllers/movieController.js:190-202 | 400 exactly when the query is absent or empty; otherwise the provider's result with 200 |
| MovieController.GetTmdbMovies | backend/src/controllers/movieController.js:204-215 | the category defaults to `popular` and the page to 1; 400 exactly when the category is not one of the four known ones; otherwise the provider's listing with 200 |
| HistoryController.Upsert | backend/src/controllers/historyController.js:39-53 | if the pair has a row, only its `watchedAt` is refreshed and nothing is added; otherwise a row with the next id is appended; every other row is unchanged |
| HistoryController.UpsertKeepsTable | backend/src/controllers/historyController.js:39-53 | after an upsert the pair has exactly one row, and the table keeps its constraints |
| HistoryController.UpsertTwice | backend/src/controllers/historyController.js:39-53 | a second upsert of the same pair adds no row and keeps the row's id; only the timestamp moves |
| HistoryController.AddToHistory | backend/src/controllers/historyController.js:23-60 | 201 with the upserted row; when the pair is new and its user or movie is missing the foreign key fails, giving 500 with no change |
| HistoryController.RowsOf | backend/src/controllers/historyController.js:8 | exactly the rows of that user |
| HistoryController.RowsOfKeepsEveryRow | backend/src/controllers/historyController.js:7-8 | each of the user's rows is kept as often as the table holds it, and no other row |
| HistoryController.WithMovies | backend/src/controllers/historyController.js:9-11 | each entry is paired with the stored movie it references |
| HistoryController.NewestFirst | backend/src/controllers/historyController.js:7-13 | a permutation of the user's rows, all from the table, with `watchedAt` non-increasing |
| HistoryController.GetHistory | backend/src/controllers/historyController.js:4-19 | a permutation of the user's rows, newest `watchedAt` first, each with its own movie |
| HistoryController.HistoryEmptyIffNoRows | backend/src/controllers/historyController.js:7-14 | the list is empty exactly when the user has no rows |
| UserController.GetAllUsers | backend/src/controllers/userController.js:5-20 | one entry per account with id, name, email, role and creation time, and never the password |
| UserController.ListingIgnoresPasswords | backend/src/controllers/userController.js:8-14 | tables differing only in password hashes list identically |
| UserController.RoleOrDefault | backend/src/controllers/userController.js:40 | a truthy role is kept; otherwise `USER` |
| UserController.CreateUser | backend/src/controllers/userController.js:23-54 | no email gives 500; a stored email gives 400; no password gives 500 (the hash throws); otherwise the account is appended with the next id, the password's hash and the defaulted role, and returned without the hash with 201 |
| UserController.DataToUpdate | backend/src/controllers/userController.js:62-66 | name, email and role as given; a password hash only for a truthy password |
| UserController.ApplyUserData | backend/src/controllers/userController.js:68-77 | supplied fields replace the stored ones; id and creation time are kept |
| UserController.UpdatePasswordRule | backend/src/controllers/userController.js:62-70 | an update without a truthy password keeps the stored hash; one with a password stores its hash |
| UserController.ReplaceUserKeepsTables | backend/src/controllers/userController.js:68-77 | replacing a row by one with the same id and an email no other row has keeps the uniqueness, id and foreign-key constraints |
| UserController.EmailTakenByOther | backend/src/controllers/userController.js:68-77 | a taken email is found by the email lookup; an email not taken by another row is found, if at all, at the updated row |
| UserController.UpdateUser | backend/src/controllers/userController.js:57-83 | 500 with no change for an unknown id or an email held by another account; otherwise only that row is updated and returned without the hash with 200 |
| UserController.WithoutUser | backend/src/controllers/userController.js:89 | the remaining rows are exactly the rows whose id differs |
| UserController.WithoutUserHistory | backend/src/controllers/userController.js:89 | the cascade: a history row remains exactly when it was stored and belongs to another user |
| UserController.DeleteUserKeepsTables | backend/src/controllers/userController.js:86-94 | removing the account and its history rows keeps every constraint, the foreign keys included |
| UserController.DeletedUserIsGone | backend/src/controllers/userController.js:89 | after the delete the id is not found and no history row references it |
| UserController.DeleteUser | backend/src/controllers/userController.js:86-94 | 500 with no change for an unknown id; otherwise the account and, by cascade, its history are removed; movies untouched |
| AuthMiddleware.BearerToken | backend/src/middlewares/authMiddleware.js:5-6 | a found token is the header's second space-separated word, non-empty and space-free |
| AuthMiddleware.BearerTokenOfScheme | backend/src/middlewares/authMiddleware.js:5-6 | `Bearer <token>` yields the token |
| AuthMiddleware.BearerTokenOfLongerHeader | backend/src/middlewares/authMiddleware.js:6 | with more words after the token, the non-empty second word is still the token |
| AuthMiddleware.BearerTokenShape | backend/src/middlewares/authMiddleware.js:6 | a header yielding a token is a scheme word, a space and the token, optionally followed by a space and more words |
| AuthMiddleware.NoTokenWithoutSecondWord | backend/src/middlewares/authMiddleware.js:6-10 | a header with no space, or nothing after its only space, yields no token |
| AuthMiddleware.Verified | backend/src/middlewares/authMiddleware.js:13 | a token passes exactly when its signature checks out and it has no expiry or `now` is before it |
| AuthMiddleware.Authenticate | backend/src/middlewares/authMiddleware.js:4-24 | no token gives 401; a bad or expired token, or one without an id, gives 403; a verified token whose account is not stored gives 401; the request passes exactly when the token verifies, carries an id and that account is stored, and it then carries the stored account |
| AuthMiddleware.AuthenticateToken | backend/src/middlewares/authMiddleware.js:4-24 | the early-return middleware answers as `Authenticate` does, sets `req.user` to the stored account when it passes, and on 403 leaves `req.user` alone |
| AuthMiddleware.AuthorizeAdmin | backend/src/middlewares/authMiddleware.js:26-32 | passes exactly a loaded account whose role is `ADMIN`; otherwise 403 |
| AuthMiddleware.AdminGate | backend/src/routes/movieRoutes.js:16-18 | `authenticateToken` then `authorizeAdmin`: the first guard's refusal is passed on, every refusal is 401 or 403, and a passing request is authenticated |
| AuthMiddleware.AdminGateIffStoredAdmin | backend/src/middlewares/authMiddleware.js:26-32 | an admin route passes exactly when the token authenticates and the stored account is an admin; an authenticated `USER` gets 403 |
| AuthMiddleware.RoleClaimIsIgnored | backend/src/middlewares/authMiddleware.js:13-14 | signature checks differing only in the token's role claim decide every request alike |
| AuthMiddleware.DemotedAdminIsForbidden | backend/src/middlewares/authMiddleware.js:26-32 | once an account's stored role is updated to `USER`, its old admin token gets 403 on an admin route |
| Text.Split | backend/src/middlewares/authMiddleware.js:6 | `split` yields at least one piece and no piece contains the separator |
| Text.JoinSplit | backend/src/middlewares/authMiddleware.js:6 | joining the pieces of a split with the separator gives back the string |
| Text.SplitJoin | backend/src/controllers/movieController.js:89 | splitting a join of separator-free pieces gives back the pieces |
| Ordering.SortBy | backend/src/controllers/movieController.js:35 | the result is sorted by the key in the given direction and is a permutation of the input |
| Seqs.FilterMultiplicity | backend/src/controllers/historyController.js:8 | a `where` filter keeps every satisfying row as often as it occurs, and no other row |
| Schema.FindMovieByTmdbId | backend/src/controllers/movieController.js:77 | returns a row with that `tmdbId`, or nothing exactly when no row has it |
| Schema.FindUserByEmail | backend/src/controllers/userController.js:28 | returns a row with that email, or nothing exactly when no row has it |
| Schema.FindEntry | backend/src/controllers/historyController.js:40-45 | returns the row of the pair, or nothing exactly when no row has it |

Facts about the code that the model keeps:

- An update or delete of a missing movie or user answers 500, because the
  store throws.
- An invalid or expired token answers 403.
- The admin guard reads the role of the account loaded from the table; the
  role in the token plays no part.
- The sort keys are `a-z` and `release_date`.

## Findings

| source | as written | input that shows it | evidently intended | confidence | as-written member | corrected member |
|---|---|---|---|---|---|---|
| backend/src/controllers/movieController.js:156 | calls `tmdbService.getPopularMovies()`, which `backend/src/services/tmdbService.js:71-78` does not export, so the call throws and the `catch` answers 500 | any POST /movies/sync-tmdb, e.g. an empty table and a provider listing one title | insert each listed title whose `tmdbId` is absent and report the count | high (not executed) | MovieController.SyncPopularMoviesAsWritten, MovieController.ShippedSyncInsertsNothing | MovieController.SyncPopularMovies, with MovieController.SyncAll and its lemmas |

## Left out

- Floating-point vote averages: `voteAverage` is an integer with the same order.
- Dates: they are timestamps as naturals. Release dates are strings compared lexicographically, and a missing release date is not modelled.
- Database collation: substring match and title order are case-sensitive, code-point lexicographic.
- Catalog.Ordered: rows with equal sort keys come out in a fixed order, where the database leaves tie order unspecified.
- HistoryController.NewestFirst: rows with equal `watchedAt` come out in a fixed order, where the database leaves tie order unspecified.
- UserController.GetAllUsers: lists in id order, where the database leaves the order unspecified without `orderBy`.
- Parsing of ids, `page` and `limit` from strings (`parseInt`, and `NaN` from bad input): they arrive as naturals.
- Concurrency: the check-then-insert races in adding, syncing and creating are not modelled. Handlers run one at a time, with uniqueness as a table invariant.
- Hashing: the password hash, bcrypt with its salt, is a function parameter. Salt randomness is folded into it.
- Tokens: the signature check is a function parameter; issuing tokens is not modelled.
- The external provider's HTTP calls and its failures are not modelled; its answers are parameters.
- Provider credits and media pass-throughs are not modelled, as they only forward provider data.
- Register and login are not modelled: the authentication controller is not part of this model.
- `null` for a required field in an update body, and role strings outside `USER`/`ADMIN`, are not modelled; the store would reject them with 500.
- MovieController.SyncPopularMovies: every row synced in one call gets the same creation time `now`.
- The database schema file is not part of this model. Assumed: `isFeatured` defaults to false, `createdAt` to the insert time, and deleting a movie or user cascades to its watch-history rows. Without the cascade, deleting a movie or user that still has history rows would fail on the foreign key and answer 500, where `MovieController.DeleteMovie` and `UserController.DeleteUser` answer 200.
- Unexpected store or provider exceptions, and the catch-all 500 of every handler, are not modelled. This includes the doubled 500 response in the category listing's error path.
- Response messages are not modelled; only statuses and bodies are.

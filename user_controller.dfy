/** The admin's user-management handlers: list, create, update and delete
    accounts. Passwords are stored as hashes; the hash function (a salted
    one-way function in the system) is a parameter. */
module UserController {
  import opened Common
  import opened Seqs
  import opened Schema
  import opened Store

  /** The columns `createUser` and `updateUser` return. */
  datatype UserView = UserView(id: nat, name: string, email: string, role: Role)

  /** The columns `getAllUsers` returns. */
  datatype ListedUser = ListedUser(id: nat, name: string, email: string, role: Role, createdAt: nat)

  function ViewOf(u: User): UserView {
    UserView(u.id, u.name, u.email, u.role)
  }

  function ListedOf(u: User): ListedUser {
    ListedUser(u.id, u.name, u.email, u.role, u.createdAt)
  }

  // ---------------------------------------------------------------------------
  // GET /users

  /** Every account in table order, without its password hash. */
  function GetAllUsers(users: seq<User>): (r: seq<ListedUser>)
    ensures |r| == |users|
    ensures forall k :: 0 <= k < |r| ==>
              && r[k].id == users[k].id && r[k].name == users[k].name && r[k].email == users[k].email
              && r[k].role == users[k].role && r[k].createdAt == users[k].createdAt
  {
    seq(|users|, k requires 0 <= k < |users| => ListedOf(users[k]))
  }

  /** Two tables that differ only in password hashes list the same: the
      listing reveals nothing about the stored hashes. */
  lemma ListingIgnoresPasswords(users: seq<User>, users': seq<User>)
    requires |users| == |users'|
    requires forall k :: 0 <= k < |users| ==> users'[k] == users[k].(password := users'[k].password)
    ensures GetAllUsers(users) == GetAllUsers(users')
  {
  }

  // ---------------------------------------------------------------------------
  // POST /users

  /** `role || 'USER'`: a missing or falsy role gives `USER`. */
  function RoleOrDefault(role: BodyValue<Role>): (r: Role)
    ensures role.Truthy? ==> r == role.value
    ensures !role.Truthy? ==> r == USER
  {
    if role.Truthy? then role.value else USER
  }

  /** POST /users. A request without an email makes the unique lookup throw,
      and one without a password makes the hash throw; both are 500. An email
      already in the table is 400. */
  method CreateUser(
    db: Database, name: string, email: Option<string>, password: Option<string>, role: BodyValue<Role>,
    hash: string -> string, now: nat)
    returns (r: Response<UserView>)
    requires db.Valid()
    modifies db
    ensures db.Valid()
    ensures db.movies == old(db.movies) && db.history == old(db.history)
    ensures db.nextMovieId == old(db.nextMovieId) && db.nextHistoryId == old(db.nextHistoryId)
    ensures email.None? ==>
              r == Fail(STATUS_SERVER_ERROR) && db.users == old(db.users) && db.nextUserId == old(db.nextUserId)
    ensures email.Some? && FindUserByEmail(old(db.users), email.value).Some? ==>
              r == Fail(STATUS_BAD_REQUEST) && db.users == old(db.users) && db.nextUserId == old(db.nextUserId)
    ensures email.Some? && FindUserByEmail(old(db.users), email.value).None? && password.None? ==>
              r == Fail(STATUS_SERVER_ERROR) && db.users == old(db.users) && db.nextUserId == old(db.nextUserId)
    ensures email.Some? && FindUserByEmail(old(db.users), email.value).None? && password.Some? ==>
              var u := User(old(db.nextUserId), name, email.value, hash(password.value), RoleOrDefault(role), now);
              && r == Ok(STATUS_CREATED, ViewOf(u))
              && db.users == old(db.users) + [u] && db.nextUserId == old(db.nextUserId) + 1
  {
    if email.None? {
      return Fail(STATUS_SERVER_ERROR);
    }
    if FindUserByEmail(db.users, email.value).Some? {
      return Fail(STATUS_BAD_REQUEST);
    }
    if password.None? {
      return Fail(STATUS_SERVER_ERROR);
    }
    var u := User(db.nextUserId, name, email.value, hash(password.value), RoleOrDefault(role), now);
    PairwiseAppend(db.users, u, UserRowsOrdered);
    ghost var before := db.users;
    db.users, db.nextUserId := db.users + [u], db.nextUserId + 1;
    forall k | 0 <= k < |db.history| ensures HasUser(db.users, db.history[k].userId) {
      var j :| 0 <= j < |before| && before[j].id == db.history[k].userId;
      assert db.users[j] == before[j];
    }
    r := Ok(STATUS_CREATED, ViewOf(u));
  }

  // ---------------------------------------------------------------------------
  // PUT /users/:id

  /** The update sent to the store; `None` is a field left `undefined`,
      which the store leaves alone. */
  datatype UserData = UserData(name: Option<string>, email: Option<string>, role: Option<Role>, password: Option<string>)

  /** `dataToUpdate`: name, email and role as given, plus the hash of the
      password only when a truthy password is given. */
  function DataToUpdate(name: Option<string>, email: Option<string>, role: Option<Role>, password: BodyValue<string>, hash: string -> string): (d: UserData)
    ensures d.name == name && d.email == email && d.role == role
    ensures d.password.Some? <==> password.Truthy?
    ensures password.Truthy? ==> d.password == Some(hash(password.value))
  {
    var d := UserData(name, email, role, None);
    if password.Truthy? then d.(password := Some(hash(password.value))) else d
  }

  /** The row after the store applies `d`. */
  function ApplyUserData(u: User, d: UserData): (u': User)
    ensures u'.id == u.id && u'.createdAt == u.createdAt
    ensures u'.name == (if d.name.Some? then d.name.value else u.name)
    ensures u'.email == (if d.email.Some? then d.email.value else u.email)
    ensures u'.role == (if d.role.Some? then d.role.value else u.role)
    ensures u'.password == (if d.password.Some? then d.password.value else u.password)
  {
    u.(name := Assign(u.name, d.name), email := Assign(u.email, d.email),
       role := Assign(u.role, d.role), password := Assign(u.password, d.password))
  }

  /** An update without a truthy password keeps the stored hash, so the
      account's old credentials still work; one with a password stores its
      hash. */
  lemma UpdatePasswordRule(u: User, name: Option<string>, email: Option<string>, role: Option<Role>, password: BodyValue<string>, hash: string -> string)
    ensures !password.Truthy? ==> ApplyUserData(u, DataToUpdate(name, email, role, password, hash)).password == u.password
    ensures password.Truthy? ==> ApplyUserData(u, DataToUpdate(name, email, role, password, hash)).password == hash(password.value)
  {
  }

  /** Some other row than `k` already has `email`: the update would break the
      unique constraint. */
  predicate EmailTakenByOther(users: seq<User>, k: nat, email: string): (taken: bool)
    ensures taken ==> FindUserByEmail(users, email).Some?
    ensures !taken && FindUserByEmail(users, email).Some? ==> FindUserByEmail(users, email).value == k
  {
    exists j :: 0 <= j < |users| && j != k && users[j].email == email
  }

  /** Replacing a row by one with the same id and an email no other row
      has keeps the user table's constraints and the foreign keys. */
  lemma ReplaceUserKeepsTables(users: seq<User>, history: seq<WatchEntry>, movies: seq<Movie>, nextId: nat, k: nat, u: User)
    requires k < |users| && UserTable(users, nextId) && ReferencesValid(history, users, movies)
    requires u.id == users[k].id && !EmailTakenByOther(users, k, u.email)
    ensures UserTable(users[k := u], nextId) && ReferencesValid(history, users[k := u], movies)
  {
    forall i | 0 <= i < k ensures UserRowsOrdered(users[i], u) {
      assert UserRowsOrdered(users[i], users[k]);
    }
    forall j | k < j < |users| ensures UserRowsOrdered(u, users[j]) {
      assert UserRowsOrdered(users[k], users[j]);
    }
    PairwiseReplace(users, k, u, UserRowsOrdered);
    forall e | 0 <= e < |history| ensures HasUser(users[k := u], history[e].userId) {
      var j :| 0 <= j < |users| && users[j].id == history[e].userId;
      assert users[k := u][j].id == users[j].id;
    }
  }

  /** PUT /users/:id. An unknown id, or an email another account already
      has, makes the store throw; both are 500. */
  method UpdateUser(
    db: Database, id: nat, name: Option<string>, email: Option<string>, role: Option<Role>,
    password: BodyValue<string>, hash: string -> string)
    returns (r: Response<UserView>)
    requires db.Valid()
    modifies db
    ensures db.Valid()
    ensures db.movies == old(db.movies) && db.history == old(db.history)
    ensures db.nextMovieId == old(db.nextMovieId) && db.nextUserId == old(db.nextUserId)
    ensures db.nextHistoryId == old(db.nextHistoryId)
    ensures match FindUser(old(db.users), id)
      case None => r == Fail(STATUS_SERVER_ERROR) && db.users == old(db.users)
      case Some(k) =>
        if email.Some? && EmailTakenByOther(old(db.users), k, email.value) then
          r == Fail(STATUS_SERVER_ERROR) && db.users == old(db.users)
        else
          var u := ApplyUserData(old(db.users)[k], DataToUpdate(name, email, role, password, hash));
          r == Ok(STATUS_OK, ViewOf(u)) && db.users == old(db.users)[k := u]
  {
    var data := UserData(name, email, role, None);
    if password.Truthy? {
      data := data.(password := Some(hash(password.value)));
    }
    var found := FindUser(db.users, id);
    if found.None? {
      return Fail(STATUS_SERVER_ERROR);
    }
    var k := found.value;
    if email.Some? && EmailTakenByOther(db.users, k, email.value) {
      return Fail(STATUS_SERVER_ERROR);
    }
    var u := ApplyUserData(db.users[k], data);
    ReplaceUserKeepsTables(db.users, db.history, db.movies, db.nextUserId, k, u);
    db.users := db.users[k := u];
    r := Ok(STATUS_OK, ViewOf(u));
  }

  // ---------------------------------------------------------------------------
  // DELETE /users/:id

  /** The user table without the row `id`. */
  function WithoutUser(users: seq<User>, id: nat): (r: seq<User>)
    ensures forall u :: u in r <==> u in users && u.id != id
  {
    Filter(users, (u: User) => u.id != id)
  }

  /** The history table without the rows of user `id` (the cascade). */
  function WithoutUserHistory(history: seq<WatchEntry>, id: nat): (r: seq<WatchEntry>)
    ensures forall e :: e in r <==> e in history && e.userId != id
  {
    Filter(history, (e: WatchEntry) => e.userId != id)
  }

  /** Removing a user row together with its history rows keeps every table
      constraint, the foreign keys included. */
  lemma DeleteUserKeepsTables(
    users: seq<User>, movies: seq<Movie>, history: seq<WatchEntry>, nextUserId: nat, nextHistoryId: nat, id: nat)
    requires UserTable(users, nextUserId) && HistoryTable(history, nextHistoryId)
    requires ReferencesValid(history, users, movies)
    ensures UserTable(WithoutUser(users, id), nextUserId)
    ensures HistoryTable(WithoutUserHistory(history, id), nextHistoryId)
    ensures ReferencesValid(WithoutUserHistory(history, id), WithoutUser(users, id), movies)
  {
    var users', history' := WithoutUser(users, id), WithoutUserHistory(history, id);
    PairwiseFilter(users, (u: User) => u.id != id, UserRowsOrdered);
    PairwiseFilter(history, (e: WatchEntry) => e.userId != id, HistoryRowsOrdered);
    forall k | 0 <= k < |users'| ensures users'[k].id < nextUserId {
      assert users'[k] in users;
    }
    forall k | 0 <= k < |history'| ensures history'[k].id < nextHistoryId {
      assert history'[k] in history;
    }
    forall k | 0 <= k < |history'|
      ensures HasUser(users', history'[k].userId) && HasMovie(movies, history'[k].movieId)
    {
      var e := history'[k];
      assert e in history;
      var i :| 0 <= i < |history| && history[i] == e;
      var j :| 0 <= j < |users| && users[j].id == e.userId;
      assert users[j] in users';
    }
  }

  /** After a delete no row has the id, and no history row points at it. */
  lemma DeletedUserIsGone(users: seq<User>, history: seq<WatchEntry>, id: nat)
    ensures FindUser(WithoutUser(users, id), id).None?
    ensures forall e :: e in WithoutUserHistory(history, id) ==> e.userId != id
  {
    var users' := WithoutUser(users, id);
    forall k | 0 <= k < |users'| ensures users'[k].id != id {
      assert users'[k] in users';
    }
  }

  /** DELETE /users/:id: removes the account and, by the assumed schema
      cascade, its watch history. An unknown id makes the store throw,
      which becomes a 500. */
  method DeleteUser(db: Database, id: nat) returns (r: Response<()>)
    requires db.Valid()
    modifies db
    ensures db.Valid()
    ensures db.movies == old(db.movies)
    ensures db.nextMovieId == old(db.nextMovieId) && db.nextUserId == old(db.nextUserId)
    ensures db.nextHistoryId == old(db.nextHistoryId)
    ensures FindUser(old(db.users), id).None? ==>
              r == Fail(STATUS_SERVER_ERROR) && db.users == old(db.users) && db.history == old(db.history)
    ensures FindUser(old(db.users), id).Some? ==>
              && r == Ok(STATUS_OK, ())
              && db.users == WithoutUser(old(db.users), id)
              && db.history == WithoutUserHistory(old(db.history), id)
  {
    if FindUser(db.users, id).None? {
      return Fail(STATUS_SERVER_ERROR);
    }
    DeleteUserKeepsTables(db.users, db.movies, db.history, db.nextUserId, db.nextHistoryId, id);
    db.users := WithoutUser(db.users, id);
    db.history := WithoutUserHistory(db.history, id);
    r := Ok(STATUS_OK, ());
  }
}

/** The two guards in front of protected routes. `authenticateToken` reads a
    bearer token from the `Authorization` header, verifies it, and loads the
    token's account from the user table into the request; `authorizeAdmin`
    lets the request through only when that loaded account is an admin. The
    signature check is a parameter; expiry is checked against `now`. */
module AuthMiddleware {
  import opened Common
  import opened Seqs
  import opened Text
  import opened Schema
  import opened Store
  import opened UserController

  /** The claims a token carries once its signature checks out; `exp` is
      the expiry time, when the token has one. */
  datatype Claims = Claims(id: Option<nat>, email: string, role: Role, exp: Option<nat>)

  /** The request as the guards see it: the header and the account the
      first guard loads. */
  class Request {
    var authorization: Option<string>
    var user: Option<User>

    constructor (authorization: Option<string>)
      ensures this.authorization == authorization && user.None?
    {
      this.authorization := authorization;
      user := None;
    }
  }

  /** What a guard does: pass the request on, or answer it with a status. */
  datatype Gate = Next | Respond(status: nat)

  // ---------------------------------------------------------------------------
  // The bearer token

  /** `authHeader && authHeader.split(' ')[1]`, read as a token only when
      it is a non-empty string. */
  function BearerToken(header: Option<string>): (t: Option<string>)
    ensures t.Some? ==> t.value != "" && ' ' !in t.value
    ensures t.Some? ==> header.Some? && |Split(header.value, ' ')| >= 2 && Split(header.value, ' ')[1] == t.value
  {
    if header.None? || header.value == "" then None
    else
      var parts := Split(header.value, ' ');
      if |parts| < 2 || parts[1] == "" then None else Some(parts[1])
  }

  /** The header the client sends, `Bearer <token>`, yields the token. */
  lemma BearerTokenOfScheme(scheme: string, token: string)
    requires ' ' !in scheme && ' ' !in token && token != ""
    ensures BearerToken(Some(scheme + " " + token)) == Some(token)
  {
    SplitJoin([scheme, token], ' ');
    assert Join([scheme, token], ' ') == scheme + " " + token;
  }

  /** A header that yields a token is the token's scheme word, a space, the
      token, and then nothing or more words after a space. */
  lemma BearerTokenShape(header: string)
    requires BearerToken(Some(header)).Some?
    ensures var parts := Split(header, ' ');
      && header == parts[0] + " " + BearerToken(Some(header)).value
                   + (if |parts| == 2 then "" else " " + Join(parts[2..], ' '))
  {
    var parts := Split(header, ' ');
    JoinSplit(header, ' ');
    assert Join(parts, ' ') == parts[0] + " " + Join(parts[1..], ' ');
    assert parts[1..][0] == parts[1];
    if |parts| > 2 {
      assert parts[1..][1..] == parts[2..];
    }
  }

  /** Any words after the token are ignored: the token is the second word
      however many follow it. */
  lemma BearerTokenOfLongerHeader(scheme: string, token: string, rest: string)
    requires ' ' !in scheme && ' ' !in token && token != ""
    ensures BearerToken(Some(scheme + " " + token + " " + rest)) == Some(token)
  {
    SplitAfterPiece(token, ' ', rest);
    assert scheme + " " + token + " " + rest == scheme + [' '] + (token + [' '] + rest);
    SplitAfterPiece(scheme, ' ', token + [' '] + rest);
  }

  /** A header with no space, or nothing after the first space, gives no
      token. */
  lemma NoTokenWithoutSecondWord(header: string)
    requires ' ' !in header || (exists a :: ' ' !in a && header == a + " ")
    ensures BearerToken(Some(header)).None?
  {
    if ' ' !in header {
      SplitWithoutSeparator(header, ' ');
    } else {
      var a :| ' ' !in a && header == a + " ";
      SplitJoin([a, ""], ' ');
      assert Join([a, ""], ' ') == a + " ";
    }
  }

  // ---------------------------------------------------------------------------
  // authenticateToken

  /** The outcome of `authenticateToken`: the account it loads, or the
      status it answers with. */
  datatype AuthOutcome = Pass(user: User) | Deny(status: nat)

  /** A token is rejected when its signature does not check out or it has
      expired; the verifier treats `now >= exp` as expired. */
  function Verified(token: string, verify: string -> Option<Claims>, now: nat): (c: Option<Claims>)
    ensures c.Some? <==> verify(token).Some? && (verify(token).value.exp.None? || now < verify(token).value.exp.value)
    ensures c.Some? ==> c == verify(token)
  {
    match verify(token)
    case None => None
    case Some(claims) => if claims.exp.Some? && now >= claims.exp.value then None else Some(claims)
  }

  /** `authenticateToken` as a function of the header, the signature check,
      the clock and the user table: no token is 401; a bad or expired token,
      or one without an id (the lookup then throws), is 403; a token for an
      account no longer in the table is 401; otherwise the account as the
      table holds it now. */
  function Authenticate(header: Option<string>, verify: string -> Option<Claims>, now: nat, users: seq<User>): (r: AuthOutcome)
    ensures BearerToken(header).None? ==> r == Deny(STATUS_UNAUTHORIZED)
    ensures BearerToken(header).Some? && Verified(BearerToken(header).value, verify, now).None? ==>
              r == Deny(STATUS_FORBIDDEN)
    ensures BearerToken(header).Some? && Verified(BearerToken(header).value, verify, now).Some?
            && Verified(BearerToken(header).value, verify, now).value.id.None? ==>
              r == Deny(STATUS_FORBIDDEN)
    ensures BearerToken(header).Some? && Verified(BearerToken(header).value, verify, now).Some?
            && Verified(BearerToken(header).value, verify, now).value.id.Some?
            && FindUser(users, Verified(BearerToken(header).value, verify, now).value.id.value).None? ==>
              r == Deny(STATUS_UNAUTHORIZED)
    ensures r.Deny? ==> r.status == STATUS_UNAUTHORIZED || r.status == STATUS_FORBIDDEN
    ensures r.Pass? <==>
              && BearerToken(header).Some?
              && Verified(BearerToken(header).value, verify, now).Some?
              && Verified(BearerToken(header).value, verify, now).value.id.Some?
              && FindUser(users, Verified(BearerToken(header).value, verify, now).value.id.value).Some?
    ensures r.Pass? ==> r.user in users && Some(r.user.id) == verify(BearerToken(header).value).value.id
  {
    match BearerToken(header)
    case None => Deny(STATUS_UNAUTHORIZED)
    case Some(token) =>
      match Verified(token, verify, now)
      case None => Deny(STATUS_FORBIDDEN)
      case Some(claims) =>
        if claims.id.None? then Deny(STATUS_FORBIDDEN)
        else
          match FindUser(users, claims.id.value)
          case None => Deny(STATUS_UNAUTHORIZED)
          case Some(k) => Pass(users[k])
  }

  /** The middleware itself: early returns, and `req.user` assigned from the
      lookup (so it is cleared when the account is gone). */
  method AuthenticateToken(req: Request, verify: string -> Option<Claims>, now: nat, db: Database) returns (g: Gate)
    modifies req
    ensures req.authorization == old(req.authorization)
    ensures match Authenticate(req.authorization, verify, now, db.users)
      case Pass(u) => g == Next && req.user == Some(u)
      case Deny(s) => g == Respond(s)
    ensures g.Respond? && g.status == STATUS_FORBIDDEN ==> req.user == old(req.user)
    ensures BearerToken(req.authorization).None? ==> req.user == old(req.user)
    ensures BearerToken(req.authorization).Some? && g == Respond(STATUS_UNAUTHORIZED) ==> req.user.None?
  {
    var token := BearerToken(req.authorization);
    if token.None? {
      return Respond(STATUS_UNAUTHORIZED);
    }
    var decoded := Verified(token.value, verify, now);
    if decoded.None? || decoded.value.id.None? {
      return Respond(STATUS_FORBIDDEN);
    }
    var found := FindUser(db.users, decoded.value.id.value);
    req.user := if found.Some? then Some(db.users[found.value]) else None;
    if req.user.None? {
      return Respond(STATUS_UNAUTHORIZED);
    }
    g := Next;
  }

  // ---------------------------------------------------------------------------
  // authorizeAdmin

  /** Pass only a loaded account whose stored role is `ADMIN`. */
  function AuthorizeAdmin(user: Option<User>): (g: Gate)
    ensures g == Next <==> user.Some? && user.value.role == ADMIN
    ensures g != Next ==> g == Respond(STATUS_FORBIDDEN)
  {
    if user.Some? && user.value.role == ADMIN then Next else Respond(STATUS_FORBIDDEN)
  }

  /** An admin route: `authenticateToken` then `authorizeAdmin`. A request
      is answered with 401 or 403 by the first guard, or with 403 by the
      second, and passes only with an authenticated account. */
  function AdminGate(header: Option<string>, verify: string -> Option<Claims>, now: nat, users: seq<User>): (g: Gate)
    ensures g == Next ==> Authenticate(header, verify, now, users).Pass?
    ensures g.Respond? ==> g.status == STATUS_UNAUTHORIZED || g.status == STATUS_FORBIDDEN
    ensures Authenticate(header, verify, now, users).Deny? ==> g == Respond(Authenticate(header, verify, now, users).status)
  {
    match Authenticate(header, verify, now, users)
    case Deny(s) => Respond(s)
    case Pass(u) => AuthorizeAdmin(Some(u))
  }

  /** An admin route lets a request through exactly when its token is valid
      and the account it names is, in the table, an admin; an authenticated
      non-admin gets 403. */
  lemma AdminGateIffStoredAdmin(header: Option<string>, verify: string -> Option<Claims>, now: nat, users: seq<User>)
    ensures AdminGate(header, verify, now, users) == Next <==>
              && Authenticate(header, verify, now, users).Pass?
              && Authenticate(header, verify, now, users).user.role == ADMIN
    ensures Authenticate(header, verify, now, users).Pass? && Authenticate(header, verify, now, users).user.role == USER ==>
              AdminGate(header, verify, now, users) == Respond(STATUS_FORBIDDEN)
  {
  }

  /** Claims with the role left out. */
  function WithoutRole(c: Option<Claims>): Option<(Option<nat>, string, Option<nat>)> {
    if c.None? then None else Some((c.value.id, c.value.email, c.value.exp))
  }

  /** The role written into a token plays no part: two signature checks that
      agree on everything but the role claim decide every request alike. */
  lemma RoleClaimIsIgnored(header: Option<string>, verify1: string -> Option<Claims>, verify2: string -> Option<Claims>, now: nat, users: seq<User>)
    requires forall t :: WithoutRole(verify1(t)) == WithoutRole(verify2(t))
    ensures Authenticate(header, verify1, now, users) == Authenticate(header, verify2, now, users)
    ensures AdminGate(header, verify1, now, users) == AdminGate(header, verify2, now, users)
  {
    if BearerToken(header).Some? {
      var t := BearerToken(header).value;
      assert WithoutRole(verify1(t)) == WithoutRole(verify2(t));
    }
  }

  /** An admin demoted in the table is refused on the next admin request,
      even with the token issued while they were an admin. */
  lemma DemotedAdminIsForbidden(
    header: Option<string>, verify: string -> Option<Claims>, now: nat, users: seq<User>, k: nat,
    name: Option<string>, email: Option<string>, password: BodyValue<string>, hash: string -> string)
    requires k < |users| && Pairwise(users, UserRowsOrdered)
    requires Authenticate(header, verify, now, users) == Pass(users[k])
    ensures var users' := users[k := ApplyUserData(users[k], DataToUpdate(name, email, Some(USER), password, hash))];
      AdminGate(header, verify, now, users') == Respond(STATUS_FORBIDDEN)
  {
    var users' := users[k := ApplyUserData(users[k], DataToUpdate(name, email, Some(USER), password, hash))];
    forall j | 0 <= j < |users'| && j != k ensures users'[j].id != users[k].id {
      if j < k {
        assert UserRowsOrdered(users[j], users[k]);
      } else {
        assert UserRowsOrdered(users[k], users[j]);
      }
    }
    var c := Verified(BearerToken(header).value, verify, now).value;
    assert c.id == Some(users[k].id);
    assert users'[k].id == users[k].id;
    assert FindUser(users', users[k].id) == Some(k);
  }
}

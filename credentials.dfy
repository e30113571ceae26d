/** The `users` and `sessions` tables and the credential checks of index.js: lookups by
    username, by id and by session token, session revocation, and the login and signup
    guards. */
module Credentials {
  import opened Outcomes

  /** A `users` row; `password` holds the digest `hash(password)`, never the password. */
  datatype User = User(id: int, username: string, password: string)

  /** A `sessions` row binding an opaque token to a user id. */
  datatype Session = Session(sessionId: string, userId: int)

  /** `.where(...).limit(1).then((res) => res[0])` over a table: the first row that
      satisfies the condition, if any. */
  function FirstWith<T>(rows: seq<T>, p: T -> bool): (r: Option<T>)
    ensures r.Some? ==> r.value in rows && p(r.value)
    ensures r.None? <==> forall k :: 0 <= k < |rows| ==> !p(rows[k])
  {
    if rows == [] then None
    else if p(rows[0]) then Some(rows[0])
    else FirstWith(rows[1..], p)
  }

  function NameIs(username: string): User -> bool
  {
    (u: User) => u.username == username
  }

  function IdIs(id: int): User -> bool
  {
    (u: User) => u.id == id
  }

  function TokenIs(token: string): Session -> bool
  {
    (s: Session) => s.sessionId == token
  }

  /** findUserByUsername: `.where({ username }).limit(1)`, the first user of that name. */
  function UserNamed(users: seq<User>, username: string): (r: Option<User>)
    ensures r.Some? ==> r.value in users && r.value.username == username
    ensures r.None? <==> forall k :: 0 <= k < |users| ==> users[k].username != username
  {
    FirstWith(users, NameIs(username))
  }

  /** `knex("users").where({ id }).limit(1)`, the first user with that id. */
  function UserWithId(users: seq<User>, id: int): (r: Option<User>)
    ensures r.Some? ==> r.value in users && r.value.id == id
    ensures r.None? <==> forall k :: 0 <= k < |users| ==> users[k].id != id
  {
    FirstWith(users, IdIs(id))
  }

  /** `knex("sessions").where({ session_id }).limit(1)`, the first session with that token. */
  function SessionWithToken(sessions: seq<Session>, token: string): (r: Option<Session>)
    ensures r.Some? ==> r.value in sessions && r.value.sessionId == token
    ensures r.None? <==> forall k :: 0 <= k < |sessions| ==> sessions[k].sessionId != token
  {
    FirstWith(sessions, TokenIs(token))
  }

  /** findUserBySessionId: nothing when no session has the token, otherwise the user whose
      id is that session's `user_id` (nothing if there is none). */
  function ResolveSession(users: seq<User>, sessions: seq<Session>, token: string): (r: Option<User>)
    ensures r.Some? ==> r.value in users
    ensures r.Some? ==> exists s :: s in sessions && s.sessionId == token && s.userId == r.value.id
    ensures (forall k :: 0 <= k < |sessions| ==> sessions[k].sessionId != token) ==> r.None?
  {
    match SessionWithToken(sessions, token)
    case None => None
    case Some(s) => UserWithId(users, s.userId)
  }

  /** The `auth()` middleware: no cookie (or an empty one) means no user; otherwise the
      user the session token resolves to. */
  function Authenticate(users: seq<User>, sessions: seq<Session>, cookie: string): (r: Option<User>)
    ensures cookie == "" ==> r.None?
    ensures r.Some? ==> r.value in users
    ensures r.Some? ==> exists s :: s in sessions && s.sessionId == cookie && s.userId == r.value.id
    ensures SessionWithToken(sessions, cookie).None? ==> r.None?
    ensures cookie != "" && SessionWithToken(sessions, cookie).Some? ==>
      r == UserWithId(users, SessionWithToken(sessions, cookie).value.userId)
  {
    if cookie == "" then None else ResolveSession(users, sessions, cookie)
  }

  /** deleteSession: `.where({ session_id }).delete()` removes every row with the token. */
  function RemoveToken(sessions: seq<Session>, token: string): (r: seq<Session>)
    ensures |r| <= |sessions|
    ensures forall s :: s in r <==> s in sessions && s.sessionId != token
  {
    if sessions == [] then []
    else if sessions[0].sessionId == token then RemoveToken(sessions[1..], token)
    else [sessions[0]] + RemoveToken(sessions[1..], token)
  }

  /** The login guard `!user || !password || hash(password) !== user.password`, negated:
      the user exists, the password is non-empty and its digest equals the stored one. */
  predicate LoginAccepted(user: Option<User>, password: string, hash: string -> string)
  {
    user.Some? && password != "" && hash(password) == user.value.password
  }

  /** The signup guards: a non-empty username and password, a username PostgreSQL can take
      as text (no U+0000: the lookup at index.js:275 otherwise throws before anything is
      written), and no user of that name yet. */
  function SignupAllowed(users: seq<User>, username: string, password: string): (r: bool)
    ensures r <==>
      && username != ""
      && password != ""
      && '\0' !in username
      && forall k :: 0 <= k < |users| ==> users[k].username != username
  {
    username != "" && password != "" && '\0' !in username && UserNamed(users, username).None?
  }

  ghost predicate UniqueNames(users: seq<User>)
  {
    forall i, j :: 0 <= i < j < |users| ==> users[i].username != users[j].username
  }

  ghost predicate UniqueTokens(sessions: seq<Session>)
  {
    forall i, j :: 0 <= i < j < |sessions| ==> sessions[i].sessionId != sessions[j].sessionId
  }

  // ---- Properties ----

  /** Appending a row does not change what an existing match finds; otherwise the new row
      is found when it matches. */
  lemma {:induction false} FirstWithAppend<T>(rows: seq<T>, x: T, p: T -> bool)
    ensures FirstWith(rows + [x], p) ==
      if FirstWith(rows, p).Some? then FirstWith(rows, p)
      else if p(x) then Some(x) else None
  {
    if rows == [] {
      assert rows + [x] == [x];
    } else {
      assert (rows + [x])[1..] == rows[1..] + [x];
      FirstWithAppend(rows[1..], x, p);
    }
  }

  /** Appending a user does not change who an existing name or id finds. */
  lemma UserNamedAppend(users: seq<User>, u: User, username: string)
    ensures UserNamed(users + [u], username) ==
      if UserNamed(users, username).Some? then UserNamed(users, username)
      else if u.username == username then Some(u) else None
  {
    FirstWithAppend(users, u, NameIs(username));
  }

  lemma UserWithIdAppend(users: seq<User>, u: User, id: int)
    ensures UserWithId(users + [u], id) ==
      if UserWithId(users, id).Some? then UserWithId(users, id)
      else if u.id == id then Some(u) else None
  {
    FirstWithAppend(users, u, IdIs(id));
  }

  /** With unique usernames, the login guard applied to the user found by name accepts
      exactly a non-empty password whose digest is the one stored for that name. */
  lemma LoginByName(users: seq<User>, username: string, password: string, hash: string -> string)
    requires UniqueNames(users)
    ensures LoginAccepted(UserNamed(users, username), password, hash) <==>
      password != "" && exists u :: u in users && u.username == username && u.password == hash(password)
  {
    if u :| u in users && u.username == username && u.password == hash(password) {
      var found := UserNamed(users, username).value;
      var i :| 0 <= i < |users| && users[i] == found;
      var j :| 0 <= j < |users| && users[j] == u;
      assert i == j;
    }
  }

  /** Signing up with a username and a password makes that pair acceptable to the login
      guard: the new user is the first of its name, and its stored digest is the
      password's. */
  lemma SignupThenLogin(users: seq<User>, id: int, username: string, password: string, hash: string -> string)
    requires SignupAllowed(users, username, password)
    ensures LoginAccepted(UserNamed(users + [User(id, username, hash(password))], username), password, hash)
  {
    UserNamedAppend(users, User(id, username, hash(password)), username);
  }

  /** A signup the guard lets through keeps usernames unique. */
  lemma SignupKeepsNamesUnique(users: seq<User>, u: User, password: string)
    requires UniqueNames(users) && SignupAllowed(users, u.username, password)
    ensures UniqueNames(users + [u])
  {
  }

  /** Where every session references an existing user (no path deletes users), a token
      resolves to a user exactly when some session holds it. */
  lemma LiveSessionResolves(users: seq<User>, sessions: seq<Session>, token: string)
    requires forall k :: 0 <= k < |sessions| ==> UserWithId(users, sessions[k].userId).Some?
    ensures ResolveSession(users, sessions, token).Some? <==> SessionWithToken(sessions, token).Some?
  {
  }

  /** Revoking a token nobody holds leaves the table as it was. */
  lemma {:induction false} RemoveTokenAbsent(sessions: seq<Session>, token: string)
    ensures SessionWithToken(sessions, token).None? ==> RemoveToken(sessions, token) == sessions
  {
    if sessions != [] {
      RemoveTokenAbsent(sessions[1..], token);
    }
  }

  /** Revoking a token keeps the remaining tokens unique. */
  lemma {:induction false} RemoveTokenUnique(sessions: seq<Session>, token: string)
    requires UniqueTokens(sessions)
    ensures UniqueTokens(RemoveToken(sessions, token))
  {
    if sessions != [] {
      RemoveTokenUnique(sessions[1..], token);
      var rest := RemoveToken(sessions[1..], token);
      forall s | s in rest ensures s.sessionId != sessions[0].sessionId {
        var k :| 0 <= k < |sessions[1..]| && sessions[1..][k] == s;
        assert sessions[k + 1] == s;
      }
    }
  }
}

/** The server's data logic of index.js over an in-memory store: the `users`, `sessions` and
    `notes` tables as sequences of a class, one method per repository function, and the
    guards of the /login, /signup and /logout handlers. */
module NoteServer {
  import opened Outcomes
  import opened NoteSchema
  import opened NoteTable
  import opened NoteListing
  import opened Credentials
  import opened DemoNote

  /** `users`: ids are assigned from 1 by the `increments` sequence, ascending and below
      its next value. */
  ghost predicate UsersIntegrity(users: seq<User>, nextUserId: int)
  {
    && nextUserId >= 1
    && (forall u :: u in users ==> 1 <= u.id < nextUserId)
    && (forall i, j :: 0 <= i < j < |users| ==> users[i].id < users[j].id)
  }

  /** `sessions`: tokens are unique and each references an existing user. */
  ghost predicate SessionsIntegrity(sessions: seq<Session>, users: seq<User>)
  {
    && UniqueTokens(sessions)
    && (forall s :: s in sessions ==> UserWithId(users, s.userId).Some?)
  }

  /** `notes`: rows in ascending id order, ids below the sequence's next value, every row
      within the schema, and `user_id` a foreign key into `users`. */
  ghost predicate NotesIntegrity(notes: seq<Note>, users: seq<User>, nextNoteId: int)
  {
    && nextNoteId >= 1
    && IdsAscending(notes)
    && (forall n :: n in notes ==> ValidNote(n) && n.id < nextNoteId && UserWithId(users, n.userId).Some?)
  }

  /** A new user leaves every existing reference intact. */
  lemma UsersGrow(users: seq<User>, u: User, sessions: seq<Session>, notes: seq<Note>, nextNoteId: int)
    requires SessionsIntegrity(sessions, users) && NotesIntegrity(notes, users, nextNoteId)
    ensures SessionsIntegrity(sessions, users + [u]) && NotesIntegrity(notes, users + [u], nextNoteId)
  {
    forall s | s in sessions ensures UserWithId(users + [u], s.userId).Some? {
      UserWithIdAppend(users, u, s.userId);
    }
    forall n | n in notes ensures UserWithId(users + [u], n.userId).Some? {
      UserWithIdAppend(users, u, n.userId);
    }
  }

  /** An update keeps the table's integrity when the values it writes fit their columns. */
  lemma UpdateKeepsIntegrity(notes: seq<Note>, users: seq<User>, nextNoteId: int, c: Clause, a: Assignment)
    requires NotesIntegrity(notes, users, nextNoteId)
    requires a.SetContent? ==> FitsColumns(a.title, a.text)
    ensures NotesIntegrity(UpdateWhere(notes, c, a), users, nextNoteId)
  {
    var r := UpdateWhere(notes, c, a);
    UpdateAscending(notes, c, a);
    forall n | n in r ensures ValidNote(n) && n.id < nextNoteId && UserWithId(users, n.userId).Some? {
      var k :| 0 <= k < |r| && r[k] == n;
      assert notes[k] in notes;
    }
  }

  /** A deletion keeps the table's integrity. */
  lemma WithoutKeepsIntegrity(notes: seq<Note>, users: seq<User>, nextNoteId: int, c: Clause)
    requires NotesIntegrity(notes, users, nextNoteId)
    ensures NotesIntegrity(Without(notes, c), users, nextNoteId)
  {
    WithoutAscending(notes, c);
  }

  datatype LoginResult = LoggedIn(sessionId: string) | LoginRefused
  datatype SignupResult = SignedUp(sessionId: string, userId: int) | SignupRefused

  class Store {
    /** The password digest (sha256, base64) and the Markdown renderer: deterministic
        functions the store is given. */
    const hash: string -> string
    const toHtml: string -> string

    var users: seq<User>
    var sessions: seq<Session>
    var notes: seq<Note>
    /** The next values of the two `increments` id sequences. */
    var nextUserId: int
    var nextNoteId: int

    /** The database's integrity, kept by every method: see the three predicates below. */
    ghost predicate Valid()
      reads this
    {
      && UsersIntegrity(users, nextUserId)
      && SessionsIntegrity(sessions, users)
      && NotesIntegrity(notes, users, nextNoteId)
    }

    constructor (hash: string -> string, toHtml: string -> string)
      ensures Valid()
      ensures this.hash == hash && this.toHtml == toHtml
      ensures users == [] && sessions == [] && notes == []
    {
      this.hash := hash;
      this.toHtml := toHtml;
      users, sessions, notes := [], [], [];
      nextUserId, nextNoteId := 1, 1;
    }

    /** createUser: inserts the username with the digest of the password, returns the new id. */
    method CreateUser(username: string, password: string) returns (id: int)
      requires Valid()
      requires '\0' !in username
      modifies this
      ensures Valid()
      ensures id == old(nextUserId) && nextUserId == id + 1
      ensures forall u :: u in old(users) ==> u.id < id
      ensures users == old(users) + [User(id, username, hash(password))]
      ensures sessions == old(sessions) && notes == old(notes) && nextNoteId == old(nextNoteId)
    {
      id := nextUserId;
      var u := User(id, username, hash(password));
      UsersGrow(users, u, sessions, notes, nextNoteId);
      users := users + [u];
      nextUserId := nextUserId + 1;
    }

    /** createSession: binds the freshly generated token to the user and returns it. */
    method CreateSession(userId: int, token: string) returns (sessionId: string)
      requires Valid()
      requires UserWithId(users, userId).Some?
      requires SessionWithToken(sessions, token).None?
      modifies this
      ensures Valid()
      ensures sessionId == token
      ensures sessions == old(sessions) + [Session(token, userId)]
      ensures users == old(users) && notes == old(notes)
      ensures nextUserId == old(nextUserId) && nextNoteId == old(nextNoteId)
    {
      sessions := sessions + [Session(token, userId)];
      sessionId := token;
    }

    /** deleteSession: removes every session row with the token; an unknown token is a no-op. */
    method DeleteSession(token: string)
      requires Valid()
      modifies this
      ensures Valid()
      ensures sessions == RemoveToken(old(sessions), token)
      ensures SessionWithToken(sessions, token).None?
      ensures SessionWithToken(old(sessions), token).None? ==> sessions == old(sessions)
      ensures users == old(users) && notes == old(notes)
      ensures nextUserId == old(nextUserId) && nextNoteId == old(nextNoteId)
    {
      RemoveTokenUnique(sessions, token);
      RemoveTokenAbsent(sessions, token);
      sessions := RemoveToken(sessions, token);
    }

    /** findNotes: the page-th slice of 20 rows of the caller's notes under the age filter,
        each with its rendered html, and `hasMore` when the page is full. */
    method FindNotes(userId: int, page: int, age: string, oneMonthAgo: int, threeMonthsAgo: int)
      returns (r: Result<NotesPage>)
      requires page >= 1
      ensures r.Failure? <==> ParseAge(age, oneMonthAgo, threeMonthsAgo).Failure?
      ensures r.Failure? ==> r.error == UnrecognisedAge
      ensures r.Success? ==>
        var selected := Selected(notes, userId, ParseAge(age, oneMonthAgo, threeMonthsAgo).value);
        && r.value.data == Views(PageOf(selected, page), toHtml)
        && r.value.hasMore == HasMore(selected, page)
      ensures r.Success? ==> r.value.hasMore == (|r.value.data| == PageSize)
      ensures r.Success? ==> |r.value.data| <= PageSize
      ensures r.Success? ==> forall k :: 0 <= k < |r.value.data| ==>
        r.value.data[k].note in notes && r.value.data[k].note.userId == userId
    {
      var filter := ParseAge(age, oneMonthAgo, threeMonthsAgo);
      if filter.Failure? {
        return Failure(filter.error);
      }
      var selected := Selected(notes, userId, filter.value);
      var rows := PageOf(selected, page);
      var data: seq<NoteView> := [];
      for i := 0 to |rows|
        invariant |data| == i
        invariant forall k :: 0 <= k < i ==> data[k] == NoteView(rows[k], toHtml(rows[k].text))
      {
        data := data + [NoteView(rows[i], toHtml(rows[i].text))];
      }
      assert data == Views(rows, toHtml);
      forall k | 0 <= k < |rows| ensures rows[k] in notes && rows[k].userId == userId {
        assert rows[k] in selected;
      }
      r := Success(NotesPage(data, HasMore(selected, page)));
    }

    /** findNote: the caller's note with that id, rendered; no matching row is a failure. */
    method FindNote(userId: int, id: int) returns (r: Result<NoteView>)
      ensures r.Success? <==> First(notes, ById(userId, id)).Some?
      ensures r.Failure? ==> r.error == NotFound
      ensures r.Success? ==> r.value.note in notes
      ensures r.Success? ==> r.value.note.id == id && r.value.note.userId == userId
      ensures r.Success? ==> r.value.html == toHtml(r.value.note.text)
    {
      var row := First(notes, ById(userId, id));
      if row.None? {
        return Failure(NotFound);
      }
      r := Success(NoteView(row.value, toHtml(row.value.text)));
    }

    /** createNote: inserts one row owned by the caller with a fresh id, `is_archived` false
        and `created_at` the insertion time, its title and text as their columns store them;
        the database refuses a value its column does not accept and an owner that is not a
        user, and then nothing changes. The html is rendered from the stored text. */
    method CreateNote(userId: int, title: string, text: string, now: int) returns (r: Result<NoteView>)
      requires Valid()
      modifies this
      ensures Valid()
      ensures !Accepted(title, text) ==> r == Failure(Refusal(title, text))
      ensures Accepted(title, text) && UserWithId(users, userId).None? ==> r == Failure(ForeignKeyViolation)
      ensures r.Success? <==> Accepted(title, text) && UserWithId(users, userId).Some?
      ensures r.Failure? ==> notes == old(notes) && nextNoteId == old(nextNoteId)
      ensures r.Success? ==>
        r.value.note == Note(old(nextNoteId), ColumnValue(title, MaxTitleLength).value,
          ColumnValue(text, MaxTextLength).value, now, false, userId)
      ensures r.Success? ==> notes == old(notes) + [r.value.note] && nextNoteId == old(nextNoteId) + 1
      ensures r.Success? ==> forall n :: n in old(notes) ==> n.id < r.value.note.id
      ensures r.Success? ==> r.value.html == toHtml(r.value.note.text)
      ensures users == old(users) && sessions == old(sessions) && nextUserId == old(nextUserId)
    {
      var row := InsertRow(nextNoteId, title, text, userId, now);
      if row.Failure? {
        return Failure(row.error);
      }
      if UserWithId(users, userId).None? {
        return Failure(ForeignKeyViolation);
      }
      AppendAscending(notes, row.value);
      notes := notes + [row.value];
      nextNoteId := nextNoteId + 1;
      r := Success(NoteView(row.value, toHtml(row.value.text)));
    }

    /** `UPDATE notes SET a WHERE c`, the statement behind switchArchiveNote and updateNote:
        every matching row is rewritten by the assignment and nothing else changes; the
        database accepts the values because they fit their columns. */
    method Update(c: Clause, a: Assignment)
      requires Valid()
      requires a.SetContent? ==> FitsColumns(a.title, a.text)
      modifies this
      ensures Valid()
      ensures notes == UpdateWhere(old(notes), c, a)
      ensures forall other :: other != c.userId ==> Where(notes, OwnerIs(other)) == Where(old(notes), OwnerIs(other))
      ensures First(old(notes), c).Some? ==> Apply(a, First(old(notes), c).value) in notes
      ensures First(old(notes), c).None? ==> notes == old(notes)
      ensures users == old(users) && sessions == old(sessions)
      ensures nextUserId == old(nextUserId) && nextNoteId == old(nextNoteId)
    {
      if First(notes, c).None? {
        UpdateWithoutHits(notes, c, a);
      } else {
        UpdatedFirstPresent(notes, c, a);
      }
      UpdateKeepsIntegrity(notes, users, nextNoteId, c, a);
      forall other | other != c.userId
        ensures Where(UpdateWhere(notes, c, a), OwnerIs(other)) == Where(notes, OwnerIs(other))
      {
        UpdateSparesOthers(notes, c, a, other);
      }
      notes := UpdateWhere(notes, c, a);
    }

    /** switchArchiveNote: negates `is_archived` of the caller's note with that id and
        returns the updated row; no matching row is a failure and updates nothing. */
    method SwitchArchiveNote(userId: int, id: int) returns (r: Result<NoteView>)
      requires Valid()
      modifies this
      ensures Valid()
      ensures notes == UpdateWhere(old(notes), ById(userId, id), NegateArchived)
      ensures forall other :: other != userId ==> Where(notes, OwnerIs(other)) == Where(old(notes), OwnerIs(other))
      ensures r.Success? <==> First(old(notes), ById(userId, id)).Some?
      ensures r.Failure? ==> r.error == NotFound && notes == old(notes)
      ensures r.Success? ==> r.value.note == ToggleRow(First(old(notes), ById(userId, id)).value)
      ensures r.Success? ==> r.value.note in notes && r.value.html == toHtml(r.value.note.text)
      ensures users == old(users) && sessions == old(sessions)
      ensures nextUserId == old(nextUserId) && nextNoteId == old(nextNoteId)
    {
      var c := ById(userId, id);
      var row := First(notes, c);
      Update(c, NegateArchived);
      if row.None? {
        return Failure(NotFound);
      }
      var updated := ToggleRow(row.value);
      r := Success(NoteView(updated, toHtml(updated.text)));
    }

    /** updateNote: replaces `title` and `text` of the caller's note with that id by the
        values their columns store and returns the updated row; no matching row, or a value
        its column refuses, is a failure and updates nothing. */
    method UpdateNote(userId: int, id: int, title: string, text: string) returns (r: Result<NoteView>)
      requires Valid()
      modifies this
      ensures Valid()
      ensures First(old(notes), ById(userId, id)).None? ==> r == Failure(NotFound)
      ensures First(old(notes), ById(userId, id)).Some? && !Accepted(title, text) ==> r == Failure(Refusal(title, text))
      ensures r.Success? <==> First(old(notes), ById(userId, id)).Some? && Accepted(title, text)
      ensures r.Failure? ==> notes == old(notes)
      ensures r.Success? ==>
        notes == UpdateWhere(old(notes), ById(userId, id),
          SetContent(ColumnValue(title, MaxTitleLength).value, ColumnValue(text, MaxTextLength).value))
      ensures forall other :: other != userId ==> Where(notes, OwnerIs(other)) == Where(old(notes), OwnerIs(other))
      ensures r.Success? ==>
        r.value.note == WithContent(First(old(notes), ById(userId, id)).value,
          ColumnValue(title, MaxTitleLength).value, ColumnValue(text, MaxTextLength).value)
      ensures FitsColumns(title, text) && r.Success? ==> r.value.note.title == title && r.value.note.text == text
      ensures r.Success? ==> r.value.note in notes && r.value.html == toHtml(r.value.note.text)
      ensures users == old(users) && sessions == old(sessions)
      ensures nextUserId == old(nextUserId) && nextNoteId == old(nextNoteId)
    {
      var c := ById(userId, id);
      var row := First(notes, c);
      if row.None? {
        return Failure(NotFound);
      }
      var storedTitle := ColumnValue(title, MaxTitleLength);
      var storedText := ColumnValue(text, MaxTextLength);
      if storedTitle.Failure? || storedText.Failure? {
        return Failure(Refusal(title, text));
      }
      Update(c, SetContent(storedTitle.value, storedText.value));
      var updated := WithContent(row.value, storedTitle.value, storedText.value);
      r := Success(NoteView(updated, toHtml(updated.text)));
    }

    /** deleteNote: removes the caller's note with that id, if any, and returns the count. */
    method DeleteNote(userId: int, id: int) returns (count: int)
      requires Valid()
      modifies this
      ensures Valid()
      ensures notes == Without(old(notes), ById(userId, id))
      ensures forall other :: other != userId ==> Where(notes, OwnerIs(other)) == Where(old(notes), OwnerIs(other))
      ensures count == |old(notes)| - |notes|
      ensures count == if First(old(notes), ById(userId, id)).Some? then 1 else 0
      ensures users == old(users) && sessions == old(sessions)
      ensures nextUserId == old(nextUserId) && nextNoteId == old(nextNoteId)
    {
      var c := ById(userId, id);
      DeleteByIdCount(notes, userId, id);
      WithoutKeepsIntegrity(notes, users, nextNoteId, c);
      var remaining := Without(notes, c);
      forall other | other != userId ensures Where(remaining, OwnerIs(other)) == Where(notes, OwnerIs(other)) {
        DeleteSparesOthers(notes, c, other);
      }
      count := |notes| - |remaining|;
      notes := remaining;
    }

    /** deleteAllArchivedNotes: removes exactly the caller's archived rows and returns how
        many there were. */
    method DeleteAllArchivedNotes(userId: int) returns (count: int)
      requires Valid()
      modifies this
      ensures Valid()
      ensures notes == Without(old(notes), ArchivedOf(userId))
      ensures forall other :: other != userId ==> Where(notes, OwnerIs(other)) == Where(old(notes), OwnerIs(other))
      ensures count == |Where(old(notes), ArchivedOf(userId))| == |old(notes)| - |notes|
      ensures forall n :: n in notes ==> !(n.userId == userId && n.isArchived)
      ensures users == old(users) && sessions == old(sessions)
      ensures nextUserId == old(nextUserId) && nextNoteId == old(nextNoteId)
    {
      var c := ArchivedOf(userId);
      WhereWithoutCount(notes, c);
      WithoutKeepsIntegrity(notes, users, nextNoteId, c);
      var remaining := Without(notes, c);
      forall other | other != userId ensures Where(remaining, OwnerIs(other)) == Where(notes, OwnerIs(other)) {
        DeleteSparesOthers(notes, c, other);
      }
      count := |notes| - |remaining|;
      notes := remaining;
    }

    /** The /login handler: a session with the fresh token is created exactly when the login
        guard accepts the user found by name and the password; otherwise nothing changes. A
        username containing U+0000 makes the lookup at index.js:256 throw, which also
        changes nothing. */
    method Login(username: string, password: string, token: string) returns (r: LoginResult)
      requires Valid()
      requires SessionWithToken(sessions, token).None?
      modifies this
      ensures Valid()
      ensures r.LoggedIn? <==> '\0' !in username && LoginAccepted(UserNamed(users, username), password, hash)
      ensures r.LoggedIn? ==> r.sessionId == token
      ensures r.LoggedIn? ==> sessions == old(sessions) + [Session(token, UserNamed(users, username).value.id)]
      ensures r.LoginRefused? ==> sessions == old(sessions)
      ensures users == old(users) && notes == old(notes)
      ensures nextUserId == old(nextUserId) && nextNoteId == old(nextNoteId)
    {
      if '\0' in username {
        return LoginRefused;
      }
      var user := UserNamed(users, username);
      if !LoginAccepted(user, password, hash) {
        return LoginRefused;
      }
      assert UserWithId(users, user.value.id).Some?;
      var sessionId := CreateSession(user.value.id, token);
      r := LoggedIn(sessionId);
    }

    /** The /logout handler: when the cookie resolves to a user its session is deleted (and
        the cookie cleared); otherwise nothing changes. */
    method Logout(cookie: string) returns (cleared: bool)
      requires Valid()
      modifies this
      ensures Valid()
      ensures cleared <==> Authenticate(users, old(sessions), cookie).Some?
      ensures sessions == if cleared then RemoveToken(old(sessions), cookie) else old(sessions)
      ensures cleared ==> Authenticate(users, sessions, cookie).None?
      ensures users == old(users) && notes == old(notes)
      ensures nextUserId == old(nextUserId) && nextNoteId == old(nextNoteId)
    {
      var user := Authenticate(users, sessions, cookie);
      if user.None? {
        return false;
      }
      DeleteSession(cookie);
      cleared := true;
    }

    /** The id the next user receives owns no note yet: every note references an existing
        user, and those ids are below the next one. */
    lemma NewUserOwnsNothing()
      requires Valid()
      ensures Where(notes, OwnerIs(nextUserId)) == []
    {
      forall n | n in notes ensures !Hits(OwnerIs(nextUserId), n) {
        var owner := UserWithId(users, n.userId).value;
      }
      NoHitsNoRows(notes, OwnerIs(nextUserId));
    }

    /** The part of /signup after its guards: createUser, then createSession for the new
        user. The new user owns no note yet and can log in with the same password. */
    method Register(username: string, password: string, token: string) returns (id: int, sessionId: string)
      requires Valid()
      requires SignupAllowed(users, username, password)
      requires SessionWithToken(sessions, token).None?
      modifies this
      ensures Valid()
      ensures id == old(nextUserId) && nextUserId == id + 1 && sessionId == token
      ensures users == old(users) + [User(id, username, hash(password))]
      ensures sessions == old(sessions) + [Session(token, id)]
      ensures notes == old(notes) && nextNoteId == old(nextNoteId)
      ensures UserWithId(users, id).Some?
      ensures Where(notes, OwnerIs(id)) == []
      ensures LoginAccepted(UserNamed(users, username), password, hash)
      ensures UniqueNames(old(users)) ==> UniqueNames(users)
    {
      ghost var oldUsers := users;
      NewUserOwnsNothing();
      id := CreateUser(username, password);
      SignupThenLogin(oldUsers, id, username, password, hash);
      if UniqueNames(oldUsers) {
        SignupKeepsNamesUnique(oldUsers, User(id, username, hash(password)), password);
      }
      UserWithIdAppend(oldUsers, User(id, username, hash(password)), id);
      sessionId := CreateSession(id, token);
    }

    /** The /signup handler: refused for an empty username or password, for a username
        containing U+0000 (the lookup at index.js:275 throws) and for a taken username;
        otherwise it adds the user, a session with the fresh token and the demo
        note, after which the same username and password pass the login guard. */
    method Signup(username: string, password: string, token: string, now: int) returns (r: SignupResult)
      requires Valid()
      requires SessionWithToken(sessions, token).None?
      modifies this
      ensures Valid()
      ensures r.SignedUp? <==> SignupAllowed(old(users), username, password)
      ensures r.SignupRefused? ==> users == old(users) && sessions == old(sessions) && notes == old(notes)
      ensures r.SignupRefused? ==> nextUserId == old(nextUserId) && nextNoteId == old(nextNoteId)
      ensures r.SignedUp? ==> nextUserId == old(nextUserId) + 1 && nextNoteId == old(nextNoteId) + 1
      ensures r.SignedUp? ==> r.sessionId == token && r.userId == old(nextUserId)
      ensures r.SignedUp? ==> users == old(users) + [User(r.userId, username, hash(password))]
      ensures r.SignedUp? ==> sessions == old(sessions) + [Session(token, r.userId)]
      ensures r.SignedUp? ==>
        notes == old(notes) + [Note(old(nextNoteId), DemoTitle, DemoText, now, false, r.userId)]
      ensures r.SignedUp? ==> Where(notes, OwnerIs(r.userId)) == [Note(old(nextNoteId), DemoTitle, DemoText, now, false, r.userId)]
      ensures r.SignedUp? ==> LoginAccepted(UserNamed(users, username), password, hash)
      ensures UniqueNames(old(users)) ==> UniqueNames(users)
    {
      if username == "" || password == "" || '\0' in username {
        return SignupRefused;
      }
      var existing := UserNamed(users, username);
      if existing.Some? {
        return SignupRefused;
      }
      ghost var oldNotes := notes;
      var id, sessionId := Register(username, password, token);
      DemoNoteFits();
      var demo := CreateNote(id, DemoTitle, DemoText, now);
      assert demo.Success?;
      WhereAppend(oldNotes, demo.value.note, OwnerIs(id));
      r := SignedUp(sessionId, id);
    }

  }
}

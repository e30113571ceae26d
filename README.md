# Note server data logic, modelled in Dafny

This project models the data logic of a note-taking web server (`99_diploma/index.js`)
and the `notes` table schema (`99_diploma/migrations/20231123123518_notes.js`). In the
original, users sign up, log in with a session cookie, and keep short Markdown notes. Each
note can be created, read, edited, archived or unarchived, deleted, or listed in pages of
20. The original runs knex queries against three PostgreSQL tables: `users`, `sessions`
and `notes`. Here the tables are sequences inside one class, `NoteServer.Store`. Each
repository function that writes a table or reads `notes` is a method of that class, and
each method's contract says what the SQL statement does to the tables. The two user
lookups, `findUserByUsername` and `findUserBySessionId`, are functions of the
`Credentials` module over the `users` and `sessions` sequences.

Modules, one concern each:

- `Outcomes` (outcomes.dfy): `Option`, `Result` and the error kinds.
- `NoteSchema` (schema.dfy): the note row, its column limits and what a varchar column
  stores, what an insert produces and the two column updates.
- `NoteTable` (table.dfy): the where-clauses of the repository and the select, update,
  delete and first-row statements over the rows, with their properties. The properties
  cover scoping by owner, exact deletion counts, the toggle involution, other users'
  rows left unchanged, and id order.
- `NoteListing` (listing.dfy): the age filter switch, the listing selection, the page of
  20 rows, the `hasMore` rule and the JSON view of a row.
- `Credentials` (credentials.dfy): the `users` and `sessions` rows, the lookups, session
  resolution and revocation, and the login and signup guards.
- `DemoNote` (demo.dfy): the note seeded at signup, with a proof that it fits the columns.
- `NoteServer` (store.dfy): the `Store` class, its integrity invariant `Valid()`, one
  method per repository function, and the `/login`, `/logout` and `/signup` handlers.

Modelling choices:

- Abstract inputs:
  - The password digest (sha256, base64) and the Markdown renderer are deterministic
    functions, `Store.hash` and `Store.toHtml`, given to the constructor.
  - The session token from `nanoid()` is a parameter. It must not already be in the
    `sessions` table.
  - The current time is a parameter: `now` for inserts, and `oneMonthAgo` and
    `threeMonthsAgo` for the two `dayjs().subtract(...)` cutoffs. Timestamps are
    integers.
- Row order:
  - The listing query has no `orderBy`, so its row order is unspecified. The model fixes
    it: rows are kept in ascending id order. Since ids come from the `increments`
    sequence, this is insertion order.
  - `Valid()` keeps ids strictly ascending, so ids are unique.
- Absent values: an absent form field, query parameter or cookie is the empty string.
  JavaScript's `!x` treats absent and empty the same way in every guard modelled here.
- Title and text follow PostgreSQL's rules for `character varying(n)`:
  - a value containing U+0000 is refused, whatever its length;
  - otherwise a value of at most n characters is stored as it is;
  - a longer value whose characters past n are all spaces is stored cut to n characters;
  - any other longer value is refused.
- Database errors are `Failure` results, and the tables do not change on a failure:
  - a title or text containing U+0000 is `InvalidCharacter`; this is reported before
    any width fault;
  - a title or text that is otherwise too long for its column (see above) is
    `ValueTooLong`;
  - `createNote` for a `user_id` that names no user is `ForeignKeyViolation`;
  - `findNote`, `switchArchiveNote` and `updateNote` with no matching row are `NotFound`.
    index.js then dereferences `undefined` and throws.
- `createUser` returns the new id.
  - `searchUser.id` at index.js:280 depends on knex's `returning("id")`
    shape.
- Age filter:
  - An empty or absent age, and `"alltime"`, apply no filter, so archived notes are
    listed.
  - `"archive"` keeps only archived rows.
  - `"1month"` and `"3months"` keep rows with `created_at >=` the cutoff.
  - Any other age is `Failure(UnrecognisedAge)`. index.js keeps that string as a
    `created_at` bound (index.js:126-136); see "## Left out".

## Model

| member | source | states |
|---|---|---|
| NoteSchema.ColumnValue | 99_diploma/migrations/20231123123518_notes.js:8-9 | a varchar(n) column accepts a value iff it contains no U+0000 and has at most n characters or only spaces past the n-th; a refusal is `InvalidCharacter` for U+0000 and `ValueTooLong` otherwise; it stores a prefix of at most n characters with only spaces cut off, and a value within n unchanged |
| NoteSchema.PaddingCut | 99_diploma/migrations/20231123123518_notes.js:8-9 | a value of exactly n characters without U+0000, followed by padding, is accepted iff the padding is all spaces, and is then stored without it (255 letters and a space give a 255-letter title) |
| NoteSchema.InsertRow | 99_diploma/migrations/20231123123518_notes.js:6-14 | an insert is accepted iff both columns accept their values, and otherwise fails with `InvalidCharacter` when either value contains U+0000 and `ValueTooLong` when not; the new row is valid, has the given id and owner, the title and text as their columns store them (unchanged when free of U+0000 and within 255 and 1000 characters), `is_archived` false and `created_at` the insertion time |
| NoteSchema.WithContent | 99_diploma/migrations/20231123123518_notes.js:8-9 | replacing title and text keeps a valid row valid exactly when the new values fit their columns |
| NoteSchema.ToggleRow | 99_diploma/index.js:197 | `NOT is_archived` flips the flag, keeps every other column, and keeps a row valid exactly when it was |
| NoteTable.Where | 99_diploma/index.js:130-141 | a selection holds exactly the rows that satisfy the clause, all owned by the clause's user |
| NoteTable.Without | 99_diploma/index.js:226-236 | a delete keeps exactly the rows that do not satisfy the clause |
| NoteTable.UpdateWhere | 99_diploma/index.js:194-198 | an update rewrites each matching row by the assignment and leaves every other row, and the row count, unchanged |
| NoteTable.First | 99_diploma/index.js:162-166 | `limit(1)` gives a row that is in the table and satisfies the clause, and gives nothing exactly when no row satisfies it |
| NoteTable.UpdatedFirstPresent | 99_diploma/index.js:194-199 | the rows an update returns include the first matching row with the assignment applied |
| NoteTable.UpdateWithoutHits | 99_diploma/index.js:210-216 | an update that matches no row changes nothing |
| NoteTable.WhereWithoutCount | 99_diploma/index.js:233-235 | selected rows plus remaining rows make up the table, so a delete's count is the number of rows the clause selects |
| NoteTable.ByIdAtMostOne | 99_diploma/migrations/20231123123518_notes.js:7 | because ids are unique, a clause naming an id selects at most one row |
| NoteTable.DeleteByIdCount | 99_diploma/index.js:226-230 | deleting by (id, user_id) removes exactly one row when that row exists and none otherwise |
| NoteTable.ToggleInvolution | 99_diploma/index.js:193-199 | negating `is_archived` twice through the same clause restores the table, for a clause that does not test the flag, such as `{ id, user_id }` |
| NoteTable.UpdateSparesOthers | 99_diploma/index.js:193-224 | an update scoped to one user leaves every other user's rows identical and in the same order |
| NoteTable.DeleteSparesOthers | 99_diploma/index.js:226-236 | a delete scoped to one user leaves every other user's rows identical and in the same order |
| NoteTable.WhereAscending | 99_diploma/index.js:130-145 | a selection keeps ascending id order |
| NoteTable.WithoutAscending | 99_diploma/index.js:226-236 | a delete keeps ascending id order |
| NoteTable.UpdateAscending | 99_diploma/index.js:193-224 | an update keeps every id and so ascending id order |
| NoteTable.AppendAscending | 99_diploma/migrations/20231123123518_notes.js:7 | appending a row whose id is above every present id keeps ascending order |
| NoteTable.WhereAppend | 99_diploma/index.js:176-183 | after an insert, a selection gains the new row at the end iff the row satisfies the clause |
| NoteTable.NoHitsNoRows | 99_diploma/index.js:130-141 | a clause that no row satisfies selects nothing |
| NoteListing.ParseAge | 99_diploma/index.js:109-128 | the switch fails exactly on a non-empty age outside the four known values; `archive` alone sets the archive filter; only the two month values set a date bound |
| NoteListing.ListingClause | 99_diploma/index.js:130-141 | the listing clause names no id and a row satisfies it iff the caller owns it, it is archived when the filter asks for archived rows, and it was created at or after the cutoff when there is one |
| NoteListing.AgeSemantics | 99_diploma/index.js:111-141 | a row is listed iff it is the caller's, and archived for `archive`, and created at or after the cutoff for `1month` and `3months`; no other condition applies |
| NoteListing.AllTimeListsAllOwned | 99_diploma/index.js:111-141 | `alltime` and an absent age list every row of the caller, archived or not, in table order |
| NoteListing.PageOf | 99_diploma/index.js:142-145 | page p holds at most 20 rows: the rows at positions (p-1)*20 to p*20-1 of the selection that exist |
| NoteListing.HasMore | 99_diploma/index.js:156 | the page is full (20 rows) iff the selection has at least p*20 rows |
| NoteListing.NoMoreMeansLast | 99_diploma/index.js:156 | when `hasMore` is false, every later page is empty |
| NoteListing.FullLastPage | 99_diploma/index.js:156 | a selection of exactly p*20 rows reports `hasMore` on page p although page p+1 is empty |
| NoteListing.TwentyOneRows | 99_diploma/index.js:142-156 | with 21 rows, page 1 has 20 rows and `hasMore`; page 2 has the last row and no `hasMore` |
| NoteListing.PagesCover | 99_diploma/index.js:142-145 | pages 1 to k read in turn give the first k*20 rows in order, with none skipped or repeated |
| NoteListing.Views | 99_diploma/index.js:147-154 | the `forEach` keeps the page's rows in order with every stored column (the aliases `_id`, `created`, `isArchived` repeat them), and gives row k the rendering of its own stored text as `html` |
| Credentials.FirstWith | 99_diploma/index.js:67-73 | `limit(1)` over a table gives a row of the table that satisfies the condition, and nothing exactly when no row does |
| Credentials.FirstWithAppend | 99_diploma/index.js:56-73 | after a row is appended, a lookup finds what it found before; if it found nothing, it finds the new row iff that row matches |
| Credentials.UserNamed | 99_diploma/index.js:67-73 | the lookup gives a user with that username, and gives nothing exactly when no user has it |
| Credentials.UserWithId | 99_diploma/index.js:86-90 | the lookup gives a user with that id, and gives nothing exactly when no user has it |
| Credentials.SessionWithToken | 99_diploma/index.js:76-80 | the lookup gives a session row with that token, and gives nothing exactly when no row has it |
| Credentials.ResolveSession | 99_diploma/index.js:75-91 | a resolved user exists and is the user of a session holding the token; an unknown token resolves to nothing |
| Credentials.Authenticate | 99_diploma/index.js:42-50 | no or an empty cookie gives no user; a user given is in `users` and is the user of a session holding the cookie; an unknown token gives no user, and a known one the user its session names |
| Credentials.RemoveToken | 99_diploma/index.js:104-106 | revoking removes every row with the token and keeps every other row |
| Credentials.RemoveTokenAbsent | 99_diploma/index.js:104-106 | revoking an unknown token leaves the table unchanged |
| Credentials.RemoveTokenUnique | 99_diploma/index.js:93-106 | revoking a token keeps the remaining tokens unique |
| Credentials.SignupAllowed | 99_diploma/index.js:273-277 | signup passes its guards iff username and password are non-empty, the username contains no U+0000 (the lookup query would throw before anything is written) and no user has that username |
| Credentials.LoginByName | 99_diploma/index.js:256-258 | with unique usernames, the login guard on the user found by name passes iff the password is non-empty and some user of that name stores its digest |
| Credentials.UserNamedAppend | 99_diploma/index.js:56-73 | adding a user does not change what an existing username finds; a new name finds the new user |
| Credentials.UserWithIdAppend | 99_diploma/index.js:56-65 | adding a user does not change what an existing id finds |
| Credentials.SignupThenLogin | 99_diploma/index.js:256-280 | after an allowed signup, the same username and password pass the login guard |
| Credentials.SignupKeepsNamesUnique | 99_diploma/index.js:275-279 | a signup that passes the guards keeps usernames unique |
| Credentials.LiveSessionResolves | 99_diploma/index.js:75-91 | when every session references an existing user, a token resolves to a user iff some session holds it |
| DemoNote.DemoNoteFits | 99_diploma/index.js:282-370 | the demo note's text is 802 characters and free of U+0000, so both columns store title and text unchanged |
| NoteServer.UsersGrow | 99_diploma/migrations/20231123123518_notes.js:12-13 | adding a user keeps every foreign key from sessions and notes valid |
| NoteServer.UpdateKeepsIntegrity | 99_diploma/migrations/20231123123518_notes.js:7-13 | an update whose values fit the columns keeps every row valid, ids ordered and owners existing |
| NoteServer.WithoutKeepsIntegrity | 99_diploma/migrations/20231123123518_notes.js:7-13 | a delete keeps every row valid, ids ordered and owners existing |
| NoteServer.Store.CreateUser | 99_diploma/index.js:56-65 | appends one user with a fresh id and the password's digest, returns that id, and changes nothing else |
| NoteServer.Store.CreateSession | 99_diploma/index.js:93-102 | appends exactly the row (token, user id) and returns the token |
| NoteServer.Store.DeleteSession | 99_diploma/index.js:104-106 | afterwards no row holds the token and all other rows remain; an unknown token changes nothing |
| NoteServer.Store.FindNotes | 99_diploma/index.js:108-159 | fails exactly on an unrecognised age; otherwise its `data` is the rendered rows of page p of the caller's filtered notes, in order, at most 20, each in the table and owned by the caller, and `hasMore` is `HasMore` of the selection, i.e. the page has 20 rows |
| NoteServer.Store.FindNote | 99_diploma/index.js:161-174 | succeeds iff the caller owns a note with that id, and returns that row rendered; otherwise fails with NotFound |
| NoteServer.Store.CreateNote | 99_diploma/index.js:176-191 | fails on a value its column refuses (`InvalidCharacter` or `ValueTooLong`) or an unknown owner and changes nothing; otherwise appends exactly one row with a fresh id, the caller as owner, the values as their columns store them, `is_archived` false and `created_at` now, rendered from the stored text |
| NoteServer.Store.NewUserOwnsNothing | 99_diploma/migrations/20231123123518_notes.js:12-13 | the id the next user will get owns no note yet |
| NoteServer.Store.Update | 99_diploma/index.js:193-224 | the update statement rewrites exactly the matching rows by the assignment, keeps the tables' integrity, contains the updated first match, changes nothing when no row matches, and leaves other users' rows and the other tables unchanged |
| NoteServer.Store.SwitchArchiveNote | 99_diploma/index.js:193-207 | negates `is_archived` of exactly the caller's note with that id and returns the updated row; with no such note it fails and changes nothing; other users' rows are unchanged |
| NoteServer.Store.UpdateNote | 99_diploma/index.js:209-224 | replaces title and text of exactly the caller's note with that id by the values their columns store, and returns it rendered from the stored text; with no such note, or a value a column refuses (`InvalidCharacter` or `ValueTooLong`), it fails and changes nothing; other users' rows are unchanged |
| NoteServer.Store.DeleteNote | 99_diploma/index.js:226-230 | removes the caller's note with that id, if any; returns 1 or 0 accordingly; other users' rows are unchanged |
| NoteServer.Store.DeleteAllArchivedNotes | 99_diploma/index.js:232-236 | removes exactly the caller's archived rows and returns their number; other users' rows are unchanged |
| NoteServer.Store.Login | 99_diploma/index.js:254-262 | creates a session with the fresh token iff the username contains no U+0000 (the lookup query would throw), the username exists, the password is non-empty and its digest equals the stored one; otherwise nothing changes |
| NoteServer.Store.Logout | 99_diploma/index.js:264-268 | deletes the cookie's session iff the cookie resolves to a user, after which it no longer resolves; otherwise nothing changes |
| NoteServer.Store.Register | 99_diploma/index.js:279-280 | after the signup guards, adds exactly one user with the next id and one session with the fresh token for it; the new user owns no note, can log in with the same password, and usernames stay unique |
| NoteServer.Store.Signup | 99_diploma/index.js:270-373 | refused, with no change to any table or id counter, iff the guards fail (including a username containing U+0000, whose lookup throws); otherwise adds exactly one user, one session with the fresh token and one Demo note owned by the new user, advances both id counters by one, and the new user then owns only that note and can log in with the same password |

## Left out

- Express wiring and views: routing, cookie and body parsing, nunjucks rendering,
  redirects, static files and the listen call (index.js:15-25, 38-40, 54, 238-252,
  504-506). Of the handlers, only the guard logic of `/login`, `/logout` and `/signup`
  is modelled. The cookie a handler sets becomes the returned token or flag.
- The note routes (index.js:375-476). Each wraps one repository method and turns any
  failure into a 404. They read `req.user.id` before their `401` check, so with no user
  they fail rather than answer 401. The model keeps the repository methods, which take
  the caller's user id.
- The PDF export route (index.js:478-502): html-pdf's callback is I/O.
- The database connection (index.js:27-36), `crypto` sha256, `nanoid`,
  `markdown.toHTML` and `dayjs()`. They are abstract functions or parameters, as
  described above.
- `99_diploma/frontend-src/api.js`: an HTTP client with no server logic.
- NoteListing.ParseAge: an unrecognised non-empty age is modelled as a failure. In
  index.js it becomes a `created_at >=` bound whose effect depends on how PostgreSQL
  parses the string. A timestamp-shaped string would act as a real bound.
- NoteServer.Store.FindNotes: requires `page >= 1`. In knex-paginate an absent page is
  page 1, a page below 1 is clamped to 1, and a non-numeric page is an error.
  knex-paginate is not part of this model, and neither is the pagination metadata it
  adds beside `data`.
- NoteServer.Store.CreateNote: note ids are unbounded integers. `increments("id")` is a
  32-bit `serial`, so once its sequence has handed out 2147483647 every further insert
  fails; that failure is not modelled, and `CreateNote` succeeds for any `nextNoteId`.
- NoteServer.Store.CreateUser: the same holds for user ids and for the `integer`
  column `user_id`; the exhausted 32-bit sequence of `users` is not modelled.
- Credentials.UserNamed: a username or session token containing U+0000 makes
  PostgreSQL refuse the lookup query, which throws. `/login` and `/signup` refuse such
  a username without changing anything, which is what the throw leaves behind, but
  the error response is not modelled; the lookups themselves, `auth()` and `/logout`
  simply find no row. Passwords reach the database only as base64 digests, which
  contain no U+0000.
- Time zones: the cutoffs and `created_at` are plain integers. There is no time-zone
  or formatting behaviour of `dayjs().format()` against a `timestamp` column.
- Character counting: a column limit counts Dafny characters (Unicode scalar values),
  as PostgreSQL counts characters.
- Absent versus empty: an absent or non-string `title`/`text` in a JSON body is not
  modelled; both are strings. `findUserByUsername` with an undefined username, which
  knex rejects, is not modelled either.
- Non-numeric ids in `/notes/:id`, which PostgreSQL rejects, are not modelled; ids are
  integers.
- Concurrency:
  - the check-then-insert race of signup (index.js:275-279) is not modelled;
  - the atomicity of single statements is assumed.
- The order in which PostgreSQL reports two faults in one `updateNote` (no row and a
  refused value) is not modelled. The model reports `NotFound` first. Both are errors
  that change nothing.
- Whether a failed insert still consumes a value of the id sequence is not modelled. The
  model does not advance the sequence, so ids stay unique either way.
- The `users` and `sessions` migrations are not part of this model. Their constraints
  are as the callers in index.js use them:
  - a session always references an existing user;
  - session tokens are fresh.
- The `search` query parameter is never read by the server, so there is nothing to
  model.

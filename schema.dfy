/** The `notes` table of migrations/20231123123518_notes.js: one row per note and the
    constraints the database enforces on every stored row. */
module NoteSchema {
  import opened Outcomes

  /** `table.string("title", 255)` and `table.string("text", 1000)`. */
  const MaxTitleLength: nat := 255
  const MaxTextLength: nat := 1000

  /** A stored row. `id` comes from `increments`, `created_at` is a timestamp (abstracted
      to an integer instant), `is_archived` and `user_id` are `notNullable`. */
  datatype Note = Note(
    id: int,
    title: string,
    text: string,
    createdAt: int,
    isArchived: bool,
    userId: int)

  /** Both values are within their column widths, as every stored value is. */
  predicate FitsColumns(title: string, text: string)
  {
    |title| <= MaxTitleLength && |text| <= MaxTextLength
  }

  /** What the schema guarantees of every row in the table (the foreign key on `user_id`
      is a property of the whole database and is kept by the store's invariant). */
  predicate ValidNote(n: Note)
  {
    n.id >= 1 && FitsColumns(n.title, n.text)
  }

  /** Only spaces. */
  predicate Blank(s: string)
  {
    forall i :: 0 <= i < |s| ==> s[i] == ' '
  }

  /** What a `character varying(limit)` column makes of an assigned value, following
      PostgreSQL: a value containing U+0000 is no valid text and is refused outright;
      otherwise a value of at most `limit` characters is stored as it is, a longer value
      whose excess characters are all spaces is cut to `limit` characters, and any other
      longer value is refused as too long. */
  function ColumnValue(s: string, limit: nat): (r: Result<string>)
    ensures r.Success? <==> '\0' !in s && (|s| <= limit || Blank(s[limit..]))
    ensures r.Failure? ==> r.error == if '\0' in s then InvalidCharacter else ValueTooLong
    ensures r.Success? ==> |r.value| <= limit && r.value <= s && Blank(s[|r.value|..])
    ensures r.Success? && |s| > limit ==> |r.value| == limit
    ensures '\0' !in s && |s| <= limit ==> r == Success(s)
  {
    if '\0' in s then Failure(InvalidCharacter)
    else if |s| <= limit then Success(s)
    else if Blank(s[limit..]) then Success(s[..limit])
    else Failure(ValueTooLong)
  }

  /** A value exactly `limit` characters long and free of U+0000, followed by `pad`, is
      accepted exactly when `pad` is all spaces, and is then stored without the padding:
      255 letters followed by a space make a 255-letter title. */
  lemma PaddingCut(s: string, pad: string, limit: nat)
    requires |s| == limit && '\0' !in s
    ensures ColumnValue(s + pad, limit).Success? <==> Blank(pad)
    ensures Blank(pad) ==> ColumnValue(s + pad, limit) == Success(s)
  {
    assert (s + pad)[limit..] == pad;
    assert (s + pad)[..limit] == s;
    if pad == [] {
      assert s + pad == s;
    }
    if Blank(pad) {
      assert '\0' !in pad;
      assert '\0' !in s + pad;
    }
  }

  /** Both columns accept the values of a write of (title, text). */
  predicate Accepted(title: string, text: string)
  {
    ColumnValue(title, MaxTitleLength).Success? && ColumnValue(text, MaxTextLength).Success?
  }

  /** The error a refused write of (title, text) reports. The parameters are checked as text
      before their column widths, so U+0000 in either value is reported first. */
  function Refusal(title: string, text: string): Error
  {
    if '\0' in title || '\0' in text then InvalidCharacter else ValueTooLong
  }

  /** An INSERT of (title, text, user_id) with the server-assigned `id` and the column
      defaults: `created_at` is the insertion time, `is_archived` is false. The database
      refuses a value its column does not accept, and stores an accepted one as its column
      makes it. */
  function InsertRow(id: int, title: string, text: string, userId: int, now: int): (r: Result<Note>)
    requires id >= 1
    ensures r.Success? <==> Accepted(title, text)
    ensures r.Failure? ==> r.error == Refusal(title, text)
    ensures r.Success? ==> ValidNote(r.value)
    ensures r.Success? ==> r.value.id == id && r.value.userId == userId
    ensures r.Success? ==> r.value.title == ColumnValue(title, MaxTitleLength).value
    ensures r.Success? ==> r.value.text == ColumnValue(text, MaxTextLength).value
    ensures r.Success? ==> !r.value.isArchived && r.value.createdAt == now
    ensures FitsColumns(title, text) && '\0' !in title && '\0' !in text ==>
      r.Success? && r.value.title == title && r.value.text == text
  {
    if Accepted(title, text) then
      Success(Note(id, ColumnValue(title, MaxTitleLength).value, ColumnValue(text, MaxTextLength).value, now, false, userId))
    else Failure(Refusal(title, text))
  }

  /** The row with its `title` and `text` columns replaced, as `UPDATE ... SET title, text`
      leaves it; a valid row stays valid exactly when the new values fit their columns. */
  function WithContent(n: Note, title: string, text: string): (r: Note)
    ensures ValidNote(n) ==> (ValidNote(r) <==> FitsColumns(title, text))
  {
    n.(title := title, text := text)
  }

  /** The row with its archive flag negated, as `UPDATE ... SET is_archived = NOT is_archived`
      leaves it. */
  function ToggleRow(n: Note): (r: Note)
    ensures r.isArchived == !n.isArchived
    ensures r.(isArchived := n.isArchived) == n
    ensures ValidNote(r) <==> ValidNote(n)
  {
    n.(isArchived := !n.isArchived)
  }
}

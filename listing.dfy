/** The listing query of findNotes: the age filter chosen by the switch, the user-scoped
    selection, the fixed page of 20 rows, the `hasMore` flag and the JSON view of a row. */
module NoteListing {
  import opened Outcomes
  import opened NoteSchema
  import opened NoteTable

  /** `perPage: 20`. */
  const PageSize: nat := 20

  /** The locals `age` (as a `created_at` lower bound) and `archive` after the switch. */
  datatype AgeFilter = AgeFilter(since: Option<int>, archivedOnly: bool)

  /** The switch on `age`. The two cutoffs stand for `dayjs().subtract(1, "month")` and
      `dayjs().subtract(3, "month")`; an absent age is the empty string (both are falsy). */
  function ParseAge(age: string, oneMonthAgo: int, threeMonthsAgo: int): (r: Result<AgeFilter>)
    ensures r.Failure? <==> age !in {"", "alltime", "archive", "1month", "3months"}
    ensures r.Failure? ==> r.error == UnrecognisedAge
    ensures r.Success? ==> (r.value.archivedOnly <==> age == "archive")
    ensures r.Success? ==> (r.value.since.Some? <==> age in {"1month", "3months"})
  {
    if age == "" || age == "alltime" then Success(AgeFilter(None, false))
    else if age == "archive" then Success(AgeFilter(None, true))
    else if age == "1month" then Success(AgeFilter(Some(oneMonthAgo), false))
    else if age == "3months" then Success(AgeFilter(Some(threeMonthsAgo), false))
    else Failure(UnrecognisedAge)
  }

  /** `.where({ user_id: userId })` refined by the `.modify(...)` callback. */
  function ListingClause(userId: int, f: AgeFilter): (r: Clause)
    ensures r.id.None?
    ensures forall n :: Hits(r, n) <==>
      && n.userId == userId
      && (f.archivedOnly ==> n.isArchived)
      && (f.since.Some? ==> n.createdAt >= f.since.value)
  {
    Clause(userId, None, if f.archivedOnly then Some(true) else None, f.since)
  }

  /** The rows findNotes pages over, in id order. */
  function Selected(notes: seq<Note>, userId: int, f: AgeFilter): seq<Note>
  {
    Where(notes, ListingClause(userId, f))
  }

  /** What each age value lists: always only the caller's rows; "archive" only archived
      rows; the two month values only rows created at or after their cutoff; "alltime" and
      an absent age every row of the caller, archived ones included. */
  lemma AgeSemantics(notes: seq<Note>, userId: int, age: string, oneMonthAgo: int, threeMonthsAgo: int, n: Note)
    requires ParseAge(age, oneMonthAgo, threeMonthsAgo).Success?
    ensures var f := ParseAge(age, oneMonthAgo, threeMonthsAgo).value;
      n in Selected(notes, userId, f) <==>
        && n in notes && n.userId == userId
        && (age == "archive" ==> n.isArchived)
        && (age == "1month" ==> n.createdAt >= oneMonthAgo)
        && (age == "3months" ==> n.createdAt >= threeMonthsAgo)
  {
  }

  /** "alltime" and an absent age list exactly the caller's rows, in table order. */
  lemma AllTimeListsAllOwned(notes: seq<Note>, userId: int, age: string, oneMonthAgo: int, threeMonthsAgo: int)
    requires age == "" || age == "alltime"
    ensures ParseAge(age, oneMonthAgo, threeMonthsAgo).Success?
    ensures Selected(notes, userId, ParseAge(age, oneMonthAgo, threeMonthsAgo).value) == Where(notes, OwnerIs(userId))
  {
  }

  function Min(a: int, b: int): int
  {
    if a <= b then a else b
  }

  /** `.paginate({ perPage: 20, currentPage: page })`: the page-th slice of 20 rows. */
  function PageOf<T>(rows: seq<T>, page: int): (r: seq<T>)
    requires page >= 1
    ensures |r| <= PageSize
    ensures |r| == if |rows| <= (page - 1) * PageSize then 0 else Min(PageSize, |rows| - (page - 1) * PageSize)
    ensures forall k :: 0 <= k < |r| ==> r[k] == rows[(page - 1) * PageSize + k]
  {
    rows[Min((page - 1) * PageSize, |rows|)..Min(page * PageSize, |rows|)]
  }

  /** `data.data.length === 20`: the page is full, which is the case exactly when the
      selection reaches the end of the requested page. */
  predicate HasMore<T>(rows: seq<T>, page: int)
    requires page >= 1
    ensures HasMore(rows, page) <==> |rows| >= page * PageSize
  {
    |PageOf(rows, page)| == PageSize
  }

  /** A page without `hasMore` is the last one: every later page is empty. */
  lemma NoMoreMeansLast<T>(rows: seq<T>, page: int, later: int)
    requires page >= 1 && later > page
    requires !HasMore(rows, page)
    ensures PageOf(rows, later) == []
  {
    assert |rows| <= (later - 1) * PageSize by {
      assert (later - 1) * PageSize >= page * PageSize;
    }
  }

  /** The flag is an approximation: a selection that ends exactly on a page boundary
      reports `hasMore` on its last page although the next page is empty. */
  lemma FullLastPage<T>(rows: seq<T>, page: int)
    requires page >= 1 && |rows| == page * PageSize
    ensures HasMore(rows, page)
    ensures PageOf(rows, page + 1) == []
  {
  }

  /** Twenty-one selected rows: page 1 is full and reports `hasMore`, page 2 holds the last
      row and does not. */
  lemma TwentyOneRows<T>(rows: seq<T>)
    requires |rows| == 21
    ensures |PageOf(rows, 1)| == 20 && HasMore(rows, 1)
    ensures PageOf(rows, 2) == [rows[20]] && !HasMore(rows, 2)
  {
  }

  /** Pages 1 to k, concatenated. */
  function FirstPages<T>(rows: seq<T>, k: nat): seq<T>
  {
    if k == 0 then [] else FirstPages(rows, k - 1) + PageOf(rows, k)
  }

  /** Reading pages 1, 2, ..., k in turn yields the first k * 20 rows of the selection in
      order, with no row skipped or repeated; so every row appears on exactly one page. */
  lemma {:induction false} PagesCover<T>(rows: seq<T>, k: nat)
    ensures FirstPages(rows, k) == rows[..Min(k * PageSize, |rows|)]
  {
    if k > 0 {
      PagesCover(rows, k - 1);
      var m := (k - 1) * PageSize;
      assert k * PageSize == m + PageSize;
      var lo := Min(m, |rows|);
      var hi := Min(m + PageSize, |rows|);
      assert FirstPages(rows, k) == rows[..lo] + rows[lo..hi];
      assert rows[..lo] + rows[lo..hi] == rows[..hi];
    }
  }

  /** A row as findNotes and the other read paths return it: the stored columns (which also
      appear under the aliases `_id`, `created` and `isArchived`) and the rendered `html`. */
  datatype NoteView = NoteView(note: Note, html: string)

  /** The `forEach` over a page: each row with its text rendered as `html`, in page order. */
  function Views(rows: seq<Note>, toHtml: string -> string): (r: seq<NoteView>)
    ensures |r| == |rows|
    ensures forall k :: 0 <= k < |rows| ==> r[k].note == rows[k] && r[k].html == toHtml(rows[k].text)
  {
    if rows == [] then [] else [NoteView(rows[0], toHtml(rows[0].text))] + Views(rows[1..], toHtml)
  }

  /** The object findNotes resolves to. */
  datatype NotesPage = NotesPage(data: seq<NoteView>, hasMore: bool)
}

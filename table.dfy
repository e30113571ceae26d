/** The `notes` table as a sequence of rows in ascending id order, and the knex statements
    index.js runs against it: `where(...)` selections, `update(...)` and `delete()`. */
module NoteTable {
  import opened Outcomes
  import opened NoteSchema

  /** A where-clause of the repository. Every statement in index.js scopes its rows by the
      caller's `user_id`; `id`, `is_archived` and the `created_at >=` bound are optional. */
  datatype Clause = Clause(userId: int, id: Option<int>, archived: Option<bool>, since: Option<int>)

  /** `.where({ id, user_id: userId })`, used by every per-note operation. */
  function ById(userId: int, id: int): Clause
  {
    Clause(userId, Some(id), None, None)
  }

  /** `.where({ user_id: userId })`: all of one user's rows. */
  function OwnerIs(userId: int): Clause
  {
    Clause(userId, None, None, None)
  }

  /** `.where({ is_archived: true, user_id: userId })`, used by the bulk delete. */
  function ArchivedOf(userId: int): Clause
  {
    Clause(userId, None, Some(true), None)
  }

  predicate Hits(c: Clause, n: Note)
  {
    && n.userId == c.userId
    && (c.id.Some? ==> n.id == c.id.value)
    && (c.archived.Some? ==> n.isArchived == c.archived.value)
    && (c.since.Some? ==> n.createdAt >= c.since.value)
  }

  /** The rows are ordered by id, so no id occurs twice. */
  ghost predicate IdsAscending(notes: seq<Note>)
  {
    forall i, j :: 0 <= i < j < |notes| ==> notes[i].id < notes[j].id
  }

  /** `SELECT * ... WHERE c`, in table order. */
  function Where(notes: seq<Note>, c: Clause): (r: seq<Note>)
    ensures |r| <= |notes|
    ensures forall n :: n in r <==> n in notes && Hits(c, n)
    ensures forall n :: n in r ==> n.userId == c.userId
  {
    if notes == [] then []
    else if Hits(c, notes[0]) then [notes[0]] + Where(notes[1..], c)
    else Where(notes[1..], c)
  }

  /** `DELETE ... WHERE c`: the rows that remain, in table order. */
  function Without(notes: seq<Note>, c: Clause): (r: seq<Note>)
    ensures |r| <= |notes|
    ensures forall n :: n in r <==> n in notes && !Hits(c, n)
  {
    if notes == [] then []
    else if Hits(c, notes[0]) then Without(notes[1..], c)
    else [notes[0]] + Without(notes[1..], c)
  }

  /** The assignments of the two `update(...)` calls in index.js. */
  datatype Assignment = NegateArchived | SetContent(title: string, text: string)

  function Apply(a: Assignment, n: Note): Note
  {
    match a
    case NegateArchived => ToggleRow(n)
    case SetContent(title, text) => WithContent(n, title, text)
  }

  /** `UPDATE ... SET a WHERE c`: matching rows are rewritten in place, all others kept. */
  function UpdateWhere(notes: seq<Note>, c: Clause, a: Assignment): (r: seq<Note>)
    ensures |r| == |notes|
    ensures forall k :: 0 <= k < |notes| ==> r[k] == if Hits(c, notes[k]) then Apply(a, notes[k]) else notes[k]
  {
    if notes == [] then []
    else [if Hits(c, notes[0]) then Apply(a, notes[0]) else notes[0]] + UpdateWhere(notes[1..], c, a)
  }

  /** `.select().where(c).limit(1).then((res) => res[0])`: the first matching row, if any. */
  function First(notes: seq<Note>, c: Clause): (r: Option<Note>)
    ensures r.Some? ==> r.value in notes && Hits(c, r.value)
    ensures r.None? <==> forall k :: 0 <= k < |notes| ==> !Hits(c, notes[k])
  {
    var rows := Where(notes, c);
    if rows == [] then None else Some(rows[0])
  }

  /** The rows `.update(...).returning("*")` hands back include the first matching row
      with the assignment applied. */
  lemma UpdatedFirstPresent(notes: seq<Note>, c: Clause, a: Assignment)
    requires First(notes, c).Some?
    ensures Apply(a, First(notes, c).value) in UpdateWhere(notes, c, a)
  {
    var n := First(notes, c).value;
    var k :| 0 <= k < |notes| && notes[k] == n;
    assert UpdateWhere(notes, c, a)[k] == Apply(a, n);
  }

  // ---- Properties of the statements ----

  /** A selection and the matching deletion split the table: every row is either selected or
      kept, so the count a delete returns is the number of rows the clause selects. */
  lemma {:induction false} WhereWithoutCount(notes: seq<Note>, c: Clause)
    ensures |Where(notes, c)| + |Without(notes, c)| == |notes|
  {
    if notes != [] {
      WhereWithoutCount(notes[1..], c);
    }
  }

  /** Selection keeps the ascending id order of the table. */
  lemma {:induction false} WhereAscending(notes: seq<Note>, c: Clause)
    requires IdsAscending(notes)
    ensures IdsAscending(Where(notes, c))
  {
    if notes != [] {
      WhereAscending(notes[1..], c);
      InTailAbove(notes);
    }
  }

  /** Deletion keeps the ascending id order of the table. */
  lemma {:induction false} WithoutAscending(notes: seq<Note>, c: Clause)
    requires IdsAscending(notes)
    ensures IdsAscending(Without(notes, c))
  {
    if notes != [] {
      WithoutAscending(notes[1..], c);
      InTailAbove(notes);
    }
  }

  lemma InTailAbove(notes: seq<Note>)
    requires IdsAscending(notes) && notes != []
    ensures forall n :: n in notes[1..] ==> notes[0].id < n.id
  {
    forall n | n in notes[1..] ensures notes[0].id < n.id {
      var k :| 0 <= k < |notes[1..]| && notes[1..][k] == n;
      assert notes[k + 1] == n;
    }
  }

  /** An update whose clause matches no row leaves the table as it was. */
  lemma UpdateWithoutHits(notes: seq<Note>, c: Clause, a: Assignment)
    requires First(notes, c).None?
    ensures UpdateWhere(notes, c, a) == notes
  {
  }

  /** An update keeps every id, hence the ascending order. */
  lemma UpdateAscending(notes: seq<Note>, c: Clause, a: Assignment)
    requires IdsAscending(notes)
    ensures IdsAscending(UpdateWhere(notes, c, a))
  {
    var r := UpdateWhere(notes, c, a);
    forall i, j | 0 <= i < j < |r| ensures r[i].id < r[j].id {
      assert r[i].id == notes[i].id && r[j].id == notes[j].id;
    }
  }

  /** Because ids are unique, a clause that names an id selects at most one row. */
  lemma {:induction false} ByIdAtMostOne(notes: seq<Note>, c: Clause)
    requires IdsAscending(notes) && c.id.Some?
    ensures |Where(notes, c)| <= 1
  {
    if notes != [] {
      ByIdAtMostOne(notes[1..], c);
      if Hits(c, notes[0]) && Where(notes[1..], c) != [] {
        var n := Where(notes[1..], c)[0];
        assert n in notes[1..];
        InTailAbove(notes);
        assert false;
      }
    }
  }

  /** Deleting one note by (id, user_id) removes exactly one row when `First` finds it and
      no row otherwise. */
  lemma DeleteByIdCount(notes: seq<Note>, userId: int, id: int)
    requires IdsAscending(notes)
    ensures |notes| - |Without(notes, ById(userId, id))| == if First(notes, ById(userId, id)).Some? then 1 else 0
  {
    WhereWithoutCount(notes, ById(userId, id));
    ByIdAtMostOne(notes, ById(userId, id));
  }

  /** Negating the archive flag twice restores the table, provided the clause does not
      itself test the flag (true of `ById`). */
  lemma {:induction false} ToggleInvolution(notes: seq<Note>, c: Clause)
    requires c.archived.None?
    ensures UpdateWhere(UpdateWhere(notes, c, NegateArchived), c, NegateArchived) == notes
  {
    if notes != [] {
      ToggleInvolution(notes[1..], c);
    }
  }

  /** Operations scoped to one user leave every other user's rows exactly as they were:
      the same rows in the same order. */
  lemma {:induction false} UpdateSparesOthers(notes: seq<Note>, c: Clause, a: Assignment, other: int)
    requires other != c.userId
    ensures Where(UpdateWhere(notes, c, a), OwnerIs(other)) == Where(notes, OwnerIs(other))
  {
    if notes != [] {
      UpdateSparesOthers(notes[1..], c, a, other);
      assert UpdateWhere(notes, c, a)[1..] == UpdateWhere(notes[1..], c, a);
    }
  }

  lemma {:induction false} DeleteSparesOthers(notes: seq<Note>, c: Clause, other: int)
    requires other != c.userId
    ensures Where(Without(notes, c), OwnerIs(other)) == Where(notes, OwnerIs(other))
  {
    if notes != [] {
      DeleteSparesOthers(notes[1..], c, other);
    }
  }

  /** A clause no row satisfies selects nothing. */
  lemma {:induction false} NoHitsNoRows(notes: seq<Note>, c: Clause)
    requires forall n :: n in notes ==> !Hits(c, n)
    ensures Where(notes, c) == []
  {
    if notes != [] {
      NoHitsNoRows(notes[1..], c);
    }
  }

  /** Appending a row with a larger id than any present keeps the order. */
  lemma AppendAscending(notes: seq<Note>, n: Note)
    requires IdsAscending(notes)
    requires forall m :: m in notes ==> m.id < n.id
    ensures IdsAscending(notes + [n])
  {
    var r := notes + [n];
    forall i, j | 0 <= i < j < |r| ensures r[i].id < r[j].id {
      if j == |notes| {
        assert r[i] in notes;
      }
    }
  }

  /** A freshly appended row gives its owner one more row, at the end, and others none. */
  lemma {:induction false} WhereAppend(notes: seq<Note>, n: Note, c: Clause)
    ensures Where(notes + [n], c) == Where(notes, c) + (if Hits(c, n) then [n] else [])
  {
    if notes == [] {
      assert notes + [n] == [n];
    } else {
      assert (notes + [n])[1..] == notes[1..] + [n];
      WhereAppend(notes[1..], n, c);
    }
  }
}

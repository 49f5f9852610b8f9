/** The todo record of models/todo.go, its serialiser, its errors and the
    meaning of each SQL statement the store issues, stated on an in-memory
    table that maps the `id` column to the row. */
module Todo {
  import opened Wrappers
  import opened Utils

  /** One row of the `todos` table. Timestamps are opaque integers. */
  datatype Todo = Todo(
    id: nat,
    title: NullString,
    note: NullString,
    createdAt: int,
    modifiedAt: int,
    dueAt: NullTime,
    userId: nat,
    completedAt: NullTime,
    isDone: bool)

  /** The page size of GetAllTodos. */
  const ResultsPerPage: nat := 10

  /** ErrorEmptyTodo, ErrorRowsUnaffected, and sql.ErrNoRows from QueryRow. */
  datatype Error = EmptyTodo | RowsUnaffected | NoRows

  // ---------------------------------------------------------------------
  // Serialize
  // ---------------------------------------------------------------------

  /** The dynamic values a serialised todo holds (Go's interface{}). */
  datatype Value = UintV(u: nat) | BoolV(b: bool) | TimeV(t: int) | StringV(s: string)

  const AlwaysKeys: set<string> := {"id", "isDone", "createdAt", "modifiedAt"}
  const OptionalKeys: set<string> := {"title", "note", "dueAt", "completedAt"}

  /** Serialize maps a todo to a key/value map; a NULL column has no key. */
  function Serialize(t: Todo): (m: map<string, Value>)
    ensures "id" in m && m["id"] == UintV(t.id)
    ensures "isDone" in m && m["isDone"] == BoolV(t.isDone)
    ensures "createdAt" in m && m["createdAt"] == TimeV(t.createdAt)
    ensures "modifiedAt" in m && m["modifiedAt"] == TimeV(t.modifiedAt)
    ensures ("title" in m <==> t.title.valid) && (t.title.valid ==> m["title"] == StringV(t.title.str))
    ensures ("note" in m <==> t.note.valid) && (t.note.valid ==> m["note"] == StringV(t.note.str))
    ensures ("dueAt" in m <==> t.dueAt.valid) && (t.dueAt.valid ==> m["dueAt"] == TimeV(t.dueAt.time))
    ensures ("completedAt" in m <==> t.completedAt.valid)
            && (t.completedAt.valid ==> m["completedAt"] == TimeV(t.completedAt.time))
    ensures m.Keys <= AlwaysKeys + OptionalKeys
  {
    var base := map["id" := UintV(t.id), "isDone" := BoolV(t.isDone),
                     "createdAt" := TimeV(t.createdAt), "modifiedAt" := TimeV(t.modifiedAt)];
    var withTitle := if t.title.valid then base["title" := StringV(t.title.str)] else base;
    var withNote := if t.note.valid then withTitle["note" := StringV(t.note.str)] else withTitle;
    var withDue := if t.dueAt.valid then withNote["dueAt" := TimeV(t.dueAt.time)] else withNote;
    if t.completedAt.valid then withDue["completedAt" := TimeV(t.completedAt.time)] else withDue
  }

  /** What a client can see of a todo: everything but the owner, with the
      contents of a NULL column erased. */
  function Visible(t: Todo): Todo {
    t.(title := Stored(t.title),
       note := Stored(t.note),
       dueAt := if t.dueAt.valid then t.dueAt else NullTimeNone,
       completedAt := if t.completedAt.valid then t.completedAt else NullTimeNone,
       userId := 0)
  }

  /** Two todos serialise alike exactly when they look alike: Serialize
      drops the owner and the contents of NULL columns, and nothing else. */
  lemma SerializeExactlyVisible(a: Todo, b: Todo)
    ensures Serialize(a) == Serialize(b) <==> Visible(a) == Visible(b)
  {
    var ma, mb := Serialize(a), Serialize(b);
    if ma == mb {
      assert ma["id"] == mb["id"] && ma["isDone"] == mb["isDone"];
      assert ma["createdAt"] == mb["createdAt"] && ma["modifiedAt"] == mb["modifiedAt"];
      assert a.title.valid == b.title.valid && a.note.valid == b.note.valid;
      assert a.dueAt.valid == b.dueAt.valid && a.completedAt.valid == b.completedAt.valid;
      if a.title.valid { assert ma["title"] == mb["title"]; }
      if a.note.valid { assert ma["note"] == mb["note"]; }
      if a.dueAt.valid { assert ma["dueAt"] == mb["dueAt"]; }
      if a.completedAt.valid { assert ma["completedAt"] == mb["completedAt"]; }
    }
    if Visible(a) == Visible(b) {
      assert ma.Keys == mb.Keys;
      forall k | k in ma ensures ma[k] == mb[k] {
      }
    }
  }

  /** The four always-present keys plus one key per present nullable column. */
  lemma SerializeSize(t: Todo)
    ensures |Serialize(t)| == 4 + (if t.title.valid then 1 else 0) + (if t.note.valid then 1 else 0)
                                + (if t.dueAt.valid then 1 else 0) + (if t.completedAt.valid then 1 else 0)
  {
    var base := map["id" := UintV(t.id), "isDone" := BoolV(t.isDone),
                     "createdAt" := TimeV(t.createdAt), "modifiedAt" := TimeV(t.modifiedAt)];
    assert |base| == 4 by { assert base.Keys == AlwaysKeys; }
    var withTitle := if t.title.valid then base["title" := StringV(t.title.str)] else base;
    var withNote := if t.note.valid then withTitle["note" := StringV(t.note.str)] else withTitle;
    var withDue := if t.dueAt.valid then withNote["dueAt" := TimeV(t.dueAt.time)] else withNote;
    var full := if t.completedAt.valid then withDue["completedAt" := TimeV(t.completedAt.time)] else withDue;
    assert "title" !in base && "note" !in withTitle && "dueAt" !in withNote && "completedAt" !in withDue;
    assert full == Serialize(t);
  }

  // ---------------------------------------------------------------------
  // The table and the SQL statements
  // ---------------------------------------------------------------------

  /** The `todos` table, keyed by its `id` column. */
  type Table = map<nat, Todo>

  /** Each row is stored under its own id, and ids below `nextId` are the
      only ones the serial column has handed out. */
  ghost predicate WellFormed(table: Table, nextId: nat) {
    forall k :: k in table ==> table[k].id == k && k < nextId
  }

  /** The row `todoId` exists and belongs to `userId`. */
  predicate Owns(table: Table, todoId: nat, userId: nat) {
    todoId in table && table[todoId].userId == userId
  }

  /** The rows selected by `WHERE id = $1 AND user_id = $2`. */
  function Matching(table: Table, todoId: nat, userId: nat): (s: set<nat>)
    ensures s == if Owns(table, todoId, userId) then {todoId} else {}
  {
    set k | k in table && k == todoId && table[k].userId == userId
  }

  /** The "exactly one affected row" check of every mutating statement. */
  function CheckAffected(count: nat): Option<Error> {
    if count != 1 then Some(RowsUnaffected) else None
  }

  /** The error an ownership-scoped UPDATE or DELETE reports. */
  function AffectedBy(table: Table, todoId: nat, userId: nat): (r: Option<Error>)
    ensures r == None <==> Owns(table, todoId, userId)
    ensures r != None ==> r == Some(RowsUnaffected)
  {
    CheckAffected(|Matching(table, todoId, userId)|)
  }

  // --- CreateTodo -------------------------------------------------------

  /** The emptiness check of CreateTodo reads the strings, not `valid`. */
  predicate IsEmptyTodo(t: Todo) {
    |t.title.str| == 0 && |t.note.str| == 0
  }

  /** The row `INSERT INTO todos (title, note, user_id)` adds: title and
      note as the column stores them, and the other columns at their
      defaults (both timestamps `now`, NULL due and completion times, not
      done). */
  function NewRow(id: nat, t: Todo, now: int): Todo {
    Todo(id, Stored(t.title), Stored(t.note), now, now, NullTimeNone, t.userId, NullTimeNone, false)
  }

  /** The error CreateTodo returns: the emptiness check, then the count
      check on the single inserted row. */
  function CreateResult(t: Todo): (r: Option<Error>)
    ensures r == None <==> !IsEmptyTodo(t)
    ensures r != None ==> r == Some(EmptyTodo)
  {
    if IsEmptyTodo(t) then Some(EmptyTodo) else CheckAffected(1)
  }

  /** Reading the inserted row back as its owner gives the row, with title
      and note as sent when present and as the empty NULL when not; the
      client's view of it is that of the todo sent, apart from the columns
      the insert fills itself. */
  lemma InsertThenSelect(table: Table, nextId: nat, t: Todo, now: int)
    requires WellFormed(table, nextId)
    ensures var row := NewRow(nextId, t, now);
            && SelectById(table[nextId := row], nextId, t.userId) == Ok(row)
            && row.id == nextId && row.userId == t.userId
            && row.title.valid == t.title.valid && row.note.valid == t.note.valid
            && (t.title.valid ==> row.title == t.title) && (t.note.valid ==> row.note == t.note)
            && (!t.title.valid ==> row.title.str == "") && (!t.note.valid ==> row.note.str == "")
            && !row.isDone && !row.dueAt.valid && !row.completedAt.valid
    ensures Visible(NewRow(nextId, t, now))
         == Visible(t.(id := nextId, createdAt := now, modifiedAt := now, dueAt := NullTimeNone,
                       completedAt := NullTimeNone, isDone := false))
  {
  }

  lemma InsertWellFormed(table: Table, nextId: nat, t: Todo, now: int)
    requires WellFormed(table, nextId)
    ensures nextId !in table
    ensures WellFormed(table[nextId := NewRow(nextId, t, now)], nextId + 1)
  {
  }

  // --- GetAllTodos ------------------------------------------------------

  /** The rows `WHERE user_id = $1 AND id > $3` selects before `LIMIT`. */
  function PageCandidates(table: Table, userId: nat, previousId: nat): set<nat> {
    set k | k in table && table[k].userId == userId && k > previousId
  }

  function Min(a: nat, b: nat): nat {
    if a < b then a else b
  }

  /** The ids of a list of todos. */
  function IdsOf(todos: seq<Todo>): set<nat> {
    set i | 0 <= i < |todos| :: todos[i].id
  }

  /** A page that holds distinct candidate rows, as many as LIMIT lets
      through, holds every candidate when there are no more than a page. */
  lemma {:induction false} ShortPageIsComplete(page: set<nat>, candidates: set<nat>)
    requires page <= candidates
    requires |page| == Min(ResultsPerPage, |candidates|)
    requires |candidates| <= ResultsPerPage
    ensures page == candidates
  {
    var rest := candidates - page;
    assert |rest| == |candidates| - |page|;
  }

  // --- GetTodo ----------------------------------------------------------

  /** `SELECT * FROM todos WHERE id = $1 AND user_id = $2` through
      QueryRow: the matching row, or ErrNoRows. */
  function SelectById(table: Table, todoId: nat, userId: nat): (r: Result<Todo, Error>)
    ensures r.Ok? <==> Owns(table, todoId, userId)
    ensures r.Ok? ==> r.value == table[todoId]
    ensures r.Err? ==> r.error == NoRows
  {
    var s := Matching(table, todoId, userId);
    if s == {} then Err(NoRows) else Ok(table[todoId])
  }

  // --- MarkTodoAsComplete -----------------------------------------------

  /** `SET completed_at = $3, is_done = TRUE` on one row. */
  function Completed(row: Todo, now: int): Todo {
    row.(completedAt := NullTime(now, true), isDone := true)
  }

  /** The table after the completing UPDATE: only the owned row changes. */
  function CompleteWhere(table: Table, todoId: nat, userId: nat, now: int): (r: Table)
    ensures r == if Owns(table, todoId, userId) then table[todoId := Completed(table[todoId], now)] else table
  {
    var s := Matching(table, todoId, userId);
    map k | k in table :: if k in s then Completed(table[k], now) else table[k]
  }

  /** Completing twice is completing once at the later time. */
  lemma CompleteTwice(table: Table, todoId: nat, userId: nat, first: int, second: int)
    ensures CompleteWhere(CompleteWhere(table, todoId, userId, first), todoId, userId, second)
         == CompleteWhere(table, todoId, userId, second)
    ensures Owns(table, todoId, userId) ==>
              var row := CompleteWhere(CompleteWhere(table, todoId, userId, first), todoId, userId, second)[todoId];
              row.isDone && row.completedAt == NullTime(second, true)
  {
    var once := CompleteWhere(table, todoId, userId, first);
    assert Owns(once, todoId, userId) == Owns(table, todoId, userId);
  }

  /** Completing changes exactly the two completion columns. */
  lemma CompletedChangesOnlyCompletion(row: Todo, now: int)
    ensures Completed(row, now).isDone && Completed(row, now).completedAt == NullTime(now, true)
    ensures Completed(row, now).(completedAt := row.completedAt, isDone := row.isDone) == row
  {
  }

  lemma CompleteWellFormed(table: Table, nextId: nat, todoId: nat, userId: nat, now: int)
    requires WellFormed(table, nextId)
    ensures WellFormed(CompleteWhere(table, todoId, userId, now), nextId)
  {
  }

  // --- UpdateTodo -------------------------------------------------------

  /** `SET title = $3, note = $4, modified_at = $5` on one row. */
  function Updated(row: Todo, t: Todo): Todo {
    row.(title := Stored(t.title), note := Stored(t.note), modifiedAt := t.modifiedAt)
  }

  /** The table after the updating UPDATE: only the owned row changes. */
  function UpdateWhere(table: Table, t: Todo): (r: Table)
    ensures r == if Owns(table, t.id, t.userId) then table[t.id := Updated(table[t.id], t)] else table
  {
    var s := Matching(table, t.id, t.userId);
    map k | k in table :: if k in s then Updated(table[k], t) else table[k]
  }

  /** What UpdateTodo returns: its own argument, or RowsUnaffected. */
  function UpdateResult(table: Table, t: Todo): (r: Result<Todo, Error>)
    ensures r.Ok? <==> Owns(table, t.id, t.userId)
    ensures r.Ok? ==> r.value == t
    ensures r.Err? ==> r.error == RowsUnaffected
  {
    match AffectedBy(table, t.id, t.userId)
    case None => Ok(t)
    case Some(e) => Err(e)
  }

  /** Updating changes exactly the title, note and modification time. */
  lemma UpdatedChangesOnlyContent(row: Todo, t: Todo)
    ensures Updated(row, t).title.valid == t.title.valid && Updated(row, t).note.valid == t.note.valid
    ensures t.title.valid ==> Updated(row, t).title == t.title
    ensures t.note.valid ==> Updated(row, t).note == t.note
    ensures !t.title.valid ==> Updated(row, t).title.str == ""
    ensures !t.note.valid ==> Updated(row, t).note.str == ""
    ensures Updated(row, t).modifiedAt == t.modifiedAt
    ensures Updated(row, t).(title := row.title, note := row.note, modifiedAt := row.modifiedAt) == row
  {
  }

  lemma UpdateWellFormed(table: Table, nextId: nat, t: Todo)
    requires WellFormed(table, nextId)
    ensures WellFormed(UpdateWhere(table, t), nextId)
  {
  }

  // --- DeleteTodo -------------------------------------------------------

  /** The table after `DELETE FROM todos WHERE id = $1 AND user_id = $2`. */
  function DeleteWhere(table: Table, todoId: nat, userId: nat): (r: Table)
    ensures r == if Owns(table, todoId, userId) then table - {todoId} else table
  {
    var s := Matching(table, todoId, userId);
    map k | k in table && k !in s :: table[k]
  }

  /** What DeleteTodo returns: the deleted id, or 0 with RowsUnaffected. */
  function DeleteResult(table: Table, todoId: nat, userId: nat): (r: (nat, Option<Error>))
    ensures r.1 == None <==> Owns(table, todoId, userId)
    ensures r.1 == None ==> r.0 == todoId
    ensures r.1 != None ==> r == (0, Some(RowsUnaffected))
  {
    match AffectedBy(table, todoId, userId)
    case None => (todoId, None)
    case Some(e) => (0, Some(e))
  }

  lemma DeleteWellFormed(table: Table, nextId: nat, todoId: nat, userId: nat)
    requires WellFormed(table, nextId)
    ensures WellFormed(DeleteWhere(table, todoId, userId), nextId)
  {
  }

  // ---------------------------------------------------------------------
  // Ownership isolation and the nullable-string interaction
  // ---------------------------------------------------------------------

  /** A todo owned by one user is invisible and immutable to every other
      user: the lookup fails, and each mutating statement touches nothing
      and reports RowsUnaffected. */
  lemma OwnershipIsolation(table: Table, todoId: nat, owner: nat, other: nat, now: int, t: Todo)
    requires Owns(table, todoId, owner) && owner != other
    ensures SelectById(table, todoId, other) == Err(NoRows)
    ensures CompleteWhere(table, todoId, other, now) == table
    ensures UpdateWhere(table, t.(id := todoId, userId := other)) == table
    ensures UpdateResult(table, t.(id := todoId, userId := other)) == Err(RowsUnaffected)
    ensures DeleteWhere(table, todoId, other) == table
    ensures DeleteResult(table, todoId, other) == (0, Some(RowsUnaffected))
  {
  }

  /** The emptiness check ignores `valid`: a todo whose title and note are
      both MakeNullString("") is rejected, although it would serialise with
      an empty "title" key. */
  lemma MadeEmptyStringsRejected(t: Todo)
    requires t.title == MakeNullString("") && t.note == MakeNullString("")
    ensures CreateResult(t) == Some(EmptyTodo)
    ensures "title" in Serialize(t) && Serialize(t)["title"] == StringV("")
  {
  }

  lemma EmptinessIgnoresValid(t: Todo, titleValid: bool, noteValid: bool)
    ensures CreateResult(t.(title := t.title.(valid := titleValid), note := t.note.(valid := noteValid)))
         == CreateResult(t)
  {
  }
}

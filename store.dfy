/** The SQL-backed store of models/todo.go (type DB) as an object over an
    in-memory table: each method performs the one statement its Go
    counterpart sends, with the affected-row check that follows it. */
module Store {
  import opened Wrappers
  import opened Utils
  import opened Todo

  class DB {
    /** The `todos` table, keyed by id. */
    var rows: Table
    /** The next value of the serial `id` column. */
    var nextId: nat

    ghost predicate Valid()
      reads this
    {
      WellFormed(rows, nextId)
    }

    /** An empty table whose serial column starts at 1. */
    constructor ()
      ensures Valid()
      ensures rows == map[] && nextId == 1
    {
      rows := map[];
      nextId := 1;
    }

    /** INSERT INTO todos (title, note, user_id), refused for an empty todo. */
    method CreateTodo(t: Todo, now: int) returns (err: Option<Error>)
      requires Valid()
      modifies this
      ensures Valid()
      ensures err == CreateResult(t)
      ensures err == Some(EmptyTodo) <==> IsEmptyTodo(t)
      ensures err != None ==> rows == old(rows) && nextId == old(nextId)
      ensures err == None ==>
                old(nextId) !in old(rows)
                && rows == old(rows)[old(nextId) := NewRow(old(nextId), t, now)]
                && nextId == old(nextId) + 1
    {
      if |t.title.str| == 0 && |t.note.str| == 0 {
        return Some(EmptyTodo);
      }
      InsertWellFormed(rows, nextId, t, now);
      var id := nextId;
      rows := rows[id := NewRow(id, t, now)];
      nextId := nextId + 1;
      var count := 1;
      err := CheckAffected(count);
    }

    /** One page of the user's todos after `previousId`, in no particular
        order, at most ResultsPerPage of them. */
    method GetAllTodos(userId: nat, previousId: nat) returns (todos: seq<Todo>)
      requires Valid()
      ensures |todos| <= ResultsPerPage
      ensures |todos| == Min(ResultsPerPage, |PageCandidates(rows, userId, previousId)|)
      ensures forall i :: 0 <= i < |todos| ==>
                todos[i].id in rows && rows[todos[i].id] == todos[i]
                && todos[i].userId == userId && todos[i].id > previousId
      ensures forall i, j :: 0 <= i < j < |todos| ==> todos[i].id != todos[j].id
      ensures IdsOf(todos) <= PageCandidates(rows, userId, previousId)
      ensures |PageCandidates(rows, userId, previousId)| <= ResultsPerPage ==>
                IdsOf(todos) == PageCandidates(rows, userId, previousId)
    {
      ghost var candidates := PageCandidates(rows, userId, previousId);
      var remaining := PageCandidates(rows, userId, previousId);
      todos := [];
      while remaining != {} && |todos| < ResultsPerPage
        invariant PageInProgress(rows, candidates, todos, remaining)
        invariant |todos| <= ResultsPerPage
        decreases |remaining|
      {
        var k :| k in remaining;
        PageStep(rows, nextId, candidates, todos, remaining, k);
        todos := todos + [rows[k]];
        remaining := remaining - {k};
      }
      PageDone(rows, userId, previousId, todos, remaining);
    }

    /** SELECT * FROM todos WHERE id = $1 AND user_id = $2, through QueryRow. */
    method GetTodo(todoId: nat, userId: nat) returns (r: Result<Todo, Error>)
      requires Valid()
      ensures r == SelectById(rows, todoId, userId)
      ensures r.Ok? ==> r.value.id == todoId && r.value.userId == userId
    {
      var matched := Matching(rows, todoId, userId);
      if matched == {} {
        return Err(NoRows);
      }
      r := Ok(rows[todoId]);
    }

    /** UPDATE todos SET completed_at = $3, is_done = TRUE WHERE id = $1 AND user_id = $2. */
    method MarkTodoAsComplete(todoId: nat, userId: nat, currentTime: int) returns (err: Option<Error>)
      requires Valid()
      modifies this
      ensures Valid()
      ensures nextId == old(nextId)
      ensures rows == CompleteWhere(old(rows), todoId, userId, currentTime)
      ensures err == AffectedBy(old(rows), todoId, userId)
    {
      CompleteWellFormed(rows, nextId, todoId, userId, currentTime);
      var count := |Matching(rows, todoId, userId)|;
      rows := CompleteWhere(rows, todoId, userId, currentTime);
      err := CheckAffected(count);
    }

    /** UPDATE todos SET title = $3, note = $4, modified_at = $5 WHERE id = $1 AND user_id = $2. */
    method UpdateTodo(t: Todo) returns (r: Result<Todo, Error>)
      requires Valid()
      modifies this
      ensures Valid()
      ensures nextId == old(nextId)
      ensures rows == UpdateWhere(old(rows), t)
      ensures r == UpdateResult(old(rows), t)
    {
      UpdateWellFormed(rows, nextId, t);
      var count := |Matching(rows, t.id, t.userId)|;
      rows := UpdateWhere(rows, t);
      if count != 1 {
        return Err(RowsUnaffected);
      }
      r := Ok(t);
    }

    /** DELETE FROM todos WHERE id = $1 AND user_id = $2. */
    method DeleteTodo(todoId: nat, userId: nat) returns (deletedId: nat, err: Option<Error>)
      requires Valid()
      modifies this
      ensures Valid()
      ensures nextId == old(nextId)
      ensures rows == DeleteWhere(old(rows), todoId, userId)
      ensures (deletedId, err) == DeleteResult(old(rows), todoId, userId)
    {
      DeleteWellFormed(rows, nextId, todoId, userId);
      var count := |Matching(rows, todoId, userId)|;
      rows := DeleteWhere(rows, todoId, userId);
      if count != 1 {
        return 0, Some(RowsUnaffected);
      }
      deletedId, err := todoId, None;
    }
  }

  /** The loop state of GetAllTodos: the rows taken so far are distinct
      stored candidates, and `remaining` is the candidates not yet taken. */
  ghost predicate PageInProgress(rows: Table, candidates: set<nat>, todos: seq<Todo>, remaining: set<nat>) {
    && remaining <= candidates
    && IdsOf(todos) == candidates - remaining
    && |todos| + |remaining| == |candidates|
    && (forall i :: 0 <= i < |todos| ==>
          todos[i].id in candidates && todos[i].id in rows && rows[todos[i].id] == todos[i])
    && (forall i, j :: 0 <= i < j < |todos| ==> todos[i].id != todos[j].id)
  }

  /** Taking one more remaining candidate keeps the loop state. */
  lemma PageStep(rows: Table, nextId: nat, candidates: set<nat>, todos: seq<Todo>, remaining: set<nat>, k: nat)
    requires WellFormed(rows, nextId) && candidates <= rows.Keys
    requires PageInProgress(rows, candidates, todos, remaining) && k in remaining
    ensures PageInProgress(rows, candidates, todos + [rows[k]], remaining - {k})
  {
    var row := rows[k];
    assert row.id == k;
    IdsOfAppend(todos, row);
    var next := todos + [row];
    assert forall i :: 0 <= i < |todos| ==> todos[i].id != k by {
      forall i | 0 <= i < |todos| ensures todos[i].id != k {
        assert todos[i].id in IdsOf(todos);
      }
    }
    forall i, j | 0 <= i < j < |next| ensures next[i].id != next[j].id {
      if j < |todos| { assert next[i] == todos[i] && next[j] == todos[j]; }
    }
  }

  /** When the loop stops (page full or candidates exhausted) the list is
      the page GetAllTodos promises. */
  lemma PageDone(rows: Table, userId: nat, previousId: nat, todos: seq<Todo>, remaining: set<nat>)
    requires PageInProgress(rows, PageCandidates(rows, userId, previousId), todos, remaining)
    requires |todos| <= ResultsPerPage && (remaining == {} || |todos| == ResultsPerPage)
    ensures |todos| == Min(ResultsPerPage, |PageCandidates(rows, userId, previousId)|)
    ensures forall i :: 0 <= i < |todos| ==>
              todos[i].id in rows && rows[todos[i].id] == todos[i]
              && todos[i].userId == userId && todos[i].id > previousId
    ensures IdsOf(todos) <= PageCandidates(rows, userId, previousId)
    ensures |PageCandidates(rows, userId, previousId)| <= ResultsPerPage ==>
              IdsOf(todos) == PageCandidates(rows, userId, previousId)
  {
    var candidates := PageCandidates(rows, userId, previousId);
    DistinctIdsCount(todos);
    if |candidates| <= ResultsPerPage {
      ShortPageIsComplete(IdsOf(todos), candidates);
    }
  }

  /** Appending a row adds its id to the id set. */
  lemma IdsOfAppend(todos: seq<Todo>, row: Todo)
    ensures IdsOf(todos + [row]) == IdsOf(todos) + {row.id}
  {
    var s := todos + [row];
    forall x | x in IdsOf(s) ensures x in IdsOf(todos) + {row.id} {
      var i :| 0 <= i < |s| && s[i].id == x;
      if i < |todos| { assert todos[i].id == x; }
    }
    forall x | x in IdsOf(todos) + {row.id} ensures x in IdsOf(s) {
      if x == row.id {
        assert s[|todos|].id == x;
      } else {
        var i :| 0 <= i < |todos| && todos[i].id == x;
        assert s[i].id == x;
      }
    }
  }

  /** A list with pairwise distinct ids has as many ids as elements. */
  lemma {:induction false} DistinctIdsCount(todos: seq<Todo>)
    requires forall i, j :: 0 <= i < j < |todos| ==> todos[i].id != todos[j].id
    ensures |IdsOf(todos)| == |todos|
  {
    if todos != [] {
      var init := todos[..|todos| - 1];
      var last := todos[|todos| - 1];
      assert todos == init + [last];
      DistinctIdsCount(init);
      IdsOfAppend(init, last);
      assert forall i :: 0 <= i < |init| ==> init[i].id != last.id by {
        forall i | 0 <= i < |init| ensures init[i].id != last.id {
          assert init[i] == todos[i];
        }
      }
      assert last.id !in IdsOf(init);
    }
  }

  /** Completing the same owned todo twice reports success both times and
      leaves it done at the later time, with the serial untouched. */
  method CompleteTwiceClient(db: DB, todoId: nat, userId: nat, first: int, second: int)
      returns (e1: Option<Error>, e2: Option<Error>)
    requires db.Valid() && Owns(db.rows, todoId, userId)
    modifies db
    ensures db.Valid()
    ensures e1 == None && e2 == None
    ensures db.nextId == old(db.nextId)
    ensures db.rows == old(db.rows)[todoId := Completed(old(db.rows)[todoId], second)]
  {
    e1 := db.MarkTodoAsComplete(todoId, userId, first);
    e2 := db.MarkTodoAsComplete(todoId, userId, second);
    CompleteTwice(old(db.rows), todoId, userId, first, second);
  }
}

/** The list endpoint end to end: the GetAll handler of handlers/todo.go
    answering from the store of models/todo.go. */
module Service {
  import opened Wrappers
  import opened Http
  import opened Todo
  import opened Store
  import opened Handlers

  /** One page of the caller's todos as a response: 404 exactly when the
      caller has no todo after the cursor, otherwise 200 with min(10,
      candidates) serialised rows, each the serialisation of a distinct
      stored row owned by the caller and past the cursor. */
  method ListPage(db: DB, userId: nat, previousId: nat) returns (r: Response)
    requires db.Valid()
    ensures r.code == StatusNotFound <==> PageCandidates(db.rows, userId, previousId) == {}
    ensures r.code != StatusNotFound ==>
              r.code == StatusOK && r.data.Items?
              && 0 < |r.data.todos| <= ResultsPerPage
    ensures r.data.Items? ==>
              && |r.data.todos| == Min(ResultsPerPage, |PageCandidates(db.rows, userId, previousId)|)
              && (forall i :: 0 <= i < |r.data.todos| ==>
                    exists k :: k in PageCandidates(db.rows, userId, previousId)
                                && r.data.todos[i] == Serialize(db.rows[k]))
              && (forall i, j :: 0 <= i < j < |r.data.todos| ==> r.data.todos[i] != r.data.todos[j])
  {
    var todos := db.GetAllTodos(userId, previousId);
    assert |todos| == 0 <==> PageCandidates(db.rows, userId, previousId) == {};
    r := GetAll(Ok(todos));
    if r.data.Items? {
      forall i | 0 <= i < |r.data.todos|
        ensures exists k :: k in PageCandidates(db.rows, userId, previousId)
                            && r.data.todos[i] == Serialize(db.rows[k])
      {
        var k := todos[i].id;
        assert k in IdsOf(todos);
      }
      forall i, j | 0 <= i < j < |r.data.todos| ensures r.data.todos[i] != r.data.todos[j] {
        assert r.data.todos[i]["id"] == UintV(todos[i].id);
        assert r.data.todos[j]["id"] == UintV(todos[j].id);
      }
    }
  }
}

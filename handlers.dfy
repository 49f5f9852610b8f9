/** The todo handlers of handlers/todo.go: the path-parameter parser and
    the mapping from store results to HTTP responses. Each handler receives
    the authenticated user id (what `c.MustGet("userID")` yields) and the
    store call as a function from its arguments to its result. */
module Handlers {
  import opened Wrappers
  import opened Http
  import opened Utils
  import opened Todo

  // ---------------------------------------------------------------------
  // stringToUint: strconv.ParseUint(n, 10, 32), panicking on error
  // ---------------------------------------------------------------------

  const MaxUint32: nat := 4294967295

  predicate IsDigit(c: char) {
    '0' <= c <= '9'
  }

  predicate AllDigits(s: string) {
    forall i :: 0 <= i < |s| ==> IsDigit(s[i])
  }

  function DigitValue(c: char): nat
    requires IsDigit(c)
  {
    (c as int) - ('0' as int)
  }

  /** The base-10 value of a digit string, read left to right. */
  function DecimalValue(s: string): nat
    requires AllDigits(s)
  {
    if s == [] then 0 else 10 * DecimalValue(s[..|s| - 1]) + DigitValue(s[|s| - 1])
  }

  /** A longer digit string never has a smaller value. */
  lemma {:induction false} DecimalValueMonotone(s: string, i: nat)
    requires AllDigits(s) && i <= |s|
    ensures DecimalValue(s[..i]) <= DecimalValue(s)
    decreases |s| - i
  {
    if i < |s| {
      DecimalValueMonotone(s, i + 1);
      assert s[..i + 1][..i] == s[..i];
    } else {
      assert s[..i] == s;
    }
  }

  /** ParseUint's digit loop from position `i` with `acc` read so far: it
      stops at the first non-digit, and as soon as the value passes the
      32-bit bound. */
  function ParseDigits(s: string, i: nat, acc: nat): (r: Option<nat>)
    requires i <= |s| && AllDigits(s[..i]) && acc == DecimalValue(s[..i]) && acc <= MaxUint32
    ensures r.Some? <==> AllDigits(s) && DecimalValue(s) <= MaxUint32
    ensures r.Some? ==> r.value == DecimalValue(s)
    decreases |s| - i
  {
    if i == |s| then
      assert s[..i] == s;
      Some(acc)
    else if !IsDigit(s[i]) then
      None
    else
      var next := 10 * acc + DigitValue(s[i]);
      assert s[..i + 1][..i] == s[..i];
      assert AllDigits(s[..i + 1]);
      if next > MaxUint32 then
        NoValueAbove(s, i + 1);
        None
      else
        ParseDigits(s, i + 1, next)
  }

  /** Once a digit prefix exceeds the bound, so does the whole string. */
  lemma NoValueAbove(s: string, i: nat)
    requires i <= |s| && AllDigits(s[..i]) && DecimalValue(s[..i]) > MaxUint32
    ensures !(AllDigits(s) && DecimalValue(s) <= MaxUint32)
  {
    if AllDigits(s) {
      DecimalValueMonotone(s, i);
    }
  }

  /** stringToUint: Some(value) for a non-empty decimal digit string whose
      value fits in 32 bits; None where the Go function panics. */
  function StringToUint(s: string): (r: Option<nat>)
    ensures r.Some? <==> |s| > 0 && AllDigits(s) && DecimalValue(s) <= MaxUint32
    ensures r.Some? ==> r.value == DecimalValue(s) && r.value <= MaxUint32
  {
    if |s| == 0 then None
    else
      assert s[..0] == [];
      ParseDigits(s, 0, 0)
  }

  /** The decimal rendering of a number (strconv.FormatUint(n, 10)). */
  function Decimal(n: nat): (s: string)
    ensures |s| > 0 && AllDigits(s)
  {
    var d := ['0' + ((n % 10) as char)];
    if n < 10 then d else Decimal(n / 10) + d
  }

  lemma {:induction false} DecimalValueOfDecimal(n: nat)
    ensures DecimalValue(Decimal(n)) == n
  {
    var s := Decimal(n);
    var d := ['0' + ((n % 10) as char)];
    assert DigitValue(s[|s| - 1]) == n % 10;
    if n >= 10 {
      DecimalValueOfDecimal(n / 10);
      assert s[..|s| - 1] == Decimal(n / 10);
    } else {
      assert s[..|s| - 1] == [];
    }
  }

  /** Parsing the rendering of any 32-bit value gives the value back. */
  lemma StringToUintRoundTrip(n: nat)
    requires n <= MaxUint32
    ensures StringToUint(Decimal(n)) == Some(n)
  {
    DecimalValueOfDecimal(n);
  }

  /** The converter's own test table. */
  lemma StringToUintExamples()
    ensures StringToUint("156") == Some(156)
    ensures StringToUint("0") == Some(0)
    ensures StringToUint("1") == Some(1)
    ensures StringToUint("180180") == Some(180180)
  {
    StringToUintRoundTrip(156);
    assert Decimal(156) == "156";
    StringToUintRoundTrip(0);
    assert Decimal(0) == "0";
    StringToUintRoundTrip(1);
    assert Decimal(1) == "1";
    StringToUintRoundTrip(180180);
    assert Decimal(180180) == "180180";
  }

  /** The 32-bit edge: the largest uint32 parses ... */
  lemma StringToUintLargest()
    ensures StringToUint("4294967295") == Some(4294967295)
  {
    StringToUintRoundTrip(4294967295);
    DecimalSnoc(4294967295);
    DecimalSnoc(429496729);
    DecimalSnoc(42949672);
    DecimalSnoc(4294967);
    DecimalSnoc(429496);
    DecimalSnoc(42949);
    DecimalSnoc(4294);
    DecimalSnoc(429);
    DecimalSnoc(42);
    assert Decimal(4) == "4";
  }

  /** ... and one more panics. */
  lemma StringToUintPastLargest()
    ensures StringToUint("4294967296") == None
  {
    DecimalValueOfDecimal(4294967296);
    DecimalSnoc(4294967296);
    DecimalSnoc(429496729);
    DecimalSnoc(42949672);
    DecimalSnoc(4294967);
    DecimalSnoc(429496);
    DecimalSnoc(42949);
    DecimalSnoc(4294);
    DecimalSnoc(429);
    DecimalSnoc(42);
    assert Decimal(4) == "4";
  }

  /** One unfolding of Decimal, for a number of at least two digits. */
  lemma DecimalSnoc(n: nat)
    requires n >= 10
    ensures Decimal(n) == Decimal(n / 10) + ['0' + ((n % 10) as char)]
  {
  }

  /** Empty input, a sign and a letter all panic. */
  lemma StringToUintMalformed()
    ensures StringToUint("") == None && StringToUint("-1") == None && StringToUint("12a") == None
  {
    assert !IsDigit("-1"[0]);
    assert !IsDigit("12a"[2]);
  }

  // ---------------------------------------------------------------------
  // Responses
  // ---------------------------------------------------------------------

  /** The `data` member of a response body. */
  datatype Data = NoData | Item(todo: map<string, Value>) | Items(todos: seq<map<string, Value>>)

  /** One JSON response: the HTTP code and the body's `status`, `message`,
      `data` and `resourceId` members (absent ones are None / NoData). */
  datatype Response = Response(code: nat, status: nat, message: Option<string>, data: Data, resourceId: Option<nat>)

  /** A handler either writes a response or panics (stringToUint on a
      malformed id); a panic is turned into a 500 by gin's recovery
      middleware, outside this core. */
  datatype HandlerResult = Respond(response: Response) | Panic

  function Message(code: nat, message: string): Response {
    Response(code, code, Some(message), NoData, None)
  }

  /** The fields of a bound create request; None when BindJSON fails. */
  datatype CreateBody = CreateBody(title: string, note: string)

  /** The todo the Create handler hands to the store (its ID is never set). */
  function CreateRequestTodo(userId: nat, body: CreateBody): Todo {
    Todo(0, MakeNullString(body.title), MakeNullString(body.note), 0, 0, NullTimeNone, userId, NullTimeNone, false)
  }

  /** Create as written: a store failure answers HTTP 500 with a body whose
      `status` member says 201. */
  function CreateAsWritten(userId: nat, body: Option<CreateBody>, create: Todo -> Option<Error>): (r: Response)
    ensures body.None? ==> r == Message(StatusBadRequest, "Bad request")
    ensures body.Some? ==>
              var todo := CreateRequestTodo(userId, body.value);
              r.status == StatusCreated && r.resourceId == Some(todo.id)
              && (r.code == StatusCreated <==> create(todo) == None)
              && (r.code != StatusCreated ==> r.code == StatusInternalServerError)
  {
    match body
    case None => Message(StatusBadRequest, "Bad request")
    case Some(b) =>
      var todo := CreateRequestTodo(userId, b);
      if create(todo) != None then
        Response(StatusInternalServerError, StatusCreated, Some("Unable to save todo"), NoData, Some(todo.id))
      else
        Response(StatusCreated, StatusCreated, Some("Todo item created successfully!"), NoData, Some(todo.id))
  }

  lemma CreateAsWrittenMislabelsFailure(userId: nat, create: Todo -> Option<Error>)
    requires create(CreateRequestTodo(userId, CreateBody("", ""))) != None
    ensures var r := CreateAsWritten(userId, Some(CreateBody("", "")), create);
            r.code == StatusInternalServerError && r.status == StatusCreated
  {
  }

  /** Create with the body's `status` equal to the HTTP code. */
  function Create(userId: nat, body: Option<CreateBody>, create: Todo -> Option<Error>): (r: Response)
    ensures r.code == r.status
    ensures body.None? ==> r == Message(StatusBadRequest, "Bad request")
    ensures body.Some? ==>
              var todo := CreateRequestTodo(userId, body.value);
              r.resourceId == Some(todo.id)
              && (r.code == StatusCreated <==> create(todo) == None)
              && (r.code != StatusCreated ==> r.code == StatusInternalServerError)
  {
    match body
    case None => Message(StatusBadRequest, "Bad request")
    case Some(b) =>
      var todo := CreateRequestTodo(userId, b);
      if create(todo) != None then
        Response(StatusInternalServerError, StatusInternalServerError, Some("Unable to save todo"), NoData, Some(todo.id))
      else
        Response(StatusCreated, StatusCreated, Some("Todo item created successfully!"), NoData, Some(todo.id))
  }

  /** Composed with the store's CreateTodo, an empty title and note is a
      500, and any other bound body is a 201. */
  lemma CreateWithStore(userId: nat, b: CreateBody)
    ensures (Create(userId, Some(b), CreateResult).code == StatusInternalServerError) <==> (b.title == "" && b.note == "")
    ensures b.title != "" || b.note != "" ==> Create(userId, Some(b), CreateResult).code == StatusCreated
  {
  }

  /** The `data` array of GetAll: data[i] := todos[i].Serialize(). */
  method SerializeAll(todos: seq<Todo>) returns (data: seq<map<string, Value>>)
    ensures |data| == |todos|
    ensures forall i :: 0 <= i < |todos| ==> data[i] == Serialize(todos[i])
  {
    var a := new map<string, Value>[|todos|](_ => map[]);
    for i := 0 to |todos|
      invariant forall j :: 0 <= j < i ==> a[j] == Serialize(todos[j])
    {
      a[i] := Serialize(todos[i]);
    }
    data := a[..];
  }

  /** GetAll: 404 on a store error or an empty page, otherwise 200 with one
      serialised todo per row, in the store's order. */
  method GetAll(todos: Result<seq<Todo>, Error>) returns (r: Response)
    ensures todos.Err? ==> r == Message(StatusNotFound, "Error fetching todos")
    ensures todos.Ok? && |todos.value| == 0 ==> r == Message(StatusNotFound, "No todo items")
    ensures todos.Ok? && |todos.value| > 0 ==>
              r.code == StatusOK && r.status == StatusOK && r.message == None && r.resourceId == None
              && r.data.Items?
              && |r.data.todos| == |todos.value|
              && forall i :: 0 <= i < |todos.value| ==> r.data.todos[i] == Serialize(todos.value[i])
  {
    if todos.Err? {
      return Message(StatusNotFound, "Error fetching todos");
    }
    if |todos.value| <= 0 {
      return Message(StatusNotFound, "No todo items");
    }
    var data := SerializeAll(todos.value);
    r := Response(StatusOK, StatusOK, None, Items(data), None);
  }

  /** Get: the id parameter is parsed (a panic if malformed), looked up for
      the caller, and checked against the caller once more. */
  function Get(userId: nat, idParam: string, getTodo: (nat, nat) -> Result<Todo, Error>): (r: HandlerResult)
    ensures r.Panic? <==> StringToUint(idParam).None?
    ensures r.Respond? ==>
              var found := getTodo(StringToUint(idParam).value, userId);
              && (found.Err? ==> r.response == Message(StatusNotFound, "Unable to find todo"))
              && (found.Ok? && found.value.userId != userId ==>
                    r.response == Message(StatusUnauthorized, "Todo doesn't belong to user"))
              && (found.Ok? && found.value.userId == userId ==>
                    r.response == Response(StatusOK, StatusOK, None, Item(Serialize(found.value)), None))
  {
    match StringToUint(idParam)
    case None => Panic
    case Some(todoId) =>
      match getTodo(todoId, userId)
      case Err(_) => Respond(Message(StatusNotFound, "Unable to find todo"))
      case Ok(todo) =>
        if todo.userId != userId then Respond(Message(StatusUnauthorized, "Todo doesn't belong to user"))
        else Respond(Response(StatusOK, StatusOK, None, Item(Serialize(todo)), None))
  }

  /** Composed with the store's ownership-scoped lookup, Get never reaches
      its "doesn't belong to user" branch: it answers 200 with the row for
      the owner and 404 for everybody else. */
  lemma GetWithStoreNeverUnauthorized(table: Table, userId: nat, idParam: string)
    requires StringToUint(idParam).Some?
    ensures var r := Get(userId, idParam, (i: nat, u: nat) => SelectById(table, i, u));
            var todoId := StringToUint(idParam).value;
            && r.Respond? && r.response.code != StatusUnauthorized
            && (r.response.code == StatusOK <==> Owns(table, todoId, userId))
            && (Owns(table, todoId, userId) ==> r.response.data == Item(Serialize(table[todoId])))
            && (!Owns(table, todoId, userId) ==> r.response.code == StatusNotFound)
  {
  }

  /** Delete: 404 on a store error, else 200 with the deleted id. */
  function Delete(userId: nat, idParam: string, deleteTodo: (nat, nat) -> (nat, Option<Error>)): (r: HandlerResult)
    ensures r.Panic? <==> StringToUint(idParam).None?
    ensures r.Respond? ==>
              var result := deleteTodo(StringToUint(idParam).value, userId);
              && (result.1 != None ==> r.response == Message(StatusNotFound, "Unable to find todo"))
              && (result.1 == None ==>
                    r.response == Response(StatusOK, StatusOK, Some("Todo deleted successfully!"), NoData, Some(result.0)))
  {
    match StringToUint(idParam)
    case None => Panic
    case Some(todoId) =>
      var (deletedId, err) := deleteTodo(todoId, userId);
      if err != None then Respond(Message(StatusNotFound, "Unable to find todo"))
      else Respond(Response(StatusOK, StatusOK, Some("Todo deleted successfully!"), NoData, Some(deletedId)))
  }

  /** Composed with the store's ownership-scoped DELETE, only the owner gets
      200, and the reported id is the requested one. */
  lemma DeleteWithStore(table: Table, userId: nat, idParam: string)
    requires StringToUint(idParam).Some?
    ensures var r := Delete(userId, idParam, (i: nat, u: nat) => DeleteResult(table, i, u));
            var todoId := StringToUint(idParam).value;
            && r.Respond?
            && (r.response.code == StatusOK <==> Owns(table, todoId, userId))
            && (r.response.code == StatusOK ==> r.response.resourceId == Some(todoId))
            && (r.response.code != StatusOK ==> r.response.code == StatusNotFound)
  {
  }

  /** Apart from Create as written, every response body's `status` member
      repeats the HTTP code. */
  lemma StatusMatchesCode(userId: nat, idParam: string, body: Option<CreateBody>,
                          create: Todo -> Option<Error>,
                          getTodo: (nat, nat) -> Result<Todo, Error>,
                          deleteTodo: (nat, nat) -> (nat, Option<Error>))
    ensures Create(userId, body, create).code == Create(userId, body, create).status
    ensures Get(userId, idParam, getTodo).Respond? ==>
              Get(userId, idParam, getTodo).response.code == Get(userId, idParam, getTodo).response.status
    ensures Delete(userId, idParam, deleteTodo).Respond? ==>
              Delete(userId, idParam, deleteTodo).response.code == Delete(userId, idParam, deleteTodo).response.status
  {
  }
}

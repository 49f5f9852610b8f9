# gotodos core in Dafny

A model of the core of gotodos, a small multi-user todo HTTP API in Go. Four
parts are modelled and proved:

- **The todo store** (`models/todo.go`). The `todos` table is an in-memory map
  from the `id` column to the row, inside a class `Store.DB` that also holds the
  next value of the serial id column. Each Go method becomes a method that runs
  the one SQL statement the Go code sends, followed by the same "exactly one
  affected row" check. Module `Todo` gives the meaning of each statement as a
  pure function on tables: `Matching` is the `WHERE id = $1 AND user_id = $2`
  set; `CompleteWhere`, `UpdateWhere` and `DeleteWhere` are the table after
  each statement; `PageCandidates` is the page query before `LIMIT`. `Todo`
  also holds `Serialize`, the todo-to-key/value mapping. A nullable string
  written by `INSERT` or `UPDATE` is stored as `Utils.Stored` gives it: an
  invalid value becomes SQL NULL and reads back as the empty invalid value.
- **The authorization middleware** (`middleware/auth.go`). `Auth.Authorize`
  chooses the token: the `token` cookie first, otherwise the second piece of
  the `Authorization` header after `strings.Split` on `" "`. It then maps the
  verifier's answer to abort-with-status or continue-with-`userID`. The JWT
  verifier is a function parameter returning `SigInvalid`, `OtherError` or
  `Parsed(valid, id)`.
- **The todo handlers** (`handlers/todo.go`). `stringToUint`, modelled as Go's
  `strconv.ParseUint(s, 10, 32)`, is proved against a decimal reference, with
  a round trip. `Create`, `GetAll`, `Get` and `Delete` map a store result to a
  response. Lemmas compose them with the store's table semantics.
- **`MakeNullString`** (`models/utils.go`), and how it interacts with
  `CreateTodo`'s emptiness check.

Inputs the source reads from outside become parameters: the clock
(`currentTime`, the insert time `now`), the JWT verifier, the store calls as
the handlers see them, the JSON binding outcome, and the `userID` that
`MustGet` returns. Timestamps are opaque integers.

Files: `wrappers.dfy` (Option, Result), `http.dfy` (status codes),
`utils.dfy`, `todo.dfy`, `store.dfy`, `auth.dfy`, `handlers.dfy`, and
`service.dfy` (the list handler answering from the store).

## Model

| member | source | states |
|---|---|---|
| Utils.MakeNullString | models/utils.go:8-13 | the result is always present (Valid) and holds the input string unchanged |
| Utils.StoredForgetsOnlyNullText | models/todo.go:67 | a value written to a nullable column and scanned back keeps its text exactly when it is present, a NULL reads back as the empty invalid value, and a MakeNullString value survives unchanged |
| Todo.Serialize | models/todo.go:33-56 | `id`, `isDone`, `createdAt`, `modifiedAt` are always present with the todo's values; `title`, `note`, `dueAt`, `completedAt` are present exactly when that column is Valid, with its value; no other key appears |
| Todo.SerializeExactlyVisible | models/todo.go:34-56 | two todos serialise to the same map if and only if they agree on everything except the owner and the contents of NULL columns |
| Todo.SerializeSize | models/todo.go:35-53 | the map has 4 keys plus one for each present nullable column |
| Todo.Matching | models/todo.go:128 | the `WHERE id = $1 AND user_id = $2` set is {todoId} when that row exists and belongs to the user, and empty otherwise (at most one affected row) |
| Todo.AffectedBy | models/todo.go:130-142 | an ownership-scoped statement succeeds exactly when the caller owns the row, and otherwise reports RowsUnaffected |
| Todo.CreateResult | models/todo.go:59-79 | CreateTodo fails exactly when title and note strings are both empty, and then with EmptyTodo, never with RowsUnaffected, because the insert affects one row |
| Todo.InsertThenSelect | models/todo.go:63-67 | the owner reads the inserted row back with the new id, title and note as sent when present and as the empty NULL when not, not done and with no due or completion time; a client sees what the sent todo would show |
| Todo.EmptinessIgnoresValid | models/todo.go:60 | the emptiness check reads only the string lengths; flipping either Valid flag never changes the outcome |
| Todo.MadeEmptyStringsRejected | models/todo.go:42-62 | a todo with title and note MakeNullString("") is rejected with EmptyTodo, yet would serialise with a `"title": ""` key |
| Todo.InsertWellFormed | models/todo.go:63-67 | the next serial id is not yet in the table, and inserting under it keeps every row stored under its own id |
| Todo.ShortPageIsComplete | models/todo.go:85-86 | a page of distinct candidates of size min(10, candidates) is all the candidates when there are at most 10 |
| Todo.SelectById | models/todo.go:110-121 | the lookup succeeds exactly when the row exists and belongs to the user, and returns that row; otherwise it returns ErrNoRows |
| Todo.CompleteWhere | models/todo.go:124-128 | only the owned row changes, and it gets `completed_at := now` and `is_done := true`; with no owned row the table is unchanged |
| Todo.CompletedChangesOnlyCompletion | models/todo.go:127 | completing sets the done flag and the completion time and leaves every other column as it was |
| Todo.CompleteTwice | models/todo.go:124-143 | completing twice equals completing once at the later time: still done, completion time the second one |
| Todo.CompleteWellFormed | models/todo.go:125-130 | completing keeps every row under its own id |
| Todo.UpdateWhere | models/todo.go:146-152 | only the owned row changes, and only its title, note and modification time; with no owned row the table is unchanged |
| Todo.UpdatedChangesOnlyContent | models/todo.go:149-152 | updating sets modified_at from the argument, and title and note as the column stores them (as sent when present, empty NULL otherwise), and leaves every other column as it was |
| Todo.UpdateResult | models/todo.go:152-164 | UpdateTodo returns its own argument exactly when the caller owns the row, otherwise RowsUnaffected |
| Todo.UpdateWellFormed | models/todo.go:147-152 | updating keeps every row under its own id |
| Todo.DeleteWhere | models/todo.go:168-172 | the owned row is removed and nothing else; with no owned row the table is unchanged |
| Todo.DeleteResult | models/todo.go:172-184 | DeleteTodo returns the requested id with no error exactly when the caller owns the row, otherwise (0, RowsUnaffected) |
| Todo.DeleteWellFormed | models/todo.go:169-172 | deleting keeps every remaining row under its own id |
| Todo.OwnershipIsolation | models/todo.go:109-184 | for a todo owned by someone else, the lookup returns ErrNoRows, and complete, update and delete change nothing and report RowsUnaffected |
| Store.DB.CreateTodo | models/todo.go:58-80 | an empty todo returns EmptyTodo and leaves the table and serial unchanged; otherwise exactly one new row NewRow, under a fresh id, with the title, note and user id as the columns store them, and the serial advances by one |
| Store.DB.GetAllTodos | models/todo.go:82-107 | at most 10 rows, exactly min(10, number of candidates); each is the stored row, belongs to the user and has id greater than the cursor; no id repeats; no candidates gives the empty list, not an error; with at most 10 candidates every one is returned |
| Store.DB.GetTodo | models/todo.go:109-121 | returns SelectById on the table: the owned row with the requested id, or ErrNoRows |
| Store.DB.MarkTodoAsComplete | models/todo.go:123-143 | the new table is CompleteWhere of the old one, the serial is unchanged, and the error is RowsUnaffected exactly when the caller owns no such row |
| Store.DB.UpdateTodo | models/todo.go:145-165 | the new table is UpdateWhere of the old one, the serial is unchanged, and the result is UpdateResult |
| Store.DB.DeleteTodo | models/todo.go:167-185 | the new table is DeleteWhere of the old one, the serial is unchanged, and the result pair is DeleteResult |
| Store.CompleteTwiceClient | models/todo.go:124-143 | two completions of an owned todo through the store each report success and leave it completed at the second time; no other row and not the serial changes |
| Auth.Split | middleware/auth.go:29 | splitting on one separator gives one more piece than the separator occurs, and no piece contains the separator |
| Auth.JoinSplit | middleware/auth.go:29 | joining the pieces with the separator gives back the original header |
| Auth.SplitTwoWords | middleware/auth.go:29-37 | two words without spaces joined by one space split into exactly those two words |
| Auth.SplitNoSep | middleware/auth.go:29-36 | a header without a space splits into itself alone, so it is refused as one piece |
| Auth.ExtractToken | middleware/auth.go:19-37 | a cookie is the token; without one, an empty header aborts with 401, and a non-empty header gives a token (holding no space) exactly when it has one space, otherwise it aborts with 400 |
| Auth.Authorize | middleware/auth.go:17-73 | every abort carries 401 or 400; the request continues exactly when a token was extracted and the verifier parsed it as valid, and then with the token's ID claim as `userID` |
| Auth.CookieWins | middleware/auth.go:19-21 | a `token` cookie is the token as it is, and the outcome never depends on the Authorization header |
| Auth.NoCredentialsUnauthorized | middleware/auth.go:22-28 | no cookie and an empty header aborts with 401, whatever the verifier would say |
| Auth.HeaderNeedsOneSpace | middleware/auth.go:29-36 | without a cookie, a non-empty header yields a token if and only if it contains exactly one space; otherwise the request aborts with 400 |
| Auth.HeaderToken | middleware/auth.go:37 | the token is the word after the space, whatever the scheme word is |
| Auth.BearerAloneIsEmptyToken | middleware/auth.go:37 | the header value "Bearer " (set directly, as the middleware's test does) hands the empty token to the verifier |
| Auth.VerifierStatuses | middleware/auth.go:46-67 | a signature-invalid error aborts with 401, any other verifier error with 400, and a parsed but invalid token with 401 |
| Auth.ContinueExactlyWhenValid | middleware/auth.go:61-71 | the request continues with `userID = id` if and only if a token was extracted and the verifier parsed it as valid with claim id |
| Auth.BearerWordTokenRejected | middleware/auth_test.go:29 | "Bearer token", which the verifier cannot parse, aborts with 400 |
| Auth.BearerAloneRejected | middleware/auth_test.go:30 | "Bearer ", whose empty token the verifier cannot parse, aborts with 400 |
| Auth.SingleWordRejected | middleware/auth_test.go:31 | "token", a header without a space, aborts with 400 before the verifier is called |
| Auth.SignedTokenAccepted | middleware/auth_test.go:37-48 | "Bearer " followed by a token the verifier accepts for user 1 continues with user 1 |
| Handlers.ParseDigits | handlers/todo.go:33-36 | the digit loop, which stops at the first non-digit or as soon as the value passes 4294967295, yields a value exactly when the string is all digits with value at most 4294967295, and that value is the decimal value |
| Handlers.StringToUint | handlers/todo.go:32-38 | a value exactly when the input is a non-empty base-10 digit string with value at most 4294967295, and then that value; otherwise the panic |
| Handlers.StringToUintRoundTrip | handlers/todo.go:32-38 | for every n up to 4294967295, parsing the decimal rendering of n gives n |
| Handlers.StringToUintExamples | handlers/todo_test.go:15-33 | "156", "0", "1", "180180" parse to 156, 0, 1, 180180 |
| Handlers.StringToUintLargest | handlers/todo.go:33 | "4294967295", the largest 32-bit value, parses to itself |
| Handlers.StringToUintPastLargest | handlers/todo.go:33-36 | "4294967296", one past the 32-bit bound, panics |
| Handlers.StringToUintMalformed | handlers/todo.go:33-36 | the empty string, "-1" and "12a" panic |
| Handlers.CreateAsWritten | handlers/todo.go:40-75 | as written: a binding failure is 400; with a bound body the body's `status` is always 201, and the HTTP code is 201 exactly when the store succeeds and 500 otherwise |
| Handlers.CreateAsWrittenMislabelsFailure | handlers/todo.go:61-67 | as written, a store failure answers HTTP 500 with a body whose `status` says 201 |
| Handlers.Create | handlers/todo.go:40-75 | the corrected Create (see Findings): a binding failure is 400 "Bad request"; a store failure is 500; a store success is 201; unlike the source's failure branch, the body's `status` always equals the HTTP code; `resourceId` is the todo's id |
| Handlers.CreateWithStore | handlers/todo.go:54-68 | composed with CreateTodo, a body whose title and note are both empty answers 500, and any other bound body answers 201 |
| Handlers.SerializeAll | handlers/todo.go:106-109 | `data` has the same length as the todos, and `data[i]` is `Serialize(todos[i])` |
| Handlers.GetAll | handlers/todo.go:86-112 | a store error gives 404 "Error fetching todos"; an empty list gives 404 "No todo items"; otherwise 200 whose `data` is the serialised todos in the same order |
| Handlers.Get | handlers/todo.go:115-140 | a malformed id panics; a store error gives 404; a todo of another user gives 401; otherwise 200 with the serialised todo |
| Handlers.GetWithStoreNeverUnauthorized | handlers/todo.go:130-136 | composed with the ownership-scoped lookup, the 401 branch is unreachable: the owner gets 200 with the row, everybody else 404 |
| Handlers.Delete | handlers/todo.go:162-174 | a malformed id panics; a store error gives 404; otherwise 200 with `resourceId` equal to the id the store returned |
| Handlers.DeleteWithStore | handlers/todo.go:166-173 | composed with the ownership-scoped delete, the answer is 200 exactly for the owner, with `resourceId` the requested id, and 404 otherwise |
| Handlers.StatusMatchesCode | handlers/todo.go:40-174 | in Get, Delete and the corrected Create the body's `status` member equals the HTTP code; the source's Create breaks this in its store-failure branch (see Findings) |
| Service.ListPage | handlers/todo.go:86-111 | answering from the store, the list endpoint gives 404 exactly when the caller has no todo after the cursor, and otherwise 200 with min(10, candidates) distinct entries, each the serialisation of a stored candidate row of the caller's page |

## Left out

- Driver failures are not modelled: errors from `Exec`, `RowsAffected`, `Query`, `Scan` and `rows.Err()`. The in-memory table never fails. So `Store.DB.CreateTodo` never returns RowsUnaffected, and `GetAllTodos` never returns an error.
- The error from `db.Query` (models/todo.go:87) is never checked: `err` is overwritten at models/todo.go:100. A failed query therefore panics at `rows.Next()` (models/todo.go:92) on a nil result set, and again in the deferred `rows.Close()`. Driver failures are out of scope, so this is not modelled.
- The `todos == nil` branch ("Empty DB", models/todo.go:103-105) is dead, because the slice is created with `make`. The model has no such error.
- Store.DB.GetAllTodos: row order is not specified, because the query has no `ORDER BY`. So the model does not promise ascending ids. It also does not promise that repeated cursor-based paging never returns an id twice.
- The table schema is not among the sources. The inserted row's defaults are an assumption: both timestamps are the insert time, due and completion times are NULL, and `is_done` is false.
- Ids are unbounded naturals. Go's 64-bit `uint` wrap-around is not modelled, and nothing in the core reaches it. The 32-bit bound of `stringToUint` is modelled.
- The `Update` handler (handlers/todo.go:143-159) is not modelled. It sends a todo holding only ID and UserID. It never reads the request body. On error it reads `todo.ID` from a nil pointer.
- `Create` assigns plain strings to `sql.NullString` fields (handlers/todo.go:55-56), which Go does not compile. The model wraps them with `MakeNullString`.
- The handlers call store functions (`models.CreateTodo(t.db, &todo)`, `models.GetAllTodos(t.db, userID)`), which are not the shown `DB` methods. So each handler takes its store call as a function parameter. `Service.ListPage` passes a cursor that the handler's call does not have.
- Handlers.Create: `resourceId` is `todo.ID`. The handler never sets it, and the shown `CreateTodo` never writes an id back (its `INSERT` has no `RETURNING`). So the model's `resourceId` is always 0.
- JSON binding is an input. `CreateBody`'s struct tags are malformed, so their `binding: "required"` has no effect. Whether binding succeeds is the `Option<CreateBody>` argument.
- `c.MustGet("userID")` is a user-id argument. Its panic when the middleware did not run is not modelled. The shown main.go does not install `Authorize` on the todo routes.
- `GetAll` prints the store error with `fmt.Println` (handlers/todo.go:90). Logging is output only, so the model drops it.
- `stringToUint`'s panic is the `Panic` result. Turning it into a 500 is gin's recovery middleware: gin is not part of this model.
- Header parsing is net/http's, not modelled: a header read off the wire has its surrounding spaces trimmed, so `Authorization: Bearer ` arrives as "Bearer" and is refused as one piece with 400. `Auth.BearerAloneIsEmptyToken` is about a value set directly, as with `Header.Add` in middleware/auth_test.go:55.
- The `token` cookie is the value gin's `c.Cookie` returns, which is already URL-unescaped. Cookie parsing and unescaping are gin's and are not modelled: `Auth.CookieWins` promises the unescaped value is used as it is.
- JWT signing, signature and expiry checks (`jwt.ParseWithClaims`) are the verifier parameter. jwt-go may wrap `ErrSignatureInvalid` inside a `ValidationError`. Whether the `==` comparison at middleware/auth.go:47 can ever hold depends on jwt-go, which is not part of this model.
- JSON byte layout and key ordering from `encoding/json` are not modelled: the model works on the key/value map. Time values are opaque integers. The clock is a parameter.
- Users, registration, login, password hashing and token issue are not modelled: handlers/user.go, models/user.go, model/*.go, models/db.go, db/utils.go, main.go.

## Findings

| source | as written | input that shows it | evidently intended | confidence | as-written member | corrected member |
|---|---|---|---|---|---|---|
| handlers/todo.go:62-66 | the store-failure response is HTTP 500 but its body says `"status": 201` | any bound body the store rejects, e.g. title "" and note "" (CreateTodo returns ErrorEmptyTodo) | body `status` 500, like every other response, whose body status repeats the HTTP code | not executed; high | Handlers.CreateAsWrittenMislabelsFailure | Handlers.Create |

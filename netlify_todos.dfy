/** The Netlify function of netlify/functions/todos.js: one handler that
    dispatches on the method and the last non-empty path segment, over the same
    SQLite table as the Python variants. Every rejected promise becomes a 500
    carrying the error's message. */
module NetlifyTodos {
  import opened Models
  import opened Listing
  import opened Paths
  import opened Database

  /** The JSON body of a response. */
  datatype Payload =
    | Healthy                       // the health-check object
    | TodoList(todos: seq<Todo>)
    | OneTodo(todo: Todo)
    | Deleted(deletion: Deletion)
    | ErrorMessage(kind: ErrorKind) // `{ error: error.message }`
    | MethodNotAllowed
    | NoBody                        // the empty body of the preflight answer

  datatype Response = Response(statusCode: nat, payload: Payload)

  /** The key a path segment can match. The segment is bound as text (or as
      NULL when the path has no segment); text that is not an integer matches
      no row. */
  function RowKey(todoId: Option<string>): Option<int> {
    match todoId
    case None => None
    case Some(s) => ParseId(s)
  }

  /** The end of the handler: a result becomes 200, a rejection 500 with its
      message. */
  function Respond(res: Result<Payload, ErrorKind>): (r: Response)
    ensures r.statusCode == 200 <==> res.Success?
    ensures r.statusCode == 500 <==> res.Failure?
    ensures res.Success? ==> r.payload == res.value
    ensures res.Failure? ==> r.payload == ErrorMessage(res.error)
  {
    match res
    case Success(p) => Response(200, p)
    case Failure(e) => Response(500, ErrorMessage(e))
  }

  /** `getTodos`: the status defaults to 'all' (an empty one too); most recent
      first. */
  method GetTodos(db: TodoTable, status: Option<string>) returns (r: seq<Todo>)
    requires db.Valid()
    ensures SortedDesc(r) && IdsDistinct(r)
    ensures forall t :: t in r <==> IsSelectedRow(db.rows, StatusParam(status), t)
  {
    r := db.SelectOrdered(StatusParam(status));
  }

  /** `createTodo`: `completed` defaults to false; a missing title violates the
      NOT NULL constraint and rejects. */
  method CreateTodo(db: TodoTable, body: TodoUpdate, now: Timestamp)
    returns (res: Result<Todo, ErrorKind>)
    requires db.Valid()
    modifies db
    ensures db.Valid()
    ensures body.title.None? ==>
              && res == Failure(MissingTitle)
              && db.rows == old(db.rows) && db.lastId == old(db.lastId) && db.issued == old(db.issued)
    ensures body.title.Some? ==>
              && res == Success(NewRecord(old(db.lastId) + 1, ParseCreate(body).value, now))
              && res.value.id !in old(db.issued)
              && db.rows == old(db.rows)[res.value.id := res.value]
  {
    var c := ParseCreate(body);
    if c.None? {
      return Failure(MissingTitle);
    }
    var inserted := db.Insert(c.value, now);
    var row := db.SelectById(inserted.id);
    res := Success(row.value);
  }

  /** `updateTodo`: an update with neither field rejects before the table is
      touched, whether or not the row exists; otherwise one UPDATE of the
      supplied columns and updated_at, rejecting when it changed no row. */
  method UpdateTodo(db: TodoTable, todoId: Option<string>, body: TodoUpdate, now: Timestamp)
    returns (res: Result<Todo, ErrorKind>)
    requires db.Valid()
    modifies db
    ensures db.Valid() && db.lastId == old(db.lastId)
    ensures IsEmptyUpdate(body) ==> res == Failure(NoFieldsToUpdate) && db.rows == old(db.rows)
    ensures !IsEmptyUpdate(body) && !HasRow(old(db.rows), RowKey(todoId)) ==>
              res == Failure(NotFound) && db.rows == old(db.rows)
    ensures !IsEmptyUpdate(body) && HasRow(old(db.rows), RowKey(todoId)) ==>
              var id := RowKey(todoId).value;
              && res == Success(Patched(old(db.rows)[id], body, now))
              && db.rows == old(db.rows)[id := res.value]
  {
    if IsEmptyUpdate(body) {
      return Failure(NoFieldsToUpdate);
    }
    var key := RowKey(todoId);
    var changes := 0;
    if key.Some? {
      changes := db.UpdateById(key.value, body, now);
    }
    if changes == 0 {
      return Failure(NotFound);
    }
    var row := db.SelectById(key.value);
    res := Success(row.value);
  }

  /** `deleteTodo`: rejects when the DELETE removed no row. */
  method DeleteTodo(db: TodoTable, todoId: Option<string>) returns (res: Result<Deletion, ErrorKind>)
    requires db.Valid()
    modifies db
    ensures db.Valid() && db.lastId == old(db.lastId)
    ensures res.Failure? <==> !HasRow(old(db.rows), RowKey(todoId))
    ensures res.Failure? ==> res.error == NotFound && db.rows == old(db.rows)
    ensures res.Success? ==> res.value == OneDeleted && db.rows == old(db.rows) - {RowKey(todoId).value}
  {
    var key := RowKey(todoId);
    var changes := 0;
    if key.Some? {
      changes := db.DeleteById(key.value);
    }
    if changes == 0 {
      return Failure(NotFound);
    }
    res := Success(OneDeleted);
  }

  /** `deleteCompletedTodos`: counts the completed rows, then deletes them. */
  method DeleteCompletedTodos(db: TodoTable) returns (count: nat)
    requires db.Valid()
    modifies db
    ensures db.Valid() && db.lastId == old(db.lastId)
    ensures count == |SelectedIds(old(db.rows), Completed)|
    ensures count == |old(db.rows)| - |db.rows|
    ensures db.rows == Unselected(old(db.rows), Completed)
  {
    count := db.Count(Completed);
    db.DeleteWhere(Completed);
    CompletedActiveSplit(old(db.rows));
  }

  /** `deleteAllTodos`: counts the rows, then deletes them all. */
  method DeleteAllTodos(db: TodoTable) returns (count: nat)
    requires db.Valid()
    modifies db
    ensures db.Valid() && db.lastId == old(db.lastId)
    ensures count == |old(db.rows)| && db.rows == map[]
  {
    count := db.Count(All);
    db.DeleteWhere(All);
  }

  /** The exported handler. `httpMethod` is the request method, `status` the
      `status` query parameter and `body` the keys of the JSON body. */
  method Handle(db: TodoTable, httpMethod: string, path: string, status: Option<string>,
                body: TodoUpdate, now: Timestamp)
    returns (resp: Response)
    requires db.Valid()
    modifies db
    ensures db.Valid()
    ensures httpMethod == "OPTIONS" ==> resp == Response(200, NoBody) && db.rows == old(db.rows)
    ensures httpMethod !in {"OPTIONS", "GET", "POST", "PUT", "DELETE"} ==>
              resp == Response(405, MethodNotAllowed) && db.rows == old(db.rows)
    ensures httpMethod != "POST" ==> db.lastId == old(db.lastId)
    ensures httpMethod in {"GET", "POST", "PUT", "DELETE"} ==> resp.statusCode == 200 || resp.statusCode == 500
    ensures httpMethod == "GET" ==> resp.statusCode == 200 && db.rows == old(db.rows)
    ensures httpMethod == "GET" && Endpoint(path) == Some("health") ==> resp.payload == Healthy
    ensures httpMethod == "GET" && Endpoint(path) != Some("health") ==>
              && resp.payload.TodoList?
              && SortedDesc(resp.payload.todos) && IdsDistinct(resp.payload.todos)
              && forall t :: t in resp.payload.todos <==> IsSelectedRow(db.rows, StatusParam(status), t)
    ensures httpMethod == "POST" && body.title.None? ==>
              && resp == Response(500, ErrorMessage(MissingTitle))
              && db.rows == old(db.rows) && db.lastId == old(db.lastId) && db.issued == old(db.issued)
    ensures httpMethod == "POST" && body.title.Some? ==>
              var t := NewRecord(old(db.lastId) + 1, ParseCreate(body).value, now);
              && resp == Response(200, OneTodo(t))
              && t.id !in old(db.issued)
              && db.rows == old(db.rows)[t.id := t]
    ensures httpMethod == "PUT" && IsEmptyUpdate(body) ==>
              resp == Response(500, ErrorMessage(NoFieldsToUpdate)) && db.rows == old(db.rows)
    ensures httpMethod == "PUT" && !IsEmptyUpdate(body) && !HasRow(old(db.rows), RowKey(Endpoint(path))) ==>
              resp == Response(500, ErrorMessage(NotFound)) && db.rows == old(db.rows)
    ensures httpMethod == "PUT" && !IsEmptyUpdate(body) && HasRow(old(db.rows), RowKey(Endpoint(path))) ==>
              var id := RowKey(Endpoint(path)).value;
              var t := Patched(old(db.rows)[id], body, now);
              resp == Response(200, OneTodo(t)) && db.rows == old(db.rows)[id := t]
    ensures httpMethod == "DELETE" && Endpoint(path) == Some("completed") ==>
              && resp == Response(200, Deleted(BulkDeleted(|SelectedIds(old(db.rows), Completed)|)))
              && db.rows == Unselected(old(db.rows), Completed)
    ensures httpMethod == "DELETE" && Endpoint(path) == Some("all") ==>
              resp == Response(200, Deleted(BulkDeleted(|old(db.rows)|))) && db.rows == map[]
    ensures httpMethod == "DELETE" && Endpoint(path) !in {Some("completed"), Some("all")} ==>
              if HasRow(old(db.rows), RowKey(Endpoint(path))) then
                && resp == Response(200, Deleted(OneDeleted))
                && db.rows == old(db.rows) - {RowKey(Endpoint(path)).value}
              else
                resp == Response(500, ErrorMessage(NotFound)) && db.rows == old(db.rows)
  {
    if httpMethod == "OPTIONS" {
      return Response(200, NoBody);
    }
    var endpoint := Endpoint(path);
    if httpMethod == "GET" {
      if endpoint == Some("health") {
        resp := Respond(Success(Healthy));
      } else {
        var todos := GetTodos(db, status);
        resp := Respond(Success(TodoList(todos)));
      }
    } else if httpMethod == "POST" {
      var res := CreateTodo(db, body, now);
      resp := Respond(match res case Success(t) => Success(OneTodo(t)) case Failure(e) => Failure(e));
    } else if httpMethod == "PUT" {
      var res := UpdateTodo(db, endpoint, body, now);
      resp := Respond(match res case Success(t) => Success(OneTodo(t)) case Failure(e) => Failure(e));
    } else if httpMethod == "DELETE" {
      if endpoint == Some("completed") {
        var count := DeleteCompletedTodos(db);
        resp := Respond(Success(Deleted(BulkDeleted(count))));
      } else if endpoint == Some("all") {
        var count := DeleteAllTodos(db);
        resp := Respond(Success(Deleted(BulkDeleted(count))));
      } else {
        var res := DeleteTodo(db, endpoint);
        resp := Respond(match res case Success(d) => Success(Deleted(d)) case Failure(e) => Failure(e));
      }
    } else {
      resp := Response(405, MethodNotAllowed);
    }
  }

  /** The client's bulk requests reach the bulk deletes with or without a
      trailing slash, under whatever prefix the function is mounted. */
  lemma BulkEndpoints(prefix: string)
    ensures Endpoint(prefix + "/" + "completed") == Some("completed")
    ensures Endpoint(prefix + "/" + "completed" + "/") == Some("completed")
    ensures Endpoint(prefix + "/" + "all") == Some("all")
    ensures Endpoint(prefix + "/" + "all" + "/") == Some("all")
  {
    EndpointOfAppendedSegment(prefix, "completed");
    EndpointOfAppendedSegment(prefix, "all");
    TrailingSlashIgnored(prefix + "/" + "completed");
    TrailingSlashIgnored(prefix + "/" + "all");
  }

  /** A single-record path built from an id reaches that id. */
  lemma IdEndpoint(prefix: string, id: nat)
    ensures RowKey(Endpoint(prefix + "/" + IdText(id))) == Some(id)
  {
    var s := IdText(id);
    assert '/' !in s by {
      forall i | 0 <= i < |s| ensures s[i] != '/' { assert IsDigit(s[i]); }
    }
    EndpointOfAppendedSegment(prefix, s);
    ParseIdText(id);
  }
}

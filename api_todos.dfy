/** The SQLite handlers of api/todos.py. The id comes from the request path as
    text and is bound into `WHERE id = ?`; text that is not an integer matches
    no row. */
module ApiTodos {
  import opened Models
  import opened Listing
  import opened Paths
  import opened Database

  /** GET /api/todos: the status defaults to 'all'; most recent first. */
  method GetTodos(db: TodoTable, status: Option<string>) returns (r: seq<Todo>)
    requires db.Valid()
    ensures SortedDesc(r) && IdsDistinct(r)
    ensures forall t :: t in r <==> IsSelectedRow(db.rows, StatusParam(status), t)
  {
    r := db.SelectOrdered(StatusParam(status));
  }

  /** POST /api/todos: a body without a title fails (500); otherwise one new
      row with `completed` defaulting to false, returned as stored. */
  method CreateTodo(db: TodoTable, body: TodoUpdate, now: Timestamp)
    returns (res: Result<Todo, HttpError>)
    requires db.Valid()
    modifies db
    ensures db.Valid()
    ensures body.title.None? ==>
              && res == Failure(HttpError(500, MissingTitle))
              && db.rows == old(db.rows) && db.lastId == old(db.lastId) && db.issued == old(db.issued)
    ensures body.title.Some? ==>
              && res.Success?
              && res.value == NewRecord(old(db.lastId) + 1, ParseCreate(body).value, now)
              && res.value.id !in old(db.issued)
              && db.rows == old(db.rows)[res.value.id := res.value]
  {
    var c := ParseCreate(body);
    if c.None? {
      return Failure(HttpError(500, MissingTitle));
    }
    var row := db.Insert(c.value, now);
    var fetched := db.SelectById(row.id);
    res := Success(fetched.value);
  }

  /** PUT /api/todos/{id}: 404 without any UPDATE for a missing row; a body
      with neither key issues no UPDATE and returns the row as it was, with
      updated_at unchanged; otherwise only the supplied columns and updated_at
      change. */
  method UpdateTodo(db: TodoTable, idText: string, body: TodoUpdate, now: Timestamp)
    returns (res: Result<Todo, HttpError>)
    requires db.Valid()
    modifies db
    ensures db.Valid() && db.lastId == old(db.lastId)
    ensures !HasRow(old(db.rows), ParseId(idText)) ==>
              res == Failure(HttpError(404, NotFound)) && db.rows == old(db.rows)
    ensures HasRow(old(db.rows), ParseId(idText)) && IsEmptyUpdate(body) ==>
              res == Success(old(db.rows)[ParseId(idText).value]) && db.rows == old(db.rows)
    ensures HasRow(old(db.rows), ParseId(idText)) && !IsEmptyUpdate(body) ==>
              var id := ParseId(idText).value;
              && res == Success(Patched(old(db.rows)[id], body, now))
              && db.rows == old(db.rows)[id := res.value]
  {
    var key := ParseId(idText);
    if key.None? {
      return Failure(HttpError(404, NotFound));
    }
    var existing := db.SelectById(key.value);
    if existing.None? {
      return Failure(HttpError(404, NotFound));
    }
    if !IsEmptyUpdate(body) {
      var _ := db.UpdateById(key.value, body, now);
    }
    var row := db.SelectById(key.value);
    res := Success(row.value);
  }

  /** DELETE by id: 404 for a missing row, otherwise exactly that row goes. */
  method DeleteTodo(db: TodoTable, idText: string) returns (res: Result<Deletion, HttpError>)
    requires db.Valid()
    modifies db
    ensures db.Valid() && db.lastId == old(db.lastId)
    ensures res.Failure? <==> !HasRow(old(db.rows), ParseId(idText))
    ensures res.Failure? ==> res.error == HttpError(404, NotFound) && db.rows == old(db.rows)
    ensures res.Success? ==>
              res.value == OneDeleted && db.rows == old(db.rows) - {ParseId(idText).value}
  {
    var key := ParseId(idText);
    if key.None? {
      return Failure(HttpError(404, NotFound));
    }
    var existing := db.SelectById(key.value);
    if existing.None? {
      return Failure(HttpError(404, NotFound));
    }
    var _ := db.DeleteById(key.value);
    res := Success(OneDeleted);
  }

  /** Bulk delete of completed rows: the count is taken before the DELETE. */
  method DeleteCompletedTodos(db: TodoTable) returns (count: nat)
    requires db.Valid()
    modifies db
    ensures db.Valid() && db.lastId == old(db.lastId)
    ensures count == |SelectedIds(old(db.rows), Completed)|
    ensures count == |old(db.rows)| - |db.rows|
    ensures db.rows == Unselected(old(db.rows), Completed)
    ensures forall id :: id in db.rows ==> !db.rows[id].completed
  {
    count := db.Count(Completed);
    db.DeleteWhere(Completed);
    CompletedActiveSplit(old(db.rows));
  }

  /** Bulk delete of every row: the count is taken before the DELETE. */
  method DeleteAllTodos(db: TodoTable) returns (count: nat)
    requires db.Valid()
    modifies db
    ensures db.Valid() && db.lastId == old(db.lastId)
    ensures count == |old(db.rows)| && db.rows == map[]
  {
    count := db.Count(All);
    db.DeleteWhere(All);
  }

  // ----- DELETE dispatch -----

  /** `do_DELETE` as written: the prefix test comes first, so every path under
      /api/todos/ is a single delete, the bulk paths included. */
  function RouteDeleteAsWritten(path: string): DeleteRoute {
    if StartsWith(path, "/api/todos/") then DeleteOne(LastPart(path))
    else if path == "/api/todos/completed" then DeleteCompleted
    else if path == "/api/todos/all" then DeleteAll
    else NoRoute
  }

  /** As written, no path reaches either bulk delete, and the client's
      "clear completed" request becomes a single delete of the id "completed". */
  lemma BulkDeleteUnreachable(path: string)
    ensures RouteDeleteAsWritten(path) != DeleteCompleted
    ensures RouteDeleteAsWritten(path) != DeleteAll
    ensures RouteDeleteAsWritten("/api/todos/completed") == DeleteOne("completed")
  {
    var p := "/api/todos/completed";
    if path == p || path == "/api/todos/all" {
      assert StartsWith(path, "/api/todos/");
    }
    assert StartsWith(p, "/api/todos/");
    LastPartIsFinalSegment(p);
  }

  /** The dispatch the bulk branches were written for: the two bulk paths are
      checked before the prefix. */
  function RouteDelete(path: string): (r: DeleteRoute)
    ensures path == "/api/todos/completed" <==> r == DeleteCompleted
    ensures path == "/api/todos/all" <==> r == DeleteAll
    ensures r.DeleteOne? <==>
              StartsWith(path, "/api/todos/") && path != "/api/todos/completed" && path != "/api/todos/all"
    ensures r.DeleteOne? ==> r == RouteDeleteAsWritten(path)
  {
    if path == "/api/todos/completed" then DeleteCompleted
    else if path == "/api/todos/all" then DeleteAll
    else if StartsWith(path, "/api/todos/") then DeleteOne(LastPart(path))
    else NoRoute
  }

  /** `do_DELETE` with the corrected dispatch. */
  method HandleDelete(db: TodoTable, path: string) returns (res: Result<Deletion, HttpError>)
    requires db.Valid()
    modifies db
    ensures db.Valid() && db.lastId == old(db.lastId)
    ensures RouteDelete(path) == NoRoute ==>
              res == Failure(HttpError(404, NotFound)) && db.rows == old(db.rows)
    ensures RouteDelete(path) == DeleteCompleted ==>
              && res == Success(BulkDeleted(|SelectedIds(old(db.rows), Completed)|))
              && db.rows == Unselected(old(db.rows), Completed)
    ensures RouteDelete(path) == DeleteAll ==>
              res == Success(BulkDeleted(|old(db.rows)|)) && db.rows == map[]
    ensures RouteDelete(path).DeleteOne? ==>
              var idText := RouteDelete(path).idText;
              && (res.Success? <==> HasRow(old(db.rows), ParseId(idText)))
              && (res.Failure? ==> res.error == HttpError(404, NotFound) && db.rows == old(db.rows))
              && (res.Success? ==>
                    res.value == OneDeleted && db.rows == old(db.rows) - {ParseId(idText).value})
  {
    match RouteDelete(path)
    case DeleteOne(idText) =>
      res := DeleteTodo(db, idText);
    case DeleteCompleted =>
      var count := DeleteCompletedTodos(db);
      res := Success(BulkDeleted(count));
    case DeleteAll =>
      var count := DeleteAllTodos(db);
      res := Success(BulkDeleted(count));
    case NoRoute =>
      res := Failure(HttpError(404, NotFound));
  }
}

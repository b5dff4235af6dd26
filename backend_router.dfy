/** The FastAPI handlers of backend/routers/todos.py, each as the SQL it issues
    against the `todos` table and the checks around it. */
module BackendRouter {
  import opened Models
  import opened Listing
  import opened Database

  /** GET /todos/: 'active' and 'completed' select by the flag; no status, 'all'
      and every other value list all rows; most recent first. */
  method GetTodos(db: TodoTable, status: Option<string>) returns (r: seq<Todo>)
    requires db.Valid()
    ensures SortedDesc(r) && IdsDistinct(r)
    ensures forall t :: t in r <==> IsSelectedRow(db.rows, StatusParam(status), t)
    ensures status.None? || status.value !in {"active", "completed"} ==>
              forall t :: t in r <==> t.id in db.rows && db.rows[t.id] == t
  {
    r := db.SelectOrdered(StatusParam(status));
  }

  /** POST /todos/: one new row carrying the body's title and flag, a fresh id
      and equal timestamps. */
  method CreateTodo(db: TodoTable, todo: TodoCreate, now: Timestamp) returns (r: Todo)
    requires db.Valid()
    modifies db
    ensures db.Valid()
    ensures r.id !in old(db.issued) && r.id == old(db.lastId) + 1
    ensures Base(r) == todo && r.createdAt == r.updatedAt == now
    ensures db.rows == old(db.rows)[r.id := r]
  {
    r := db.Insert(todo, now);
  }

  /** PUT /todos/{id}: 404 for a missing row, then 400 for an update with no
      field; otherwise only the supplied columns and updated_at change. */
  method UpdateTodo(db: TodoTable, todoId: int, update: TodoUpdate, now: Timestamp)
    returns (res: Result<Todo, HttpError>)
    requires db.Valid()
    modifies db
    ensures db.Valid() && db.lastId == old(db.lastId)
    ensures todoId !in old(db.rows) ==>
              res == Failure(HttpError(404, NotFound)) && db.rows == old(db.rows)
    ensures todoId in old(db.rows) && IsEmptyUpdate(update) ==>
              res == Failure(HttpError(400, NoFieldsToUpdate)) && db.rows == old(db.rows)
    ensures todoId in old(db.rows) && !IsEmptyUpdate(update) ==>
              && res == Success(Patched(old(db.rows)[todoId], update, now))
              && db.rows == old(db.rows)[todoId := res.value]
  {
    var existing := db.SelectById(todoId);
    if existing.None? {
      return Failure(HttpError(404, NotFound));
    }
    if IsEmptyUpdate(update) {
      return Failure(HttpError(400, NoFieldsToUpdate));
    }
    var _ := db.UpdateById(todoId, update, now);
    var row := db.SelectById(todoId);
    res := Success(row.value);
  }

  /** DELETE /todos/{id}: 404 for a missing row, otherwise exactly that row goes. */
  method DeleteTodo(db: TodoTable, todoId: int) returns (res: Result<Deletion, HttpError>)
    requires db.Valid()
    modifies db
    ensures db.Valid() && db.lastId == old(db.lastId)
    ensures res.Failure? <==> todoId !in old(db.rows)
    ensures res.Failure? ==> res.error == HttpError(404, NotFound) && db.rows == old(db.rows)
    ensures res.Success? ==> res.value == OneDeleted && db.rows == old(db.rows) - {todoId}
  {
    var existing := db.SelectById(todoId);
    if existing.None? {
      return Failure(HttpError(404, NotFound));
    }
    var _ := db.DeleteById(todoId);
    res := Success(OneDeleted);
  }

  /** DELETE /todos/completed: reports how many completed rows there were and
      leaves only the incomplete rows, untouched. */
  method DeleteCompletedTodos(db: TodoTable) returns (count: nat)
    requires db.Valid()
    modifies db
    ensures db.Valid() && db.lastId == old(db.lastId)
    ensures count == |SelectedIds(old(db.rows), Completed)|
    ensures count == |old(db.rows)| - |db.rows|
    ensures db.rows.Keys == SelectedIds(old(db.rows), Active)
    ensures forall id :: id in db.rows ==> db.rows[id] == old(db.rows)[id] && !db.rows[id].completed
  {
    count := db.Count(Completed);
    db.DeleteWhere(Completed);
    CompletedActiveSplit(old(db.rows));
  }

  /** DELETE /todos/all: reports the number of rows and empties the table. */
  method DeleteAllTodos(db: TodoTable) returns (count: nat)
    requires db.Valid()
    modifies db
    ensures db.Valid() && db.lastId == old(db.lastId)
    ensures count == |old(db.rows)| && db.rows == map[]
  {
    count := db.Count(All);
    db.DeleteWhere(All);
  }
}

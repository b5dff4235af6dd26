/** The key-value variant of api/todos.py (api/todos_kv.py): the whole task
    list is one stored value, and a second stored value is the last id handed
    out. Storage reads and writes are modelled as plain reads and writes of the
    two fields of `KvStore`. */
module ApiTodosKv {
  import opened Models
  import opened Listing
  import opened Paths

  /** `get_todos` without the HTTP layer: filter by status, then Python's
      stable sort on created_at with reverse=True. */
  function Listed(todos: seq<Todo>, st: Status): (r: seq<Todo>)
    ensures SortedDesc(r)
    ensures multiset(r) == multiset(FilterByStatus(todos, st))
    ensures forall k :: CreatedAt(r, k) == CreatedAt(FilterByStatus(todos, st), k)
  {
    var filtered := FilterByStatus(todos, st);
    SortByCreatedDescSpec(filtered);
    assert forall k :: CreatedAt(SortByCreatedDesc(filtered), k) == CreatedAt(filtered, k) by {
      forall k { SortByCreatedDescStable(filtered, k); }
    }
    SortByCreatedDesc(filtered)
  }

  /** The index of the first record with this id. */
  function IndexOfId(s: seq<Todo>, id: int): (i: nat)
    requires HasId(s, id)
    ensures i < |s| && s[i].id == id
    ensures forall j :: 0 <= j < i ==> s[j].id != id
  {
    if s[0].id == id then 0
    else
      assert HasId(s[1..], id) by {
        var k :| 0 <= k < |s| && s[k].id == id;
        assert s[1..][k - 1] == s[k];
      }
      1 + IndexOfId(s[1..], id)
  }

  class KvStore {
    /** The list stored under "todos_data". */
    var todos: seq<Todo>
    /** The value stored under "todos_next_id": the last id handed out, if any. */
    var nextIdKey: Option<nat>

    /** The id the next create receives. */
    function FreshId(): nat
      reads this
    {
      match nextIdKey
      case None => 1
      case Some(n) => n + 1
    }

    /** Ids are distinct and every stored id is below the next one handed out. */
    ghost predicate Valid()
      reads this
    {
      && IdsDistinct(todos)
      && forall t :: t in todos ==> 1 <= t.id < FreshId()
    }

    constructor ()
      ensures Valid() && todos == [] && nextIdKey == None
    {
      todos := [];
      nextIdKey := None;
    }

    /** `get_next_id`: 1 when no counter is stored, otherwise one more than the
        stored value; the value returned is stored. */
    method GetNextId() returns (id: nat)
      modifies this
      ensures id == old(FreshId()) && id >= 1
      ensures nextIdKey == Some(id) && FreshId() == id + 1
      ensures todos == old(todos)
    {
      if nextIdKey.None? {
        id := 1;
      } else {
        id := nextIdKey.value + 1;
      }
      nextIdKey := Some(id);
    }

    /** `add_todo_to_kv`: appends one record with a fresh id, leaving the
        records before it as they were. */
    method AddTodo(c: TodoCreate, now: Timestamp) returns (todo: Todo)
      requires Valid()
      modifies this
      ensures Valid()
      ensures todo == NewRecord(old(FreshId()), c, now)
      ensures forall t :: t in old(todos) ==> t.id < todo.id
      ensures todos == old(todos) + [todo]
      ensures FreshId() == todo.id + 1
    {
      var list := todos;
      var id := GetNextId();
      todo := NewRecord(id, c, now);
      list := list + [todo];
      todos := list;
    }

    /** `create_todo`: a body without a title fails (500, the KeyError);
        `completed` defaults to false. */
    method CreateTodo(body: TodoUpdate, now: Timestamp) returns (res: Result<Todo, HttpError>)
      requires Valid()
      modifies this
      ensures Valid()
      ensures body.title.None? ==>
                && res == Failure(HttpError(500, MissingTitle))
                && todos == old(todos) && nextIdKey == old(nextIdKey)
      ensures body.title.Some? ==>
                && res == Success(NewRecord(old(FreshId()), ParseCreate(body).value, now))
                && todos == old(todos) + [res.value]
    {
      var c := ParseCreate(body);
      if c.None? {
        return Failure(HttpError(500, MissingTitle));
      }
      var todo := AddTodo(c.value, now);
      res := Success(todo);
    }

    /** `get_todos`: the status defaults to 'all'. */
    method GetTodos(status: Option<string>) returns (r: seq<Todo>)
      ensures r == Listed(todos, StatusParam(status))
    {
      var list := todos;
      r := Listed(list, StatusParam(status));
    }

    /** `update_todo`: a linear search for the first record with the id; the
        id text is converted to an integer at each comparison, so an empty list
        never converts it (404) and a non-empty list with a non-integer id fails
        with 500. A found record gets the supplied fields and always a new
        updated_at; nothing is stored when nothing is found. */
    method UpdateTodo(idText: string, body: TodoUpdate, now: Timestamp)
      returns (res: Result<Todo, HttpError>)
      requires Valid()
      modifies this
      ensures Valid() && nextIdKey == old(nextIdKey)
      ensures res.Failure? ==> todos == old(todos)
      ensures old(todos) == [] ==> res == Failure(HttpError(404, NotFound))
      ensures old(todos) != [] && ParseId(idText).None? ==> res == Failure(HttpError(500, InvalidId))
      ensures old(todos) != [] && ParseId(idText).Some? ==>
                var id := ParseId(idText).value;
                && (!HasId(old(todos), id) ==> res == Failure(HttpError(404, NotFound)))
                && (HasId(old(todos), id) ==>
                      var i := IndexOfId(old(todos), id);
                      && res == Success(Patched(old(todos)[i], body, now))
                      && todos == old(todos)[i := res.value])
    {
      var list := todos;
      var i := 0;
      var found := -1;
      while i < |list|
        invariant 0 <= i <= |list|
        invariant i > 0 ==> ParseId(idText).Some?
        invariant ParseId(idText).Some? ==> forall j :: 0 <= j < i ==> list[j].id != ParseId(idText).value
      {
        var key := ParseId(idText);
        if key.None? {
          return Failure(HttpError(500, InvalidId));
        }
        if list[i].id == key.value {
          found := i;
          break;
        }
        i := i + 1;
      }
      if found < 0 {
        return Failure(HttpError(404, NotFound));
      }
      assert HasId(list, list[found].id);
      var todo := Patched(list[found], body, now);
      list := list[found := todo];
      assert forall j :: 0 <= j < |list| ==> list[j].id == old(todos)[j].id;
      todos := list;
      res := Success(todo);
    }

    /** `delete_todo`: keeps the records with another id; 404, and nothing
        stored, when the length did not change. As in `update_todo`, the id text
        is converted only when there is a record to compare it with. */
    method DeleteTodo(idText: string) returns (res: Result<Deletion, HttpError>)
      requires Valid()
      modifies this
      ensures Valid() && nextIdKey == old(nextIdKey)
      ensures res.Failure? ==> todos == old(todos)
      ensures old(todos) == [] ==> res == Failure(HttpError(404, NotFound))
      ensures old(todos) != [] && ParseId(idText).None? ==> res == Failure(HttpError(500, InvalidId))
      ensures old(todos) != [] && ParseId(idText).Some? ==>
                var id := ParseId(idText).value;
                && (res.Success? <==> HasId(old(todos), id))
                && (res.Failure? ==> res.error == HttpError(404, NotFound))
                && (res.Success? ==>
                      && res.value == OneDeleted
                      && todos == WithoutId(old(todos), id)
                      && |todos| == |old(todos)| - 1)
    {
      var list := todos;
      var key := ParseId(idText);
      if list != [] && key.None? {
        return Failure(HttpError(500, InvalidId));
      }
      var kept := if list == [] then [] else WithoutId(list, key.value);
      if |kept| == |list| {
        if list != [] {
          WithoutIdLength(list, key.value);
        }
        return Failure(HttpError(404, NotFound));
      }
      WithoutIdLength(list, key.value);
      WithoutPresentId(list, key.value);
      WithoutIdKeepsIdsDistinct(list, key.value);
      todos := kept;
      res := Success(OneDeleted);
    }

    /** `delete_completed_todos`: keeps the incomplete records in their order
        and reports how many completed records went. */
    method DeleteCompletedTodos() returns (count: nat)
      requires Valid()
      modifies this
      ensures Valid() && nextIdKey == old(nextIdKey)
      ensures todos == FilterByStatus(old(todos), Active)
      ensures count == |FilterByStatus(old(todos), Completed)|
      ensures count == |old(todos)| - |todos|
    {
      var list := todos;
      var originalLength := |list|;
      list := FilterByStatus(list, Active);
      ActiveCompletedPartition(old(todos));
      FilterKeepsIdsDistinct(old(todos), Active);
      count := originalLength - |list|;
      todos := list;
    }

    /** `delete_all_todos`: reports the previous length and stores the empty
        list; the id counter is kept, so ids are not reused. */
    method DeleteAllTodos() returns (count: nat)
      requires Valid()
      modifies this
      ensures Valid() && nextIdKey == old(nextIdKey)
      ensures count == |old(todos)| && todos == []
    {
      count := |todos|;
      todos := [];
    }

    /** `do_PUT`. */
    method HandlePut(path: string, body: TodoUpdate, now: Timestamp)
      returns (res: Result<Todo, HttpError>)
      requires Valid()
      modifies this
      ensures Valid() && nextIdKey == old(nextIdKey)
      ensures RoutePut(path).None? ==>
                res == Failure(HttpError(404, NotFound)) && todos == old(todos)
      ensures res.Failure? ==> todos == old(todos)
      ensures RoutePut(path).Some? ==>
                var idText := RoutePut(path).value;
                && (old(todos) == [] ==> res == Failure(HttpError(404, NotFound)))
                && (old(todos) != [] && ParseId(idText).None? ==>
                      res == Failure(HttpError(500, InvalidId)))
                && (old(todos) != [] && ParseId(idText).Some? ==>
                      var id := ParseId(idText).value;
                      && (!HasId(old(todos), id) ==> res == Failure(HttpError(404, NotFound)))
                      && (HasId(old(todos), id) ==>
                            var i := IndexOfId(old(todos), id);
                            && res == Success(Patched(old(todos)[i], body, now))
                            && todos == old(todos)[i := res.value]))
    {
      match RoutePut(path)
      case None =>
        res := Failure(HttpError(404, NotFound));
      case Some(idText) =>
        res := UpdateTodo(idText, body, now);
    }

    /** `do_DELETE` with the corrected dispatch. */
    method HandleDelete(path: string) returns (res: Result<Deletion, HttpError>)
      requires Valid()
      modifies this
      ensures Valid() && nextIdKey == old(nextIdKey)
      ensures RouteDelete(path) == NoRoute ==>
                res == Failure(HttpError(404, NotFound)) && todos == old(todos)
      ensures RouteDelete(path) == DeleteCompleted ==>
                && res == Success(BulkDeleted(|FilterByStatus(old(todos), Completed)|))
                && todos == FilterByStatus(old(todos), Active)
      ensures RouteDelete(path) == DeleteAll ==>
                res == Success(BulkDeleted(|old(todos)|)) && todos == []
      ensures res.Failure? ==> todos == old(todos)
      ensures RouteDelete(path).DeleteOne? ==>
                var idText := RouteDelete(path).idText;
                && (old(todos) == [] ==> res == Failure(HttpError(404, NotFound)))
                && (old(todos) != [] && ParseId(idText).None? ==>
                      res == Failure(HttpError(500, InvalidId)))
                && (old(todos) != [] && ParseId(idText).Some? ==>
                      var id := ParseId(idText).value;
                      && (res.Success? <==> HasId(old(todos), id))
                      && (res.Failure? ==> res.error == HttpError(404, NotFound))
                      && (res.Success? ==> res.value == OneDeleted && todos == WithoutId(old(todos), id)))
    {
      match RouteDelete(path)
      case DeleteOne(idText) =>
        res := DeleteTodo(idText);
      case DeleteCompleted =>
        var count := DeleteCompletedTodos();
        res := Success(BulkDeleted(count));
      case DeleteAll =>
        var count := DeleteAllTodos();
        res := Success(BulkDeleted(count));
      case NoRoute =>
        res := Failure(HttpError(404, NotFound));
    }
  }

  /** The bulk paths, each with and without the trailing slash `do_DELETE`
      accepts. */
  predicate IsBulkCompletedPath(path: string) {
    path == "/api/todos/completed" || path == "/api/todos/completed/"
  }

  predicate IsBulkAllPath(path: string) {
    path == "/api/todos/all" || path == "/api/todos/all/"
  }

  /** `do_PUT`: a single update of the last path segment, except for the two
      bulk paths. */
  function RoutePut(path: string): (r: Option<string>)
    ensures r.Some? <==>
              StartsWith(path, "/api/todos/") && path != "/api/todos/completed" && path != "/api/todos/all"
    ensures r.Some? ==> r.value == LastPart(path) && '/' !in r.value
  {
    LastPartIsFinalSegment(path);
    if StartsWith(path, "/api/todos/") && path != "/api/todos/completed" && path != "/api/todos/all"
    then Some(LastPart(path))
    else None
  }

  /** `do_DELETE` as written: the single-delete test excludes only the bulk
      paths without a trailing slash. */
  function RouteDeleteAsWritten(path: string): DeleteRoute {
    if StartsWith(path, "/api/todos/") && path != "/api/todos/completed" && path != "/api/todos/all"
    then DeleteOne(LastPart(path))
    else if IsBulkCompletedPath(path) then DeleteCompleted
    else if IsBulkAllPath(path) then DeleteAll
    else NoRoute
  }

  /** As written, the trailing-slash bulk paths become a single delete of the
      empty id: a 404 on an empty list and a failed conversion (500) otherwise,
      never the bulk delete their own branches were written for. */
  lemma TrailingSlashBulkIsSingleDelete()
    ensures RouteDeleteAsWritten("/api/todos/completed/") == DeleteOne("")
    ensures RouteDeleteAsWritten("/api/todos/all/") == DeleteOne("")
    ensures ParseId("") == None
  {
    var c := "/api/todos/completed/";
    var a := "/api/todos/all/";
    assert StartsWith(c, "/api/todos/") && StartsWith(a, "/api/todos/");
    assert c[..|c| - 1][|c| - 2] != '/';
    assert a[..|a| - 1][|a| - 2] != '/';
    assert Split(c) == Split(c[..|c| - 1]) + [[]];
    assert Split(a) == Split(a[..|a| - 1]) + [[]];
  }

  /** The dispatch the bulk branches were written for: every spelling of a bulk
      path reaches its bulk delete, everything else under /api/todos/ is a
      single delete as before. */
  function RouteDelete(path: string): (r: DeleteRoute)
    ensures r == DeleteCompleted <==> IsBulkCompletedPath(path)
    ensures r == DeleteAll <==> IsBulkAllPath(path)
    ensures r.DeleteOne? <==>
              StartsWith(path, "/api/todos/") && !IsBulkCompletedPath(path) && !IsBulkAllPath(path)
    ensures r.DeleteOne? ==> r == RouteDeleteAsWritten(path)
  {
    if IsBulkCompletedPath(path) then DeleteCompleted
    else if IsBulkAllPath(path) then DeleteAll
    else if StartsWith(path, "/api/todos/") then DeleteOne(LastPart(path))
    else NoRoute
  }
}

/** The todo record and the request bodies of backend/models.py, shared by every
    backend variant and by the browser client. */
module Models {

  datatype Option<+T> = None | Some(value: T)

  datatype Result<+T, +E> = Success(value: T) | Failure(error: E)

  /** An abstract instant; the stores take the current one as an argument. */
  type Timestamp = nat

  /** Why a request failed. */
  datatype ErrorKind =
    | NotFound            // no row / record with the requested id
    | NoFieldsToUpdate    // an update body with neither title nor completed
    | MissingTitle        // a create body without a title
    | InvalidId           // a path segment that is not an integer

  /** A failure as the HTTP layer reports it: a status code and its cause. */
  datatype HttpError = HttpError(status: nat, kind: ErrorKind)

  /** What a successful DELETE reports: one record removed, or how many a bulk
      delete removed. */
  datatype Deletion = OneDeleted | BulkDeleted(count: nat)

  /** TodoBase, and TodoCreate which adds nothing to it. */
  datatype TodoCreate = TodoCreate(title: string, completed: bool)

  /** TodoUpdate: both fields optional. The JSON bodies the other backends read
      are modelled the same way, by which of the two keys they carry. */
  datatype TodoUpdate = TodoUpdate(title: Option<string>, completed: Option<bool>)

  /** Todo and TodoResponse: TodoBase plus the id and the two timestamps the
      store assigns. */
  datatype Todo = Todo(id: int, title: string, completed: bool,
                       createdAt: Timestamp, updatedAt: Timestamp)

  predicate IsEmptyUpdate(u: TodoUpdate) {
    u.title.None? && u.completed.None?
  }

  /** The TodoBase part of a stored record. */
  function Base(t: Todo): TodoCreate {
    TodoCreate(t.title, t.completed)
  }

  /** A record as a create operation stores it: both timestamps are `now`. */
  function NewRecord(id: int, c: TodoCreate, now: Timestamp): Todo {
    Todo(id, c.title, c.completed, now, now)
  }

  /** Reads a create body: the title is required, `completed` defaults to false.
      No blank-title check happens here or in any backend. */
  function ParseCreate(body: TodoUpdate): (r: Option<TodoCreate>)
    ensures r.None? <==> body.title.None?
    ensures r.Some? ==> r.value.title == body.title.value
    ensures r.Some? ==> (r.value.completed <==> body.completed == Some(true))
  {
    match body.title
    case None => None
    case Some(title) =>
      Some(TodoCreate(title, match body.completed case Some(c) => c case None => false))
  }

  /** A partial update: each supplied field replaces the stored one, the other
      fields are kept, and `updated_at` becomes `now`. */
  function Patched(t: Todo, u: TodoUpdate, now: Timestamp): Todo {
    t.(title := match u.title case Some(x) => x case None => t.title,
       completed := match u.completed case Some(c) => c case None => t.completed,
       updatedAt := now)
  }

  /** A patch never touches the identity or the creation time, and it changes a
      field only when the update supplies it. */
  lemma PatchedChangesOnlySupplied(t: Todo, u: TodoUpdate, now: Timestamp)
    ensures Patched(t, u, now).id == t.id
    ensures Patched(t, u, now).createdAt == t.createdAt
    ensures Patched(t, u, now).updatedAt == now
    ensures u.title.None? ==> Patched(t, u, now).title == t.title
    ensures u.completed.None? ==> Patched(t, u, now).completed == t.completed
    ensures u.title.Some? ==> Patched(t, u, now).title == u.title.value
    ensures u.completed.Some? ==> Patched(t, u, now).completed == u.completed.value
  {
  }

  /** Applying the same update twice at the same instant is applying it once. */
  lemma PatchedIdempotent(t: Todo, u: TodoUpdate, now: Timestamp)
    ensures Patched(Patched(t, u, now), u, now) == Patched(t, u, now)
  {
  }

  /** An empty update only moves `updated_at`. */
  lemma EmptyPatchOnlyTouchesTimestamp(t: Todo, u: TodoUpdate, now: Timestamp)
    requires IsEmptyUpdate(u)
    ensures Patched(t, u, now) == t.(updatedAt := now)
  {
  }

  /** Nothing rejects an empty or blank title on the way into a store: every
      title, the empty one and one of only spaces included, is stored as sent. */
  lemma BlankTitleIsAccepted(title: string, completed: Option<bool>)
    ensures ParseCreate(TodoUpdate(Some(title), completed))
            == Some(TodoCreate(title, completed == Some(true)))
  {
  }
}

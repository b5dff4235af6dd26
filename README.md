# Todo store — a Dafny model

This project models the todo store of a small todo application and proves
properties of that model. A task ("todo") has an `id`, a `title`, a
`completed` flag and two timestamps, `created_at` and `updated_at`. The store
supports six operations:

- list by status (`all`, `active`, `completed`);
- create;
- partial update;
- delete one task;
- delete the completed tasks;
- delete all tasks.

The repository implements the store four times, and each is modelled
separately because each behaves differently:

- `backend/routers/todos.py`, a FastAPI router over SQLite: module `BackendRouter`;
- `api/todos.py`, a hand-written HTTP handler over SQLite: module `ApiTodos`;
- `netlify/functions/todos.js`, a serverless handler over SQLite: module `NetlifyTodos`;
- `api/todos_kv.py`, a key-value variant that stores the whole list and an id counter: module `ApiTodosKv`.

The three SQLite variants share one abstract table in `Database.TodoTable`:

- a map from id to record;
- the AUTOINCREMENT counter;
- a ghost set of every id ever handed out, so that the model can state that ids are never reused.

Each table method is one SQL statement. The handlers add the logic each
variant wraps around those statements.

The browser client has three parts:

- `App`: the list updaters and the client-side filter;
- `FilterBar`: the counts and the guarded callbacks;
- `TodoForm`: title trimming and validation.

Shared definitions:

- `Models`: the records and request bodies of `backend/models.py`;
- `Listing`: the status filter, removal by id, and the ordering by `created_at` descending;
- `Paths`: path splitting and reading an id from a path segment.

The variants differ in how they treat an update with neither field:

- `BackendRouter.UpdateTodo` rejects it with 400, after the 404 check.
- `NetlifyTodos.UpdateTodo` rejects it before touching the table, whether or not the row exists.
- `ApiTodos.UpdateTodo` issues no UPDATE and returns the row unchanged, including `updated_at`.
- `ApiTodosKv.KvStore.UpdateTodo` refreshes `updated_at` anyway.

No backend rejects an empty or blank title; only the form does (`Models.BlankTitleIsAccepted`).

The client's add handler (`App.AppState.HandleAddTodo`) catches its own
failure, so the form's callback always resolves. As a result, the form clears
its input even when the server refused the new todo. `TodoForm.TodoFormState.HandleSubmit`
takes the callback's outcome as an input, so it covers both cases.

Conventions:

- Time is an abstract `nat` supplied by the caller.
- A JSON body is modelled by which of `title` and `completed` it carries.
- The outcome of a client request (success, or the server's copy of a record) is a parameter.

## Model

| member | source | states |
|---|---|---|
| Models.ParseCreate | backend/models.py:8-15 | a create body is accepted exactly when it has a title; the title is kept and `completed` defaults to false |
| Models.PatchedChangesOnlySupplied | backend/routers/todos.py:116-131 | a partial update keeps the id and `created_at`, sets `updated_at`, and changes a field exactly when the update supplies it |
| Models.PatchedIdempotent | backend/models.py:17-20 | applying the same partial update twice at the same instant equals applying it once |
| Models.EmptyPatchOnlyTouchesTimestamp | api/todos_kv.py:203-208 | an update with neither field only moves `updated_at` |
| Models.BlankTitleIsAccepted | api/todos.py:142-145 | every title, the empty one and one of only spaces included, passes the body check unchanged, with `completed` true only when sent as true |
| Listing.ParseStatus | api/todos_kv.py:133-142 | only "active", "completed" and "all" are recognised, each exactly |
| Listing.FilterByStatus | api/todos_kv.py:139-142 | the result holds exactly the records of the list that the status selects |
| Listing.NothingSelectedFiltersEmpty | frontend/src/App.js:206-217 | a filter that selects no record of the list yields the empty list |
| Listing.UnrestrictedFilterKeepsAll | api/todos_kv.py:139-142 | 'all' and every unknown status keep the list unchanged |
| Listing.FilterAppend | frontend/src/App.js:206-217 | filtering distributes over concatenation, so relative order is preserved |
| Listing.FilterIdempotent | api/todos_kv.py:139-142 | filtering twice with the same status is filtering once |
| Listing.ActiveCompletedPartition | api/todos_kv.py:247-250 | the active and completed records split the list: their counts add up to its length and their multisets add up to its multiset |
| Listing.WithoutId | api/todos_kv.py:227 | the result holds exactly the records whose id differs, and is no longer than the list |
| Listing.WithoutIdLength | api/todos_kv.py:227-231 | removal by id leaves the length unchanged exactly when no record had that id |
| Listing.WithoutAbsentId | api/todos_kv.py:229-231 | removing an absent id changes nothing |
| Listing.FilterKeepsIdsDistinct | api/todos_kv.py:249 | filtering keeps ids distinct |
| Listing.WithoutIdKeepsIdsDistinct | api/todos_kv.py:227 | removal by id keeps ids distinct |
| Listing.WithoutPresentId | api/todos_kv.py:227-233 | with distinct ids, removing a present id removes exactly one record |
| Listing.InsertDescSpec | api/todos_kv.py:145 | inserting into a list sorted by `created_at` descending keeps it sorted and adds exactly that record |
| Listing.InsertDescStable | api/todos_kv.py:145 | the inserted record goes after every record with the same `created_at` |
| Listing.SortByCreatedDescSpec | api/todos_kv.py:145 | the sort yields a permutation of its input, ordered by `created_at` descending |
| Listing.SortByCreatedDescStable | api/todos_kv.py:145 | the sort is stable: records with equal `created_at` keep their input order |
| Paths.Split | api/todos_kv.py:44 | splitting on '/' yields at least one piece and no piece contains '/' |
| Paths.JoinSplit | api/todos_kv.py:44 | joining the pieces with '/' gives the path back |
| Paths.LastPartIsFinalSegment | api/todos_kv.py:44 | the last piece is the longest suffix without '/', preceded by '/' when shorter than the path |
| Paths.NonEmpty | netlify/functions/todos.js:66 | keeps exactly the non-empty pieces |
| Paths.TrailingSlashIgnored | netlify/functions/todos.js:66-67 | a trailing slash does not change the endpoint |
| Paths.EndpointOfAppendedSegment | netlify/functions/todos.js:66-67 | the endpoint of `prefix/segment` is the segment, whatever the prefix |
| Paths.IdText | frontend/src/services/api.js:85 | the decimal text of an id is a non-empty run of digits |
| Paths.ParseIdText | frontend/src/services/api.js:100 | the id segment the client writes reads back as the id |
| Paths.BulkNamesAreNotIds | frontend/src/services/api.js:114-128 | "completed", "all" and the empty segment are not ids |
| Database.Unselected | backend/routers/todos.py:190-211 | a bulk DELETE keeps exactly the rows the status does not select, unchanged |
| Database.CompletedActiveSplit | backend/routers/todos.py:186-193 | the completed and incomplete row counts add up to the table size, and deleting the completed rows leaves exactly the incomplete ones |
| Database.TodoTable.constructor | backend/database.py:34-38 | a fresh table is empty and has handed out no id |
| Database.TodoTable.SelectById | backend/routers/todos.py:106-107 | finds a row exactly when its id is a key, and returns that row |
| Database.TodoTable.Insert | backend/database.py:34 | the new row has both timestamps equal to now and an id one above any id ever issued, so ids are never reused |
| Database.TodoTable.UpdateById | backend/routers/todos.py:127-131 | reports one change when the row exists and patches only that row, otherwise nothing |
| Database.TodoTable.DeleteById | backend/routers/todos.py:169 | removes exactly that key and reports whether it existed |
| Database.TodoTable.Count | backend/routers/todos.py:186-187 | counts the rows the status selects; for 'all' this is the table size |
| Database.TodoTable.DeleteWhere | backend/routers/todos.py:190 | leaves exactly the unselected rows; 'all' empties the table |
| Database.TodoTable.SelectOrdered | backend/routers/todos.py:31-36 | returns every selected row exactly once, ids distinct, ordered by `created_at` descending |
| BackendRouter.GetTodos | backend/routers/todos.py:31-51 | 'active' and 'completed' select by the flag; no status or any other value lists every row; ordered by `created_at` descending |
| BackendRouter.CreateTodo | backend/routers/todos.py:68-88 | one new row with the body's fields, equal timestamps and a never-used id; other rows unchanged |
| BackendRouter.UpdateTodo | backend/routers/todos.py:106-131 | 404 for a missing row; then 400 for an empty update, table unchanged; otherwise only the supplied fields and `updated_at` change |
| BackendRouter.DeleteTodo | backend/routers/todos.py:162-172 | 404 exactly when the row is missing; otherwise exactly that row goes |
| BackendRouter.DeleteCompletedTodos | backend/routers/todos.py:186-193 | the count is the number of completed rows before the delete; only the incomplete rows remain, unchanged |
| BackendRouter.DeleteAllTodos | backend/routers/todos.py:207-214 | the count is the table size before the delete; the table ends empty |
| ApiTodos.GetTodos | api/todos.py:96-103 | the status defaults to 'all'; only 'active' and 'completed' restrict; ordered by `created_at` descending |
| ApiTodos.CreateTodo | api/todos.py:142-150 | a body without a title fails with 500 and leaves the table, the id counter and the issued ids unchanged; otherwise one new row, with `completed` defaulting to false |
| ApiTodos.UpdateTodo | api/todos.py:184-212 | 404 with no UPDATE for a missing row; an empty body returns the row unchanged, `updated_at` included; otherwise only the supplied columns and `updated_at` change |
| ApiTodos.DeleteTodo | api/todos.py:242-250 | 404 exactly when no row has that id; otherwise exactly that row goes |
| ApiTodos.DeleteCompletedTodos | api/todos.py:271-275 | reports the completed count before the delete; afterwards no row is completed |
| ApiTodos.DeleteAllTodos | api/todos.py:296-300 | reports the row count before the delete; the table ends empty |
| ApiTodos.BulkDeleteUnreachable | api/todos.py:50-56 | as written, no path reaches either bulk delete, and `/api/todos/completed` becomes a single delete of the id "completed" |
| ApiTodos.RouteDelete | api/todos.py:50-58 | with the bulk paths checked first, each bulk path reaches its bulk delete, and every other path under `/api/todos/` routes as before |
| ApiTodos.HandleDelete | api/todos.py:45-58 | the corrected dispatch: a bulk path runs its bulk delete; a single path succeeds exactly when its id names a row, deleting that row and no other, and otherwise answers 404 and changes nothing |
| ApiTodosKv.Listed | api/todos_kv.py:133-145 | the listing is a permutation of the filtered list, ordered by `created_at` descending, with ties in list order |
| ApiTodosKv.IndexOfId | api/todos_kv.py:193-196 | the index of the first record with the id |
| ApiTodosKv.KvStore.constructor | api/todos_kv.py:72-78 | nothing stored: an empty list and no counter |
| ApiTodosKv.KvStore.GetNextId | api/todos_kv.py:92-101 | returns 1 when no counter is stored, otherwise the stored value plus one, and stores what it returns |
| ApiTodosKv.KvStore.AddTodo | api/todos_kv.py:106-122 | appends exactly one record with a fresh id larger than every stored id; earlier records unchanged |
| ApiTodosKv.KvStore.CreateTodo | api/todos_kv.py:158-180 | a body without a title fails with 500 and stores nothing; otherwise appends the new record, with `completed` defaulting to false |
| ApiTodosKv.KvStore.GetTodos | api/todos_kv.py:127-145 | the result is the stable sorted listing of the filtered list |
| ApiTodosKv.KvStore.UpdateTodo | api/todos_kv.py:189-211 | an empty list gives 404; a non-integer id on a non-empty list gives 500; a missing id gives 404 and stores nothing; otherwise the first record with the id gets the supplied fields and a new `updated_at`, and no other record changes |
| ApiTodosKv.KvStore.DeleteTodo | api/todos_kv.py:225-233 | succeeds exactly when a record has the id, and then removes exactly one record; otherwise 404 (500 for a non-integer id on a non-empty list) and nothing stored |
| ApiTodosKv.KvStore.DeleteCompletedTodos | api/todos_kv.py:247-252 | keeps the incomplete records in order; the count is the number of completed records removed |
| ApiTodosKv.KvStore.DeleteAllTodos | api/todos_kv.py:266-268 | reports the previous length and stores the empty list, keeping the id counter |
| ApiTodosKv.KvStore.HandlePut | api/todos_kv.py:38-47 | a path outside the update route gives 404 and changes nothing; a routed update behaves as `UpdateTodo` on the last segment: 404 on an empty list, 500 on an id that is not an integer, 404 on an absent id, otherwise the first todo with the id is patched in place and nothing else changes |
| ApiTodosKv.KvStore.HandleDelete | api/todos_kv.py:49-62 | the corrected dispatch: each bulk path, with or without a trailing slash, runs its bulk delete; a single delete behaves as `DeleteTodo`: 404 on an empty list, 500 on an id that is not an integer, 404 on an absent id, otherwise every todo with the id is removed |
| ApiTodosKv.RoutePut | api/todos_kv.py:43-47 | a PUT routes to an update exactly when the path is under `/api/todos/` and is not a bulk path; the id is the last segment |
| ApiTodosKv.TrailingSlashBulkIsSingleDelete | api/todos_kv.py:54-60 | as written, `/api/todos/completed/` and `/api/todos/all/` become a single delete of the empty id, which is not an id |
| ApiTodosKv.RouteDelete | api/todos_kv.py:54-62 | each bulk path, with or without a trailing slash, reaches its bulk delete; every other path under `/api/todos/` routes as before |
| NetlifyTodos.Respond | netlify/functions/todos.js:109-119 | a result becomes 200 with that body; every rejection becomes 500 with its message |
| NetlifyTodos.GetTodos | netlify/functions/todos.js:124-135 | the status defaults to 'all'; only 'active' and 'completed' restrict; ordered by `created_at` descending |
| NetlifyTodos.CreateTodo | netlify/functions/todos.js:157-188 | a missing title rejects and leaves the table, the id counter and the issued ids unchanged; otherwise one new row, with `completed` defaulting to false, returned as stored |
| NetlifyTodos.UpdateTodo | netlify/functions/todos.js:191-244 | an empty update rejects before any lookup, whether or not the row exists; a missing row rejects with "Task not found"; otherwise only the supplied fields and `updated_at` change |
| NetlifyTodos.DeleteTodo | netlify/functions/todos.js:247-263 | rejects exactly when no row was deleted; otherwise exactly that row goes |
| NetlifyTodos.DeleteCompletedTodos | netlify/functions/todos.js:266-286 | reports the completed count before the delete and leaves only the incomplete rows |
| NetlifyTodos.DeleteAllTodos | netlify/functions/todos.js:289-309 | reports the row count before the delete and empties the table |
| NetlifyTodos.Handle | netlify/functions/todos.js:47-121 | OPTIONS is 200; an unknown method is 405; only POST moves the id counter; GET is 200, gives the health object for the 'health' endpoint and otherwise the selected rows, newest first, each once; POST with a title is 200 with a new row under a never-issued id, without one 500 and nothing changes; PUT is 500 for an empty body or an absent row and otherwise 200 with the patched row stored; DELETE with endpoint 'completed' or 'all' runs a bulk delete, anything else deletes the named row or is 500 when it is absent |
| NetlifyTodos.BulkEndpoints | netlify/functions/todos.js:89-93 | the bulk paths reach the bulk deletes with or without a trailing slash, whatever the prefix |
| NetlifyTodos.IdEndpoint | netlify/functions/todos.js:85-96 | a path ending in an id's decimal text reaches that id |
| App.Prepended | frontend/src/App.js:96 | the new todo comes first, followed by the previous list unchanged |
| App.ReplacedById | frontend/src/App.js:126-130 | same length; every todo with the id is replaced by the server's copy, all others unchanged |
| App.RemainingTime | frontend/src/App.js:55-56 | never negative, at least the shortfall, and at most the minimum delay when elapsed time and delay are non-negative |
| App.AddThenDeleteRestores | frontend/src/App.js:96 | adding a todo with a new id and then deleting that id restores the list |
| App.ReplaceKeepsOthers | frontend/src/App.js:126-130 | replacing by id leaves the todos with other ids, in order, untouched |
| App.ToggledTodoInViews | frontend/src/App.js:126-130 | after a toggle the server's copy is in the list and in exactly the view its new state belongs to |
| App.ClearCompletedViews | frontend/src/App.js:153 | after clearing the completed todos, the completed view is empty and the active view is unchanged |
| App.AppState.constructor | frontend/src/App.js:14-18 | empty list, filter 'all', no error |
| App.AppState.FilteredTodos | frontend/src/App.js:206-217 | 'active' keeps exactly the incomplete todos, 'completed' the completed ones, any other filter the whole list |
| App.AppState.HandleAddTodo | frontend/src/App.js:86-116 | on success the created todo is put first; on failure the list is kept and the add error is shown |
| App.AppState.HandleToggleTodo | frontend/src/App.js:123-133 | on success the server's copy replaces the todo by id; on failure the list is kept and the operation error is shown |
| App.AppState.HandleDeleteTodo | frontend/src/App.js:139-145 | on success every todo with the id is removed; on failure the list is kept |
| App.AppState.HandleClearCompleted | frontend/src/App.js:150-156 | on success only the incomplete todos remain, in order |
| App.AppState.HandleClearAll | frontend/src/App.js:161-167 | on success the list is empty |
| App.AppState.HandleFilterChange | frontend/src/App.js:173-179 | the same filter changes nothing; a new one is set and clears the error |
| FilterBar.CompletedCount | frontend/src/components/FilterBar.jsx:15-16 | positive exactly when some todo is completed |
| FilterBar.Options | frontend/src/components/FilterBar.jsx:22-26 | the options are all, active and completed, in order; all counts the list and the other two add up to it |
| FilterBar.HandleFilterChange | frontend/src/components/FilterBar.jsx:32-36 | the callback fires exactly for a different filter |
| FilterBar.HandleClearCompleted | frontend/src/components/FilterBar.jsx:41-45 | fires exactly when some todo is completed and the user confirms |
| FilterBar.HandleClearAll | frontend/src/components/FilterBar.jsx:50-54 | fires exactly when the list is non-empty and the user confirms |
| TodoForm.LeadingSpace | frontend/src/components/TodoForm.jsx:19 | counts the white space the title starts with: every character before it is white space, the next one is not |
| TodoForm.TrailingSpace | frontend/src/components/TodoForm.jsx:19 | counts the white space the title ends with: every character after it is white space, the one before is not |
| TodoForm.Trim | frontend/src/components/TodoForm.jsx:19-31 | the part between leading and trailing white space, neither starting nor ending with white space |
| TodoForm.TrimIdempotent | frontend/src/components/TodoForm.jsx:31 | trimming a trimmed title changes nothing |
| TodoForm.TrimEmptyIffBlank | frontend/src/components/TodoForm.jsx:19 | the trimmed title is empty exactly when the title is all white space |
| TodoForm.Validate | frontend/src/components/TodoForm.jsx:19-31 | a blank title is refused as required; a trimmed title over 255 characters as too long; otherwise the payload is the trimmed title with `completed` false |
| TodoForm.SubmitDisabled | frontend/src/components/TodoForm.jsx:75 | the button is disabled exactly while loading or while the title is blank |
| TodoForm.EnabledSubmitIsNotBlank | frontend/src/components/TodoForm.jsx:19-27 | an enabled button never leads to the "required" error |
| TodoForm.TodoFormState.constructor | frontend/src/components/TodoForm.jsx:8-9 | empty title, no error |
| TodoForm.TodoFormState.HandleSubmit | frontend/src/components/TodoForm.jsx:15-37 | a refused title keeps the input and shows why; an accepted one is submitted trimmed; the input is cleared only when the callback succeeds, otherwise the title is kept and the add error is shown |
| TodoForm.TodoFormState.HandleInputChange | frontend/src/components/TodoForm.jsx:43-46 | takes the new text and clears any error |

## Left out

- The HTTP layer is not modelled. This covers `send_response`, headers, CORS, JSON encoding and decoding, `Content-Length`, the health check bodies, and FastAPI's app setup and route registration. FastAPI's own matching of `/todos/completed` against `/{todo_id}` and its 422 answers are also not modelled.
- JSON bodies are modelled only by which keys they carry. An explicit `null`, or a value of the wrong type, is not modelled.
- Path segments are read as ids only when they are runs of decimal digits. Python's `int()` also accepts signs, surrounding white space and underscores, and SQLite's type affinity has its own comparisons; neither is modelled. For those inputs the model answers 500 (key-value variant) or 404 (SQLite variants).
- SQLite connections, schema creation and the index are not modelled. The model borrows only the AUTOINCREMENT key and the NOT NULL title.
- The order of rows with equal `created_at` returned by `ORDER BY created_at DESC` is not fixed by SQL. `Database.TodoTable.SelectOrdered` states only the order and the contents.
- The key-value client is modelled as plain reads and writes of two fields. It is never defined in the source, and its `await` calls sit in non-async methods. Its exception fallbacks are not modelled (a failed read returning an empty list, a failed counter read returning 1, a failed save being ignored). With those fallbacks an id could be reused.
- Concurrency and atomicity are not modelled: the read-increment-write of the id counter, and count-then-delete against concurrent requests.
- Timestamps are abstract numbers supplied by the caller. Their text formats (`isoformat`, `CURRENT_TIMESTAMP`) and the string timestamps of `TodoResponse` (backend/models.py:31-37) are not modelled.
- ApiTodosKv.KvStore.AddTodo: `created_at` and `updated_at` come from two separate clock reads in the source; the model gives both the same instant.
- That `created_at` never exceeds `updated_at` depends on the clock, so it is not stated.
- The network client frontend/src/services/api.js is not part of this model beyond the paths it builds. Neither are rendering, toasts, timers, the loading flags and the connection check in App.js.
- The browser's `window.confirm` is a boolean input.
- TodoForm.Validate: the 255 limit counts characters; JavaScript's `length` counts UTF-16 code units, which differ for characters outside the Basic Multilingual Plane.

## Findings

| source | as written | input that shows it | evidently intended | confidence | as-written member | corrected member |
|---|---|---|---|---|---|---|
| api/todos.py:50-56 | the `startswith('/api/todos/')` test comes before the two bulk tests, so every bulk path is treated as a single delete | DELETE `/api/todos/completed` routes to a single delete of the id "completed", which answers 404 | the bulk paths reach the bulk deletes | high (not executed) | ApiTodos.RouteDeleteAsWritten, ApiTodos.BulkDeleteUnreachable | ApiTodos.RouteDelete |
| api/todos_kv.py:54-60 | the single-delete test excludes only the bulk paths without a trailing slash, so the `.../completed/` and `.../all/` spellings accepted by the bulk branches never reach them | DELETE `/api/todos/completed/` routes to a single delete of the empty id: 404 on an empty list, a failed conversion (500) otherwise | both spellings reach the bulk deletes | high (not executed) | ApiTodosKv.RouteDeleteAsWritten, ApiTodosKv.TrailingSlashBulkIsSingleDelete | ApiTodosKv.RouteDelete |

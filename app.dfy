/** The client's copy of the todo list in frontend/src/App.js: the list
    updaters each handler applies after its request succeeds, the client-side
    status filter, and the minimum-delay arithmetic. The outcome of each
    request is a parameter. */
module App {
  import opened Models
  import opened Listing

  /** The error line the page shows. */
  datatype AppError =
    | NoError          // the empty string
    | AddFailed        // the message handleAddTodo sets
    | OperationFailed  // the message executeWithMinDelay sets

  /** `[newTodo, ...prevTodos]`. */
  function Prepended(prev: seq<Todo>, newTodo: Todo): (r: seq<Todo>)
    ensures |r| == |prev| + 1 && r[0] == newTodo && r[1..] == prev
  {
    [newTodo] + prev
  }

  /** `prevTodos.map(todo => todo.id === id ? updatedTodo : todo)`. */
  function ReplacedById(prev: seq<Todo>, id: int, updated: Todo): (r: seq<Todo>)
    ensures |r| == |prev|
    ensures forall i :: 0 <= i < |r| ==> r[i] == if prev[i].id == id then updated else prev[i]
  {
    if prev == [] then []
    else [if prev[0].id == id then updated else prev[0]] + ReplacedById(prev[1..], id, updated)
  }

  /** `Math.max(0, minDelay - elapsedTime)`: never negative, never more than the
      minimum delay once some time has passed, and the exact shortfall when
      there is one. */
  function RemainingTime(minDelay: int, elapsed: int): (r: int)
    ensures r >= 0 && r >= minDelay - elapsed
    ensures r == 0 || r == minDelay - elapsed
    ensures elapsed >= 0 && minDelay >= 0 ==> r <= minDelay
  {
    if minDelay - elapsed > 0 then minDelay - elapsed else 0
  }

  /** A created todo the server gave a new id can be removed again, leaving the
      list it was added to. */
  lemma AddThenDeleteRestores(prev: seq<Todo>, x: Todo)
    requires !HasId(prev, x.id)
    ensures WithoutId(Prepended(prev, x), x.id) == prev
  {
    var r := Prepended(prev, x);
    assert r[1..] == prev;
    WithoutAbsentId(prev, x.id);
  }

  /** Replacing by id leaves every record with another id where it was. */
  lemma {:induction false} ReplaceKeepsOthers(prev: seq<Todo>, id: int, updated: Todo)
    requires updated.id == id
    ensures WithoutId(ReplacedById(prev, id, updated), id) == WithoutId(prev, id)
  {
    if prev != [] {
      var r := ReplacedById(prev, id, updated);
      assert r[1..] == ReplacedById(prev[1..], id, updated);
      ReplaceKeepsOthers(prev[1..], id, updated);
    }
  }

  /** After a toggle, the server's copy of the todo is in the list and shows up
      in exactly the view its new state belongs to. */
  lemma ToggledTodoInViews(prev: seq<Todo>, id: int, updated: Todo)
    requires HasId(prev, id) && updated.id == id
    ensures updated in ReplacedById(prev, id, updated)
    ensures updated in FilterByStatus(ReplacedById(prev, id, updated), Completed) <==> updated.completed
    ensures updated in FilterByStatus(ReplacedById(prev, id, updated), Active) <==> !updated.completed
  {
    var i :| 0 <= i < |prev| && prev[i].id == id;
    assert ReplacedById(prev, id, updated)[i] == updated;
  }

  /** After "clear completed" the completed view is empty and the active view
      is what it was. */
  lemma {:induction false} ClearCompletedViews(s: seq<Todo>)
    ensures FilterByStatus(FilterByStatus(s, Active), Completed) == []
    ensures FilterByStatus(FilterByStatus(s, Active), Active) == FilterByStatus(s, Active)
  {
    FilterIdempotent(s, Active);
    NothingSelectedFiltersEmpty(FilterByStatus(s, Active), Completed);
  }

  class AppState {
    var todos: seq<Todo>
    var filter: string
    var error: AppError

    constructor ()
      ensures todos == [] && filter == "all" && error == NoError
    {
      todos := [];
      filter := "all";
      error := NoError;
    }

    /** `filteredTodos`: 'active' keeps the incomplete todos, 'completed' the
        completed ones, any other filter keeps all, in list order. */
    function FilteredTodos(): (r: seq<Todo>)
      reads this
      ensures |r| <= |todos|
      ensures filter == "active" ==> forall t :: t in r <==> t in todos && !t.completed
      ensures filter == "completed" ==> forall t :: t in r <==> t in todos && t.completed
      ensures filter != "active" && filter != "completed" ==> r == todos
    {
      var st := ParseStatus(filter);
      if st == All || st == Other then UnrestrictedFilterKeepsAll(todos, st); FilterByStatus(todos, st)
      else ActiveCompletedPartition(todos); FilterByStatus(todos, st)
    }

    /** `handleAddTodo`: the created todo, if the request succeeded, goes first. */
    method HandleAddTodo(created: Option<Todo>)
      modifies this
      ensures filter == old(filter)
      ensures created.Some? ==> todos == Prepended(old(todos), created.value) && error == NoError
      ensures created.None? ==> todos == old(todos) && error == AddFailed
    {
      error := NoError;
      match created
      case Some(newTodo) =>
        todos := Prepended(todos, newTodo);
      case None =>
        error := AddFailed;
    }

    /** `handleToggleTodo`: the server's copy replaces every todo with that id. */
    method HandleToggleTodo(id: int, updated: Option<Todo>)
      modifies this
      ensures filter == old(filter)
      ensures updated.Some? ==> todos == ReplacedById(old(todos), id, updated.value) && error == NoError
      ensures updated.None? ==> todos == old(todos) && error == OperationFailed
    {
      error := NoError;
      match updated
      case Some(u) =>
        todos := ReplacedById(todos, id, u);
      case None =>
        error := OperationFailed;
    }

    /** `handleDeleteTodo`: drops every todo with that id once the request
        succeeded. */
    method HandleDeleteTodo(id: int, succeeded: bool)
      modifies this
      ensures filter == old(filter)
      ensures succeeded ==> todos == WithoutId(old(todos), id) && error == NoError
      ensures !succeeded ==> todos == old(todos) && error == OperationFailed
    {
      error := NoError;
      if succeeded {
        todos := WithoutId(todos, id);
      } else {
        error := OperationFailed;
      }
    }

    /** `handleClearCompleted`: keeps the incomplete todos, in order. */
    method HandleClearCompleted(succeeded: bool)
      modifies this
      ensures filter == old(filter)
      ensures succeeded ==> todos == FilterByStatus(old(todos), Active) && error == NoError
      ensures !succeeded ==> todos == old(todos) && error == OperationFailed
    {
      error := NoError;
      if succeeded {
        todos := FilterByStatus(todos, Active);
      } else {
        error := OperationFailed;
      }
    }

    /** `handleClearAll`: empties the list. */
    method HandleClearAll(succeeded: bool)
      modifies this
      ensures filter == old(filter)
      ensures succeeded ==> todos == [] && error == NoError
      ensures !succeeded ==> todos == old(todos) && error == OperationFailed
    {
      error := NoError;
      if succeeded {
        todos := [];
      } else {
        error := OperationFailed;
      }
    }

    /** `handleFilterChange`: nothing happens when the filter is the current
        one; otherwise the filter changes and, as with every wrapped operation,
        the error line is cleared. */
    method HandleFilterChange(newFilter: string)
      modifies this
      ensures todos == old(todos) && filter == newFilter
      ensures newFilter == old(filter) ==> error == old(error)
      ensures newFilter != old(filter) ==> error == NoError
    {
      if newFilter == filter {
        return;
      }
      error := NoError;
      filter := newFilter;
    }
  }
}

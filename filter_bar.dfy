/** The counts and guarded callbacks of frontend/src/components/FilterBar.jsx.
    The browser's confirmation dialog is a boolean input. */
module FilterBar {
  import opened Models
  import opened Listing

  /** One tab of the bar: the filter it selects and the count it shows. */
  datatype FilterOption = FilterOption(value: string, count: nat)

  /** The callback a click leads to. */
  datatype Callback = FilterChange(filter: string) | ClearCompleted | ClearAll

  /** Some todo in the list is completed. */
  predicate AnyCompleted(todos: seq<Todo>) {
    exists i :: 0 <= i < |todos| && todos[i].completed
  }

  /** `completedCount`: positive exactly when some todo is completed. */
  function CompletedCount(todos: seq<Todo>): (n: nat)
    ensures n <= |todos|
    ensures n > 0 <==> AnyCompleted(todos)
  {
    var done := FilterByStatus(todos, Completed);
    ActiveCompletedPartition(todos);
    if AnyCompleted(todos) then
      var i :| 0 <= i < |todos| && todos[i].completed;
      assert todos[i] in done;
      |done|
    else
      NothingSelectedFiltersEmpty(todos, Completed);
      |done|
  }

  /** `hasCompleted`. */
  predicate HasCompleted(todos: seq<Todo>) {
    CompletedCount(todos) > 0
  }

  /** `hasTodos`. */
  predicate HasTodos(todos: seq<Todo>) {
    |todos| > 0
  }

  /** `filterOptions`: all, active and completed, in that order; the active and
      completed counts add up to the 'all' count, the length of the list. */
  function Options(todos: seq<Todo>): (r: seq<FilterOption>)
    ensures |r| == 3
    ensures r[0].value == "all" && r[1].value == "active" && r[2].value == "completed"
    ensures r[0].count == |todos|
    ensures r[1].count + r[2].count == r[0].count
    ensures r[1].count == |FilterByStatus(todos, Active)|
    ensures r[2].count == |FilterByStatus(todos, Completed)|
  {
    ActiveCompletedPartition(todos);
    [ FilterOption("all", |todos|),
      FilterOption("active", |FilterByStatus(todos, Active)|),
      FilterOption("completed", CompletedCount(todos)) ]
  }

  /** `handleFilterChange`: the callback fires only for a different filter. */
  function HandleFilterChange(filter: string, currentFilter: string): (r: Option<Callback>)
    ensures r.Some? <==> filter != currentFilter
    ensures r.Some? ==> r.value == FilterChange(filter)
  {
    if filter != currentFilter then Some(FilterChange(filter)) else None
  }

  /** `handleClearCompleted`: fires only when some todo is completed and the
      user confirms. */
  function HandleClearCompleted(todos: seq<Todo>, confirmed: bool): (r: Option<Callback>)
    ensures r.Some? <==> AnyCompleted(todos) && confirmed
    ensures r.Some? ==> r.value == ClearCompleted
  {
    if HasCompleted(todos) && confirmed then Some(ClearCompleted) else None
  }

  /** `handleClearAll`: fires only when the list is non-empty and the user
      confirms. */
  function HandleClearAll(todos: seq<Todo>, confirmed: bool): (r: Option<Callback>)
    ensures r.Some? <==> todos != [] && confirmed
    ensures r.Some? ==> r.value == ClearAll
  {
    if HasTodos(todos) && confirmed then Some(ClearAll) else None
  }
}

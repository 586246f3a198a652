/** The Pinia task store (stores/taskStore.ts): the fetched task list, the task being viewed,
    the `loading`/`error` bookkeeping and the list filters. Every service call is an input
    outcome: the value the service resolved with, or a rejection. */
module TaskStore {
  import opened Wrappers
  import Seqs
  import Sorting

  /** A task as the service returns it. */
  datatype Task = Task(id: string, title: string, description: string, dueDate: string, priority: int, status: string)

  /** The store's `filters`; an absent key is `undefined`. */
  datatype Filters = Filters(status: Option<string>, sortBy: Option<string>, order: Option<string>)

  /** A `Partial<TaskQueryParams>`: for each key, whether it is given and, if so, its value
      (possibly `undefined`). */
  datatype FiltersPatch = FiltersPatch(status: Option<Option<string>>, sortBy: Option<Option<string>>, order: Option<Option<string>>)

  /** What an awaited service call did. */
  datatype Outcome<T> = Resolved(value: T) | Rejected

  /** What `toggleTaskStatus` answers: `false` for an unknown id, else what `updateTask` answered. */
  datatype ToggleResult = NotFound | Updated(task: Option<Task>)

  const DEFAULT_FILTERS: Filters := Filters(None, None, Some("asc"))
  const FETCH_TASKS_FAILED: string := "Failed to fetch tasks"
  const CREATE_FAILED: string := "Failed to create task"

  /** `findIndex(t => t.id === id)`: the first position holding that id, or -1. */
  function FindIndex(tasks: seq<Task>, id: string): (k: int)
    ensures -1 <= k < |tasks|
    ensures k >= 0 ==> tasks[k].id == id && forall j :: 0 <= j < k ==> tasks[j].id != id
    ensures k == -1 ==> forall j :: 0 <= j < |tasks| ==> tasks[j].id != id
  {
    if tasks == [] then -1
    else if tasks[0].id == id then 0
    else
      var k := FindIndex(tasks[1..], id);
      if k == -1 then -1 else k + 1
  }

  /** `getTaskById(id)`: `find`, the first task with that id. */
  function Find(tasks: seq<Task>, id: string): (r: Option<Task>)
    ensures r.Some? <==> exists i :: 0 <= i < |tasks| && tasks[i].id == id
    ensures r.Some? ==> r.value.id == id && r.value in tasks
    ensures r.Some? ==> FindIndex(tasks, id) >= 0 && r.value == tasks[FindIndex(tasks, id)]
  {
    var k := FindIndex(tasks, id);
    if k == -1 then None else Some(tasks[k])
  }

  /** `tasks[index] = task` at the first matching index, if any. */
  function ReplaceFirst(tasks: seq<Task>, id: string, t: Task): (r: seq<Task>)
    ensures |r| == |tasks|
    ensures forall i :: 0 <= i < |tasks| && i != FindIndex(tasks, id) ==> r[i] == tasks[i]
    ensures FindIndex(tasks, id) >= 0 ==> r[FindIndex(tasks, id)] == t
  {
    var k := FindIndex(tasks, id);
    if k == -1 then tasks else tasks[k := t]
  }

  /** Replacing touches only the first match: without a match the list is unchanged, later
      tasks with the same id keep their old value, and a replacement carrying that id is what
      `getTaskById` then finds. */
  lemma ReplaceFirstSpec(tasks: seq<Task>, id: string, t: Task)
    ensures (forall i :: 0 <= i < |tasks| ==> tasks[i].id != id) ==> ReplaceFirst(tasks, id, t) == tasks
    ensures forall i, j :: 0 <= i < j < |tasks| && tasks[i].id == id ==> ReplaceFirst(tasks, id, t)[j] == tasks[j]
    ensures t.id == id && Find(tasks, id).Some? ==> Find(ReplaceFirst(tasks, id, t), id) == Some(t)
  {
    var k := FindIndex(tasks, id);
    var r := ReplaceFirst(tasks, id, t);
    if t.id == id && k >= 0 {
      assert r[k].id == id;
    }
  }

  function HasStatus(status: string): Task -> bool {
    (t: Task) => t.status == status
  }

  function OtherId(id: string): Task -> bool {
    (t: Task) => t.id != id
  }

  /** `incompleteTasks`. */
  function Incomplete(tasks: seq<Task>): seq<Task> {
    Seqs.Filter(tasks, HasStatus("incomplete"))
  }

  /** `completeTasks`. */
  function Complete(tasks: seq<Task>): seq<Task> {
    Seqs.Filter(tasks, HasStatus("complete"))
  }

  /** The two status getters are disjoint, and when every status is one of the two they
      together hold every task. */
  lemma StatusGettersPartition(tasks: seq<Task>)
    ensures multiset(Incomplete(tasks)) !! multiset(Complete(tasks))
    ensures (forall i :: 0 <= i < |tasks| ==> tasks[i].status in {"incomplete", "complete"}) ==>
      multiset(Incomplete(tasks)) + multiset(Complete(tasks)) == multiset(tasks)
  {
    var inc, com := HasStatus("incomplete"), HasStatus("complete");
    forall t | t in multiset(Incomplete(tasks)) ensures t !in multiset(Complete(tasks)) {
      Seqs.FilterCount(tasks, inc, t);
      Seqs.FilterCount(tasks, com, t);
    }
    if forall i :: 0 <= i < |tasks| ==> tasks[i].status in {"incomplete", "complete"} {
      Seqs.FilterPartition(tasks, inc, com);
    }
  }

  /** The comparator `(a, b) => a.priority - b.priority`, read as "a may come before b". */
  predicate PriorityLeq(a: Task, b: Task) {
    a.priority <= b.priority
  }

  /** `tasksByPriority`: a sorted copy. */
  function ByPriority(tasks: seq<Task>): (r: seq<Task>)
    ensures multiset(r) == multiset(tasks) && |r| == |tasks|
  {
    Sorting.Sort(tasks, PriorityLeq)
  }

  /** The copy is in non-decreasing priority. No order among equal priorities is claimed. */
  lemma ByPriorityOrdered(tasks: seq<Task>)
    ensures forall i, j :: 0 <= i < j < |ByPriority(tasks)| ==> ByPriority(tasks)[i].priority <= ByPriority(tasks)[j].priority
  {
    assert Sorting.TotalPreorder(PriorityLeq);
    Sorting.SortIsSorted(tasks, PriorityLeq);
  }

  /** `{ ...this.filters, ...filters }`: the keys given win. */
  function Merge(f: Filters, patch: FiltersPatch): (r: Filters)
    ensures patch.status.Some? ==> r.status == patch.status.value
    ensures patch.status.None? ==> r.status == f.status
    ensures patch.sortBy.Some? ==> r.sortBy == patch.sortBy.value
    ensures patch.sortBy.None? ==> r.sortBy == f.sortBy
    ensures patch.order.Some? ==> r.order == patch.order.value
    ensures patch.order.None? ==> r.order == f.order
  {
    Filters(patch.status.GetOr(f.status), patch.sortBy.GetOr(f.sortBy), patch.order.GetOr(f.order))
  }

  /** Merging the same patch twice is merging it once; an empty patch changes nothing. */
  lemma MergeIdempotent(f: Filters, patch: FiltersPatch)
    ensures Merge(Merge(f, patch), patch) == Merge(f, patch)
    ensures Merge(f, FiltersPatch(None, None, None)) == f
  {
  }

  /** The status `toggleTaskStatus` asks for. */
  function Opposite(status: string): (r: string)
    ensures r in {"incomplete", "complete"}
    ensures status == "complete" <==> r == "incomplete"
  {
    if status == "complete" then "incomplete" else "complete"
  }

  /** On the two statuses, toggling twice gives the status back. */
  lemma OppositeTwice(status: string)
    requires status in {"incomplete", "complete"}
    ensures Opposite(Opposite(status)) == status && Opposite(status) != status
  {
  }

  class Store {
    var tasks: seq<Task>
    var currentTask: Option<Task>
    var loading: bool
    var error: Option<string>
    var filters: Filters

    constructor()
      ensures tasks == [] && currentTask == None && !loading && error == None && filters == DEFAULT_FILTERS
    {
      tasks := [];
      currentTask := None;
      loading := false;
      error := None;
      filters := DEFAULT_FILTERS;
    }

    function GetTaskById(id: string): Option<Task>
      reads this
    {
      Find(tasks, id)
    }

    function IncompleteTasks(): seq<Task>
      reads this
    {
      Incomplete(tasks)
    }

    function CompleteTasks(): seq<Task>
      reads this
    {
      Complete(tasks)
    }

    function TasksByPriority(): seq<Task>
      reads this
    {
      ByPriority(tasks)
    }

    /** `fetchTasks(params)`: asks with `params`, or with the store's filters when none are
        given (the query is returned); on success the list becomes what was fetched. */
    method FetchTasks(params: Option<Filters>, outcome: Outcome<seq<Task>>) returns (query: Filters)
      modifies this
      ensures query == params.GetOr(old(filters))
      ensures outcome.Resolved? ==> tasks == outcome.value && error == None
      ensures outcome.Rejected? ==> tasks == old(tasks) && error == Some(FETCH_TASKS_FAILED)
      ensures !loading && currentTask == old(currentTask) && filters == old(filters)
    {
      loading := true;
      error := None;
      query := params.GetOr(filters);
      match outcome {
      case Resolved(fetched) =>
        tasks := fetched;
      case Rejected =>
        error := Some(FETCH_TASKS_FAILED);
      }
      loading := false;
    }

    /** `fetchTaskById(id)`: a returned task becomes the current task and replaces the first
        listed task with that id. */
    method FetchTaskById(id: string, outcome: Outcome<Option<Task>>)
      modifies this
      ensures match outcome
        case Resolved(Some(t)) => currentTask == Some(t) && tasks == ReplaceFirst(old(tasks), id, t) && error == None
        case Resolved(None) => currentTask == old(currentTask) && tasks == old(tasks) && error == None
        case Rejected => currentTask == old(currentTask) && tasks == old(tasks) && error == Some("Failed to fetch task " + id)
      ensures !loading && filters == old(filters)
    {
      loading := true;
      error := None;
      match outcome {
      case Resolved(Some(t)) =>
        currentTask := Some(t);
        var index := FindIndex(tasks, id);
        if index != -1 {
          tasks := tasks[index := t];
        }
      case Resolved(None) =>
      case Rejected =>
        error := Some("Failed to fetch task " + id);
      }
      loading := false;
    }

    /** `createTask`: a returned task is pushed once at the end and returned. */
    method CreateTask(outcome: Outcome<Option<Task>>) returns (r: Option<Task>)
      modifies this
      ensures match outcome
        case Resolved(Some(t)) => tasks == old(tasks) + [t] && r == Some(t) && error == None
        case Resolved(None) => tasks == old(tasks) && r == None && error == None
        case Rejected => tasks == old(tasks) && r == None && error == Some(CREATE_FAILED)
      ensures !loading && currentTask == old(currentTask) && filters == old(filters)
    {
      loading := true;
      error := None;
      r := None;
      match outcome {
      case Resolved(Some(t)) =>
        tasks := tasks + [t];
        r := Some(t);
      case Resolved(None) =>
      case Rejected =>
        error := Some(CREATE_FAILED);
      }
      loading := false;
    }

    /** `updateTask(id, …)`: a returned task replaces the first listed task with that id, and
        the current task when it has that id. */
    method UpdateTask(id: string, outcome: Outcome<Option<Task>>) returns (r: Option<Task>)
      modifies this
      ensures match outcome
        case Resolved(Some(t)) =>
          && tasks == ReplaceFirst(old(tasks), id, t) && r == Some(t) && error == None
          && currentTask == (if old(currentTask).Some? && old(currentTask).value.id == id then Some(t) else old(currentTask))
        case Resolved(None) => tasks == old(tasks) && currentTask == old(currentTask) && r == None && error == None
        case Rejected =>
          tasks == old(tasks) && currentTask == old(currentTask) && r == None && error == Some("Failed to update task " + id)
      ensures !loading && filters == old(filters)
    {
      loading := true;
      error := None;
      r := None;
      match outcome {
      case Resolved(Some(t)) =>
        var index := FindIndex(tasks, id);
        if index != -1 {
          tasks := tasks[index := t];
        }
        if currentTask.Some? && currentTask.value.id == id {
          currentTask := Some(t);
        }
        r := Some(t);
      case Resolved(None) =>
      case Rejected =>
        error := Some("Failed to update task " + id);
      }
      loading := false;
    }

    /** `deleteTask(id)`: on success every task with that id is removed and a current task with
        that id is cleared; otherwise the list and current task stay. */
    method DeleteTask(id: string, outcome: Outcome<bool>) returns (r: bool)
      modifies this
      ensures r <==> outcome == Resolved(true)
      ensures r ==> && tasks == Seqs.Filter(old(tasks), OtherId(id))
                    && currentTask == (if old(currentTask).Some? && old(currentTask).value.id == id then None else old(currentTask))
      ensures !r ==> tasks == old(tasks) && currentTask == old(currentTask)
      ensures error == (if outcome.Rejected? then Some("Failed to delete task " + id) else None)
      ensures !loading && filters == old(filters)
    {
      loading := true;
      error := None;
      r := false;
      match outcome {
      case Resolved(success) =>
        if success {
          tasks := Seqs.Filter(tasks, OtherId(id));
          if currentTask.Some? && currentTask.value.id == id {
            currentTask := None;
          }
          r := true;
        }
      case Rejected =>
        error := Some("Failed to delete task " + id);
      }
      loading := false;
    }

    /** `toggleTaskStatus(id)`: for an unknown id, nothing at all happens; otherwise it asks
        `updateTask` for the opposite status (returned as `requested`). */
    method ToggleTaskStatus(id: string, outcome: Outcome<Option<Task>>) returns (requested: Option<string>, r: ToggleResult)
      modifies this
      ensures old(Find(tasks, id)).None? ==>
        && requested == None && r == NotFound
        && tasks == old(tasks) && currentTask == old(currentTask) && loading == old(loading) && error == old(error)
      ensures old(Find(tasks, id)).Some? ==>
        && requested == Some(Opposite(old(Find(tasks, id)).value.status))
        && r == Updated(if outcome.Resolved? then outcome.value else None)
        && !loading
        && match outcome
          case Resolved(Some(t)) =>
            && tasks == ReplaceFirst(old(tasks), id, t) && error == None
            && currentTask == (if old(currentTask).Some? && old(currentTask).value.id == id then Some(t) else old(currentTask))
          case Resolved(None) => tasks == old(tasks) && currentTask == old(currentTask) && error == None
          case Rejected =>
            tasks == old(tasks) && currentTask == old(currentTask) && error == Some("Failed to update task " + id)
      ensures filters == old(filters)
    {
      var task := GetTaskById(id);
      if task.None? {
        return None, NotFound;
      }
      requested := Some(Opposite(task.value.status));
      var updated := UpdateTask(id, outcome);
      r := Updated(updated);
    }

    /** `setFilters(patch)`: merges the patch into the filters and fetches with them. The fetch
        is not awaited; it is modelled as completing with `outcome`. */
    method SetFilters(patch: FiltersPatch, outcome: Outcome<seq<Task>>) returns (query: Filters)
      modifies this
      ensures filters == Merge(old(filters), patch) && query == filters
      ensures outcome.Resolved? ==> tasks == outcome.value && error == None
      ensures outcome.Rejected? ==> tasks == old(tasks) && error == Some(FETCH_TASKS_FAILED)
      ensures !loading && currentTask == old(currentTask)
    {
      filters := Merge(filters, patch);
      query := FetchTasks(Some(filters), outcome);
    }

    /** `clearFilters`: status and sortBy undefined, order 'asc', then a fetch with them. */
    method ClearFilters(outcome: Outcome<seq<Task>>) returns (query: Filters)
      modifies this
      ensures filters == DEFAULT_FILTERS && query == DEFAULT_FILTERS
      ensures outcome.Resolved? ==> tasks == outcome.value && error == None
      ensures outcome.Rejected? ==> tasks == old(tasks) && error == Some(FETCH_TASKS_FAILED)
      ensures !loading && currentTask == old(currentTask)
    {
      filters := DEFAULT_FILTERS;
      query := FetchTasks(None, outcome);
    }
  }
}

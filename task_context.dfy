/** The React task context (src/contexts/TaskContext.jsx): the task list, `isLoading` and
    `error`, with the list updates each handler applies once its service call settles. Every
    service call is an input outcome: the value it resolved with, or the message it threw. */
module TaskContext {
  import opened Wrappers
  import Seqs

  datatype Task = Task(id: string, title: string, description: string, completed: bool)

  /** A settled service call; an error without a message has the empty message. */
  datatype Outcome<T> = Resolved(value: T) | Thrown(message: string)

  const FETCH_FAILED: string := "Failed to fetch tasks"
  const GET_FAILED: string := "Failed to get task"
  const CREATE_FAILED: string := "Failed to create task"
  const UPDATE_FAILED: string := "Failed to update task"
  const DELETE_FAILED: string := "Failed to delete task"

  /** `err.message || fallback`: an empty message is falsy. */
  function ErrorText(message: string, fallback: string): (r: string)
    ensures message != "" ==> r == message
    ensures message == "" ==> r == fallback
  {
    if message == "" then fallback else message
  }

  /** `tasks.map(task => task.id === id ? updated : task)`: every task with that id is replaced,
      every other one kept in place. */
  function MapReplace(tasks: seq<Task>, id: string, updated: Task): (r: seq<Task>)
    ensures |r| == |tasks|
    ensures forall i :: 0 <= i < |r| ==> r[i] == if tasks[i].id == id then updated else tasks[i]
  {
    if tasks == [] then []
    else [if tasks[0].id == id then updated else tasks[0]] + MapReplace(tasks[1..], id, updated)
  }

  function OtherId(id: string): Task -> bool {
    (t: Task) => t.id != id
  }

  function HasId(id: string): Task -> bool {
    (t: Task) => t.id == id
  }

  /** With a replacement that keeps the id, replacing twice is replacing once. */
  lemma MapReplaceIdempotent(tasks: seq<Task>, id: string, updated: Task)
    requires updated.id == id
    ensures MapReplace(MapReplace(tasks, id, updated), id, updated) == MapReplace(tasks, id, updated)
  {
  }

  /** Replacing changes nothing but the tasks with that id: once those are filtered out, the
      list is the same as before; and the number of tasks with that id stays the same. */
  lemma {:induction false} MapReplaceOnlyTouchesId(tasks: seq<Task>, id: string, updated: Task)
    requires updated.id == id
    ensures Seqs.Filter(MapReplace(tasks, id, updated), OtherId(id)) == Seqs.Filter(tasks, OtherId(id))
    ensures |Seqs.Filter(MapReplace(tasks, id, updated), HasId(id))| == |Seqs.Filter(tasks, HasId(id))|
  {
    if tasks != [] {
      MapReplaceOnlyTouchesId(tasks[1..], id, updated);
      var r := MapReplace(tasks, id, updated);
      assert r[1..] == MapReplace(tasks[1..], id, updated);
    }
  }

  /** Deleting keeps exactly the tasks with other ids, as often as they occur and in order. */
  lemma DeleteByIdSpec(tasks: seq<Task>, id: string)
    ensures var r := Seqs.Filter(tasks, OtherId(id));
      && (forall i :: 0 <= i < |r| ==> r[i].id != id)
      && (forall t :: multiset(r)[t] == if t.id != id then multiset(tasks)[t] else 0)
      && Seqs.Subsequence(r, tasks)
  {
    Seqs.FilterIsSubsequence(tasks, OtherId(id));
    forall t ensures multiset(Seqs.Filter(tasks, OtherId(id)))[t] == if t.id != id then multiset(tasks)[t] else 0 {
      Seqs.FilterCount(tasks, OtherId(id), t);
    }
  }

  /** The `TaskProvider` state. */
  class Provider {
    var tasks: seq<Task>
    var isLoading: bool
    var error: Option<string>

    constructor()
      ensures tasks == [] && !isLoading && error == None
    {
      tasks := [];
      isLoading := false;
      error := None;
    }

    /** `fetchTasks`: the list becomes what was fetched, or stays with the error set. */
    method FetchTasks(outcome: Outcome<seq<Task>>)
      modifies this
      ensures match outcome
        case Resolved(fetched) => tasks == fetched && error == None
        case Thrown(m) => tasks == old(tasks) && error == Some(ErrorText(m, FETCH_FAILED))
      ensures !isLoading
    {
      isLoading := true;
      error := None;
      match outcome {
        case Resolved(fetched) =>
          tasks := fetched;
        case Thrown(m) =>
          error := Some(ErrorText(m, FETCH_FAILED));
      }
      isLoading := false;
    }

    /** `getTask(id)`: answers the fetched task and leaves the list alone. */
    method GetTask(id: string, outcome: Outcome<Task>) returns (r: Option<Task>)
      modifies this
      ensures tasks == old(tasks) && !isLoading
      ensures match outcome
        case Resolved(t) => r == Some(t) && error == None
        case Thrown(m) => r == None && error == Some(ErrorText(m, GET_FAILED))
    {
      isLoading := true;
      error := None;
      match outcome {
        case Resolved(t) =>
          r := Some(t);
        case Thrown(m) =>
          error := Some(ErrorText(m, GET_FAILED));
          r := None;
      }
      isLoading := false;
    }

    /** `createTask`: the created task is appended once at the end and answered. */
    method CreateTask(outcome: Outcome<Task>) returns (r: Option<Task>)
      modifies this
      ensures match outcome
        case Resolved(t) => tasks == old(tasks) + [t] && r == Some(t) && error == None
        case Thrown(m) => tasks == old(tasks) && r == None && error == Some(ErrorText(m, CREATE_FAILED))
      ensures !isLoading
    {
      isLoading := true;
      error := None;
      match outcome {
        case Resolved(t) =>
          tasks := tasks + [t];
          r := Some(t);
        case Thrown(m) =>
          error := Some(ErrorText(m, CREATE_FAILED));
          r := None;
      }
      isLoading := false;
    }

    /** `updateTask(id, …)`: every task with that id becomes the updated task. */
    method UpdateTask(id: string, outcome: Outcome<Task>) returns (r: Option<Task>)
      modifies this
      ensures match outcome
        case Resolved(t) => tasks == MapReplace(old(tasks), id, t) && r == Some(t) && error == None
        case Thrown(m) => tasks == old(tasks) && r == None && error == Some(ErrorText(m, UPDATE_FAILED))
      ensures !isLoading
    {
      isLoading := true;
      error := None;
      match outcome {
        case Resolved(t) =>
          tasks := MapReplace(tasks, id, t);
          r := Some(t);
        case Thrown(m) =>
          error := Some(ErrorText(m, UPDATE_FAILED));
          r := None;
      }
      isLoading := false;
    }

    /** `deleteTask(id)`: every task with that id is removed and the answer is true. */
    method DeleteTask(id: string, outcome: Outcome<()>) returns (r: bool)
      modifies this
      ensures r <==> outcome.Resolved?
      ensures match outcome
        case Resolved(_) => tasks == Seqs.Filter(old(tasks), OtherId(id)) && error == None
        case Thrown(m) => tasks == old(tasks) && error == Some(ErrorText(m, DELETE_FAILED))
      ensures !isLoading
    {
      isLoading := true;
      error := None;
      match outcome {
        case Resolved(_) =>
          tasks := Seqs.Filter(tasks, OtherId(id));
          r := true;
        case Thrown(m) =>
          error := Some(ErrorText(m, DELETE_FAILED));
          r := false;
      }
      isLoading := false;
    }

    /** The effect on `isAuthenticated`: fetch when signed in, otherwise empty the list. */
    method OnAuthChange(isAuthenticated: bool, outcome: Outcome<seq<Task>>)
      modifies this
      ensures !isAuthenticated ==> tasks == [] && isLoading == old(isLoading) && error == old(error)
      ensures isAuthenticated && outcome.Resolved? ==> tasks == outcome.value && error == None && !isLoading
      ensures isAuthenticated && outcome.Thrown? ==> tasks == old(tasks) && error == Some(ErrorText(outcome.message, FETCH_FAILED)) && !isLoading
    {
      if isAuthenticated {
        FetchTasks(outcome);
      } else {
        tasks := [];
      }
    }
  }
}

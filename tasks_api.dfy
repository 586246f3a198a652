/** The CRUD controller over the tasks table (todo-api/app/controllers/api/v1/tasks_controller.rb).
    Authentication runs before the record lookup; create and update are all-or-nothing. */
module TasksApi {
  import opened Wrappers
  import Json
  import Text
  import TaskModel
  import TaskSerializer
  import Application
  import Seqs

  type Task = TaskModel.Task
  type Time = TaskModel.Time
  type Param<T> = Application.Param<T>
  type Response = Application.Response

  const TASK_NOT_FOUND: string := "Task not found"
  const TASK_MISSING: string := "param is missing or the value is empty: task"
  /** What Ruby raises for `sort_by_field(params[:sort])`: the method takes two arguments. */
  const SORT_ARITY: string := "wrong number of arguments (given 1, expected 2)"

  /** The `task` parameter: each attribute not sent, sent as null, or sent with a value
      (already cast to its column type), plus the names of any other keys sent. */
  datatype TaskParams = TaskParams(
    title: Param<string>,
    description: Param<string>,
    dueDate: Param<Time>,
    priority: Param<int>,
    status: Param<string>,
    others: set<string>)

  /** What `permit(:title, :description, :due_date, :status)` lets through: priority is not among them. */
  datatype Permitted = Permitted(
    title: Param<string>,
    description: Param<string>,
    dueDate: Param<Time>,
    status: Param<string>)

  /** An empty `task` hash is blank, which `require` treats like a missing one. */
  predicate TaskParamsBlank(p: TaskParams) {
    && p.title.Missing? && p.description.Missing? && p.dueDate.Missing?
    && p.priority.Missing? && p.status.Missing? && p.others == {}
  }

  function Permit(p: TaskParams): Permitted {
    Permitted(p.title, p.description, p.dueDate, p.status)
  }

  /** `task_params`: None where `require(:task)` raises ParameterMissing. */
  function TaskParamsOf(task: Option<TaskParams>): Option<Permitted> {
    if task.None? || TaskParamsBlank(task.value) then None else Some(Permit(task.value))
  }

  /** Attribute assignment: a key that was not sent leaves the attribute alone. */
  function AssignField<T>(current: Option<T>, p: Param<T>): Option<T> {
    match p
    case Missing => current
    case Null => None
    case Given(v) => Some(v)
  }

  /** `assign_attributes(permitted)` on a record. */
  function Assign(t: Task, p: Permitted): Task {
    t.(title := AssignField(t.title, p.title),
       description := AssignField(t.description, p.description),
       dueDate := AssignField(t.dueDate, p.dueDate),
       status := AssignField(t.status, p.status))
  }

  /** `Task.new(permitted)`: every column nil except status, whose column default is 'incomplete'.
      The id stays 0 until the record is saved. */
  function NewTask(p: Permitted): (r: Task)
    ensures r.id == 0 && r.priority.None?
    ensures r.title == p.title.Value() && r.description == p.description.Value() && r.dueDate == p.dueDate.Value()
  {
    Assign(TaskModel.Task(0, None, None, None, None, Some(TaskModel.DEFAULT_STATUS)), p)
  }

  /** Status defaults to 'incomplete' unless the request sets it. */
  lemma NewTaskStatusDefault(p: Permitted)
    ensures p.status.Missing? ==> NewTask(p).status == Some("incomplete")
    ensures p.status.Given? ==> NewTask(p).status == Some(p.status.value)
  {
  }

  /** Assignment changes exactly the attributes that were sent and never the id or priority. */
  lemma AssignChangesOnlySentKeys(t: Task, p: Permitted)
    ensures var u := Assign(t, p);
      && u.id == t.id && u.priority == t.priority
      && (p.title.Missing? ==> u.title == t.title)
      && (p.description.Missing? ==> u.description == t.description)
      && (p.dueDate.Missing? ==> u.dueDate == t.dueDate)
      && (p.status.Missing? ==> u.status == t.status)
      && (!p.title.Missing? ==> u.title == p.title.Value())
      && (!p.description.Missing? ==> u.description == p.description.Value())
      && (!p.dueDate.Missing? ==> u.dueDate == p.dueDate.Value())
      && (!p.status.Missing? ==> u.status == p.status.Value())
  {
  }

  /** Priority and unknown keys are dropped: they have no effect on what is assigned. */
  lemma PermitIgnoresPriority(p: TaskParams, priority: Param<int>, others: set<string>)
    ensures Permit(p) == Permit(p.(priority := priority, others := others))
  {
  }

  /** As written, no create can validate: the priority is never permitted, so the new record has
      none, and the answer always names it. */
  lemma CreateNeverValidates(p: Permitted)
    ensures !TaskModel.IsValid(NewTask(p))
    ensures "Priority can't be blank" in TaskModel.Errors(NewTask(p))
  {
    TaskModel.MissingPriorityRejected(NewTask(p));
  }

  /** The users table, the JSON codec, the id cast and the due-date formatter the controller works with. */
  datatype Env = Env(users: seq<Application.User>, codec: Json.Codec, castId: Application.IdCast, iso8601: Time -> string)

  /** `render json: task, status: status` through the serializer. */
  function Rendered(t: Task, status: int, iso8601: Time -> string): Response {
    Application.Response(status, Some(Json.Obj(TaskSerializer.Serialize(t, iso8601))))
  }

  /** `render json: { code: 400, message: errors.full_messages.join(', ') }`. */
  function Invalid(t: Task): Response {
    Application.RenderError(400, Text.Join(TaskModel.Errors(t), ", "))
  }

  /** `render json: @tasks`: one serialized object per task, in order. A client reads each
      item's id back as the task's id and finds its status unchanged. */
  function SerializeAll(tasks: seq<Task>, iso8601: Time -> string): (r: seq<Json.Value>)
    ensures |r| == |tasks|
    ensures forall i :: 0 <= i < |r| ==>
      && r[i].Obj? && r[i].fields.Keys == TaskSerializer.ATTRIBUTES
      && r[i].fields["id"].Str? && Text.ParseInt(r[i].fields["id"].s) == Some(tasks[i].id)
      && r[i].fields["status"] == TaskSerializer.StrOrNull(tasks[i].status)
  {
    seq(|tasks|, i requires 0 <= i < |tasks| => Json.Obj(TaskSerializer.Serialize(tasks[i], iso8601)))
  }

  /** `params[:key].present?` for a query parameter. */
  predicate QueryPresent(query: map<string, string>, key: string) {
    key in query && !Text.IsBlank(query[key])
  }

  function QueryValue(query: map<string, string>, key: string): Option<string> {
    if key in query then Some(query[key]) else None
  }

  /** A status filter in `index` answers exactly the tasks of that status: every serialized item
      carries it, and there are as many items as tasks with that status. */
  lemma {:induction false} IndexFiltered(tasks: seq<Task>, status: string, iso8601: Time -> string)
    requires !Text.IsBlank(status)
    ensures var items := SerializeAll(TaskModel.ByStatus(tasks, Some(status)), iso8601);
      && (forall i :: 0 <= i < |items| ==> items[i].Obj? && items[i].fields["status"] == Json.Str(status))
      && |items| == |Seqs.Filter(tasks, TaskModel.HasStatus(status))|
  {
    TaskModel.ByStatusSpec(tasks, Some(status));
  }

  /** A key sequence that names every key of a table once is as long as the table is large. */
  lemma {:induction false} ListingSize<V>(rows: map<int, V>, ids: seq<int>)
    requires Seqs.Distinct(ids)
    requires forall i :: 0 <= i < |ids| ==> ids[i] in rows
    requires forall k :: k in rows ==> k in ids
    ensures |rows| == |ids|
  {
    if ids == [] {
      assert forall k :: k !in rows;
      assert rows.Keys == {};
    } else {
      var last, init := ids[|ids| - 1], ids[..|ids| - 1];
      var rest := rows - {last};
      assert last !in init by {
        forall k | 0 <= k < |init| ensures init[k] != last {
          assert init[k] == ids[k];
        }
      }
      forall i | 0 <= i < |init| ensures init[i] in rest {
        assert init[i] == ids[i] && ids[i] != last;
      }
      forall k | k in rest ensures k in init {
        var i :| 0 <= i < |ids| && ids[i] == k;
        assert i != |ids| - 1 && init[i] == k;
      }
      ListingSize(rest, init);
      assert rows.Keys == rest.Keys + {last};
    }
  }

  /** The rows of a table, listed in the order of a key sequence that names every key once. */
  function Listing(rows: map<int, Task>, ids: seq<int>): (r: seq<Task>)
    requires Seqs.Distinct(ids)
    requires forall i :: 0 <= i < |ids| ==> ids[i] in rows
    requires forall k :: k in rows ==> k in ids
    requires forall k :: k in rows ==> rows[k].id == k
    ensures |r| == |ids| == |rows|
    ensures forall k :: k in rows ==> rows[k] in r
    ensures forall i :: 0 <= i < |r| ==> r[i].id in rows && r[i] == rows[r[i].id]
    ensures forall i :: 0 <= i < |ids| ==> r[i] == rows[ids[i]]
  {
    ListingSize(rows, ids);
    var r := seq(|ids|, i requires 0 <= i < |ids| => rows[ids[i]]);
    assert forall k :: k in rows ==> rows[k] in r by {
      forall k | k in rows ensures rows[k] in r {
        var i :| 0 <= i < |ids| && ids[i] == k;
        assert r[i] == rows[k];
      }
    }
    assert forall i :: 0 <= i < |r| ==> r[i].id in rows && r[i] == rows[r[i].id] by {
      forall i | 0 <= i < |r| ensures r[i].id in rows && r[i] == rows[r[i].id] {
        assert r[i] == rows[ids[i]] && rows[ids[i]].id == ids[i];
      }
    }
    r
  }

  /** The tasks table behind `Task`, with the allocator of fresh primary keys. */
  class TasksController {
    var rows: map<int, Task>
    /** The keys in insertion order, which is the order `Task.all` returns without ORDER BY. */
    var ids: seq<int>
    var nextId: int

    ghost predicate Valid()
      reads this
    {
      && Seqs.Distinct(ids)
      && (forall i :: 0 <= i < |ids| ==> ids[i] in rows)
      && (forall k :: k in rows ==> k in ids)
      && (forall k :: k in rows ==> rows[k].id == k && TaskModel.IsValid(rows[k]) && 0 < k < nextId)
      && 0 < nextId
    }

    /** `Task.all`: every stored record exactly once, in insertion order. */
    function All(): (r: seq<Task>)
      reads this
      requires Valid()
      ensures |r| == |ids| == |rows|
      ensures forall k :: k in rows ==> rows[k] in r
      ensures forall i :: 0 <= i < |r| ==> r[i].id in rows && r[i] == rows[r[i].id]
      ensures forall i :: 0 <= i < |ids| ==> r[i] == rows[ids[i]]
    {
      Listing(rows, ids)
    }

    constructor()
      ensures Valid() && rows == map[] && ids == [] && nextId == 1
    {
      rows := map[];
      ids := [];
      nextId := 1;
    }

    /** `index`: optionally filtered by status; a `sort` parameter makes the one-argument call to
        the two-argument `sort_by_field`, which raises and ends in a 500. */
    method Index(query: map<string, string>, iso8601: Time -> string) returns (r: Response)
      requires Valid()
      ensures QueryPresent(query, "sort") ==> r == Application.Rescue(Application.StandardError(SORT_ARITY))
      ensures !QueryPresent(query, "sort") ==>
        r == Application.Response(200, Some(Json.Arr(SerializeAll(TaskModel.ByStatus(All(), QueryValue(query, "status")), iso8601))))
    {
      var tasks := All();
      if QueryPresent(query, "status") {
        tasks := TaskModel.ByStatus(tasks, QueryValue(query, "status"));
      }
      if QueryPresent(query, "sort") {
        r := Application.Rescue(Application.StandardError(SORT_ARITY));
        return;
      }
      r := Application.Response(200, Some(Json.Arr(SerializeAll(tasks, iso8601))));
    }

    /** `show`: the task, or 404 'Task not found' from `set_task`. */
    method Show(id: int, iso8601: Time -> string) returns (r: Response)
      requires Valid()
      ensures id in rows ==> r == Rendered(rows[id], 200, iso8601)
      ensures id !in rows ==> r == Application.RenderError(404, TASK_NOT_FOUND)
    {
      if id !in rows {
        r := Application.RenderError(404, TASK_NOT_FOUND);
        return;
      }
      r := Rendered(rows[id], 200, iso8601);
    }

    /** Runs the `authenticate_request` before_action on a fresh per-request controller. */
    method Authenticate(header: Option<string>, env: Env) returns (halt: Option<Response>)
      ensures match Application.Authenticate(header, env.users, env.codec, env.castId)
        case Authenticated(_) => halt == None
        case Unauthorized(m) => halt == Some(Application.RenderError(401, m))
    {
      var request := new Application.Controller();
      halt := request.AuthenticateRequest(header, env.users, env.codec, env.castId);
    }

    /** `@task.save` on a new record: stores it under a fresh id when it validates. */
    method Insert(t: Task) returns (saved: bool, stored: Task)
      requires Valid()
      modifies this
      ensures Valid()
      ensures saved == TaskModel.IsValid(t)
      ensures saved ==> && old(nextId) !in old(rows)
                        && stored == t.(id := old(nextId))
                        && rows == old(rows)[old(nextId) := stored]
                        && ids == old(ids) + [old(nextId)]
                        && nextId == old(nextId) + 1
      ensures !saved ==> rows == old(rows) && ids == old(ids) && nextId == old(nextId)
    {
      saved := TaskModel.IsValid(t);
      stored := t;
      if saved {
        stored := t.(id := nextId);
        assert nextId !in ids;
        assert Seqs.Distinct(ids + [nextId]) by {
          forall i, j | 0 <= i < j < |ids| + 1 ensures (ids + [nextId])[i] != (ids + [nextId])[j] {
            if j == |ids| {
              assert (ids + [nextId])[i] == ids[i];
            }
          }
        }
        rows := rows[nextId := stored];
        ids := ids + [nextId];
        nextId := nextId + 1;
      }
    }

    /** `create`: 201 and one new record under a fresh id when the permitted attributes validate;
        otherwise 400 with the full messages joined by ', ' and the table unchanged. */
    method Create(header: Option<string>, task: Option<TaskParams>, env: Env) returns (r: Response)
      requires Valid()
      modifies this
      ensures Valid()
      ensures match Application.Authenticate(header, env.users, env.codec, env.castId)
        case Unauthorized(m) =>
          r == Application.RenderError(401, m) && rows == old(rows) && ids == old(ids) && nextId == old(nextId)
        case Authenticated(_) =>
          match TaskParamsOf(task)
          case None =>
            && r == Application.Rescue(Application.ParameterMissing(TASK_MISSING))
            && rows == old(rows) && ids == old(ids) && nextId == old(nextId)
          case Some(p) =>
            var t := NewTask(p);
            if TaskModel.IsValid(t) then
              && old(nextId) !in old(rows)
              && rows == old(rows)[old(nextId) := t.(id := old(nextId))]
              && ids == old(ids) + [old(nextId)] && nextId == old(nextId) + 1
              && r == Rendered(t.(id := old(nextId)), 201, env.iso8601)
            else
              r == Invalid(t) && rows == old(rows) && ids == old(ids) && nextId == old(nextId)
    {
      var halt := Authenticate(header, env);
      if halt.Some? {
        r := halt.value;
        return;
      }
      var permitted := TaskParamsOf(task);
      if permitted.None? {
        r := Application.Rescue(Application.ParameterMissing(TASK_MISSING));
        return;
      }
      var t := NewTask(permitted.value);
      var saved, stored := Insert(t);
      if saved {
        r := Rendered(stored, 201, env.iso8601);
      } else {
        r := Invalid(t);
      }
    }

    /** `update`: after authentication and `set_task`, assigns the permitted attributes and saves
        only if the result validates; a failed update leaves the stored record as it was. */
    method Update(header: Option<string>, id: int, task: Option<TaskParams>, env: Env) returns (r: Response)
      requires Valid()
      modifies this
      ensures Valid() && ids == old(ids) && nextId == old(nextId)
      ensures match Application.Authenticate(header, env.users, env.codec, env.castId)
        case Unauthorized(m) => r == Application.RenderError(401, m) && rows == old(rows)
        case Authenticated(_) =>
          if id !in old(rows) then r == Application.RenderError(404, TASK_NOT_FOUND) && rows == old(rows)
          else match TaskParamsOf(task)
            case None => r == Application.Rescue(Application.ParameterMissing(TASK_MISSING)) && rows == old(rows)
            case Some(p) =>
              var t := Assign(old(rows)[id], p);
              if TaskModel.IsValid(t) then rows == old(rows)[id := t] && r == Rendered(t, 200, env.iso8601)
              else rows == old(rows) && r == Invalid(t)
    {
      var halt := Authenticate(header, env);
      if halt.Some? {
        r := halt.value;
        return;
      }
      if id !in rows {
        r := Application.RenderError(404, TASK_NOT_FOUND);
        return;
      }
      var permitted := TaskParamsOf(task);
      if permitted.None? {
        r := Application.Rescue(Application.ParameterMissing(TASK_MISSING));
        return;
      }
      var t := Assign(rows[id], permitted.value);
      if TaskModel.IsValid(t) {
        rows := rows[id := t];
        r := Rendered(t, 200, env.iso8601);
      } else {
        r := Invalid(t);
      }
    }

    /** `destroy`: after authentication and `set_task`, removes exactly that record and answers 204. */
    method Destroy(header: Option<string>, id: int, env: Env) returns (r: Response)
      requires Valid()
      modifies this
      ensures Valid() && nextId == old(nextId)
      ensures match Application.Authenticate(header, env.users, env.codec, env.castId)
        case Unauthorized(m) => r == Application.RenderError(401, m) && rows == old(rows) && ids == old(ids)
        case Authenticated(_) =>
          if id !in old(rows) then r == Application.RenderError(404, TASK_NOT_FOUND) && rows == old(rows) && ids == old(ids)
          else
            && r == Application.Response(204, None)
            && rows == old(rows) - {id}
            && ids == Seqs.Filter(old(ids), (k: int) => k != id)
    {
      var halt := Authenticate(header, env);
      if halt.Some? {
        r := halt.value;
        return;
      }
      if id !in rows {
        r := Application.RenderError(404, TASK_NOT_FOUND);
        return;
      }
      var remaining := Seqs.Filter(ids, (k: int) => k != id);
      Seqs.FilterDistinct(ids, (k: int) => k != id);
      rows := rows - {id};
      ids := remaining;
      r := Application.Response(204, None);
    }
  }
}

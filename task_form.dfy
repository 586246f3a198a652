/** The task form (src/components/tasks/TaskForm.jsx): its field state, the validator, and the
    payload and dispatch of `handleSubmit` into the task context. */
module TaskForm {
  import opened Wrappers
  import Text
  import TaskContext

  const TITLE_REQUIRED: string := "Title is required"
  const DESCRIPTION_REQUIRED: string := "Description is required"

  /** The `taskData` object; `completed` is only present when editing. */
  datatype TaskData = TaskData(title: string, description: string, completed: Option<bool>)

  /** Which context handler `handleSubmit` called, with what. */
  datatype Dispatch = NoDispatch | CreateCall(data: TaskData) | UpdateCall(id: string, data: TaskData)

  /** The `errors` object of `validateForm`. */
  function ValidationErrors(title: string, description: string): (errors: map<string, string>)
    ensures errors.Keys <= {"title", "description"}
    ensures "title" in errors <==> Text.Trim(title) == []
    ensures "description" in errors <==> Text.Trim(description) == []
    ensures "title" in errors ==> errors["title"] == TITLE_REQUIRED
    ensures "description" in errors ==> errors["description"] == DESCRIPTION_REQUIRED
  {
    var e := if Text.Trim(title) == [] then map["title" := TITLE_REQUIRED] else map[];
    if Text.Trim(description) == [] then e["description" := DESCRIPTION_REQUIRED] else e
  }

  /** The form is valid exactly when neither field is empty or only whitespace. */
  lemma ValidIff(title: string, description: string)
    ensures ValidationErrors(title, description) == map[] <==>
      (exists i :: 0 <= i < |title| && !Text.IsJsSpace(title[i])) &&
      (exists i :: 0 <= i < |description| && !Text.IsJsSpace(description[i]))
  {
    Text.TrimEmptyIff(title);
    Text.TrimEmptyIff(description);
    if ValidationErrors(title, description) != map[] {
      var e := ValidationErrors(title, description);
      var k :| k in e;
    }
  }

  /** The payload: the trimmed fields, and `completed` only when editing. */
  function Payload(title: string, description: string, completed: bool, editing: bool): (d: TaskData)
    ensures d.title == Text.Trim(title) && d.description == Text.Trim(description)
    ensures d.completed.Some? <==> editing
    ensures editing ==> d.completed == Some(completed)
  {
    TaskData(Text.Trim(title), Text.Trim(description), if editing then Some(completed) else None)
  }

  /** The payload's text fields carry no surrounding whitespace. */
  lemma PayloadTrimmed(title: string, description: string, completed: bool, editing: bool)
    ensures var d := Payload(title, description, completed, editing);
      && Text.Trim(d.title) == d.title && Text.Trim(d.description) == d.description
  {
    Text.TrimIdempotent(title);
    Text.TrimIdempotent(description);
  }

  class Form {
    /** The task being edited, or None for a new one. */
    const task: Option<TaskContext.Task>
    var title: string
    var description: string
    var completed: bool
    var formErrors: map<string, string>

    /** The initial state after the effect on `task`: the edited task's fields, or blanks. */
    constructor(task: Option<TaskContext.Task>)
      ensures this.task == task && formErrors == map[]
      ensures task.Some? ==> title == task.value.title && description == task.value.description && completed == task.value.completed
      ensures task.None? ==> title == "" && description == "" && !completed
    {
      this.task := task;
      if task.Some? {
        title := task.value.title;
        description := task.value.description;
        completed := task.value.completed;
      } else {
        title := "";
        description := "";
        completed := false;
      }
      formErrors := map[];
    }

    method SetTitle(value: string)
      modifies this
      ensures title == value && description == old(description) && completed == old(completed) && formErrors == old(formErrors)
    {
      title := value;
    }

    method SetDescription(value: string)
      modifies this
      ensures description == value && title == old(title) && completed == old(completed) && formErrors == old(formErrors)
    {
      description := value;
    }

    method SetCompleted(value: bool)
      modifies this
      ensures completed == value && title == old(title) && description == old(description) && formErrors == old(formErrors)
    {
      completed := value;
    }

    /** `validateForm`: stores the errors and answers whether there are none. */
    method ValidateForm() returns (ok: bool)
      modifies this
      ensures formErrors == ValidationErrors(title, description)
      ensures ok <==> formErrors == map[]
      ensures ok <==> Text.Trim(title) != [] && Text.Trim(description) != []
      ensures title == old(title) && description == old(description) && completed == old(completed)
    {
      var errors: map<string, string> := map[];
      var t, d := Text.Trim(title), Text.Trim(description);
      if t == [] {
        errors := errors["title" := TITLE_REQUIRED];
      }
      if d == [] {
        errors := errors["description" := DESCRIPTION_REQUIRED];
      }
      formErrors := errors;
      ok := errors.Keys == {};
      assert ok <==> errors == map[] by {
        if errors.Keys == {} {
          assert forall k :: k !in errors;
        }
      }
    }

    /** `handleSubmit`: an invalid form calls nothing; otherwise it updates the edited task or
        creates a new one through the context, and closes the form only on a truthy answer. */
    method HandleSubmit(ctx: TaskContext.Provider, outcome: TaskContext.Outcome<TaskContext.Task>)
      returns (call: Dispatch, closed: bool)
      modifies this, ctx
      ensures formErrors == ValidationErrors(title, description)
      ensures title == old(title) && description == old(description) && completed == old(completed)
      ensures formErrors != map[] ==>
        && call == NoDispatch && !closed
        && ctx.tasks == old(ctx.tasks) && ctx.isLoading == old(ctx.isLoading) && ctx.error == old(ctx.error)
      ensures formErrors == map[] && task.Some? ==>
        && call == UpdateCall(task.value.id, Payload(title, description, completed, true))
        && ctx.tasks == (if outcome.Resolved? then TaskContext.MapReplace(old(ctx.tasks), task.value.id, outcome.value) else old(ctx.tasks))
        && ctx.error == (if outcome.Resolved? then None else Some(TaskContext.ErrorText(outcome.message, TaskContext.UPDATE_FAILED)))
      ensures formErrors == map[] && task.None? ==>
        && call == CreateCall(Payload(title, description, completed, false))
        && ctx.tasks == (if outcome.Resolved? then old(ctx.tasks) + [outcome.value] else old(ctx.tasks))
        && ctx.error == (if outcome.Resolved? then None else Some(TaskContext.ErrorText(outcome.message, TaskContext.CREATE_FAILED)))
      ensures formErrors == map[] ==> !ctx.isLoading
      ensures closed <==> call != NoDispatch && outcome.Resolved?
    {
      var ok := ValidateForm();
      if !ok {
        return NoDispatch, false;
      }
      var data := Payload(title, description, completed, task.Some?);
      var answer: Option<TaskContext.Task>;
      if task.Some? {
        call := UpdateCall(task.value.id, data);
        answer := ctx.UpdateTask(task.value.id, outcome);
      } else {
        call := CreateCall(data);
        answer := ctx.CreateTask(outcome);
      }
      closed := answer.Some?;
    }
  }
}

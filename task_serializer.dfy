/** The wire form of a task (todo-api/app/serializers/task_serializer.rb). */
module TaskSerializer {
  import opened Wrappers
  import Json
  import Text
  import TaskModel

  const ATTRIBUTES: set<string> := {"id", "title", "description", "due_date", "priority", "status"}

  function StrOrNull(s: Option<string>): Json.Value {
    if s.Some? then Json.Str(s.value) else Json.Null
  }

  function NumOrNull(n: Option<int>): Json.Value {
    if n.Some? then Json.Num(n.value) else Json.Null
  }

  /** The serialized task. Exactly the six listed attributes are emitted (no timestamps); the id
      is its decimal string, which reads back as the id; due_date is nil or its ISO 8601 text
      (the formatter is a parameter); the other attributes pass through unchanged. */
  function Serialize(t: TaskModel.Task, iso8601: TaskModel.Time -> string): (r: map<string, Json.Value>)
    ensures r.Keys == ATTRIBUTES
    ensures r["id"].Str? && Text.ParseInt(r["id"].s) == Some(t.id)
    ensures t.dueDate.None? ==> r["due_date"] == Json.Null
    ensures t.dueDate.Some? ==> r["due_date"] == Json.Str(iso8601(t.dueDate.value))
    ensures r["title"] == StrOrNull(t.title) && r["description"] == StrOrNull(t.description)
    ensures r["priority"] == NumOrNull(t.priority) && r["status"] == StrOrNull(t.status)
  {
    Text.IntToStringRoundTrip(t.id);
    map[
      "id" := Json.Str(Text.IntToString(t.id)),
      "title" := StrOrNull(t.title),
      "description" := StrOrNull(t.description),
      "due_date" := if t.dueDate.Some? then Json.Str(iso8601(t.dueDate.value)) else Json.Null,
      "priority" := NumOrNull(t.priority),
      "status" := StrOrNull(t.status)
    ]
  }

  /** Two tasks with different ids never serialize alike. */
  lemma SerializeDistinguishesIds(t: TaskModel.Task, u: TaskModel.Task, iso8601: TaskModel.Time -> string)
    requires t.id != u.id
    ensures Serialize(t, iso8601) != Serialize(u, iso8601)
  {
    var a, b := Serialize(t, iso8601), Serialize(u, iso8601);
    assert Text.ParseInt(a["id"].s) != Text.ParseInt(b["id"].s);
  }
}

/** The Task model of the API (todo-api/app/models/task.rb): its attribute constraints,
    validation messages and the query scopes over an ordered relation of tasks. */
module TaskModel {
  import opened Wrappers
  import Text
  import Seqs
  import Sorting

  /** A point in time, in seconds. */
  type Time = int

  const PRIORITIES: seq<int> := [1, 2, 3]
  const STATUSES: seq<string> := ["incomplete", "complete"]

  /** The column default of `status` in the tasks table. */
  const DEFAULT_STATUS: string := "incomplete"

  /** A task record. Attributes are optional because an unsaved record may hold nil;
      the tasks table only ever stores records that validate. */
  datatype Task = Task(
    id: int,
    title: Option<string>,
    description: Option<string>,
    dueDate: Option<Time>,
    priority: Option<int>,
    status: Option<string>)

  /** `value.present?` for a string attribute. */
  predicate Present(s: Option<string>) {
    s.Some? && !Text.IsBlank(s.value)
  }

  /** One validator's verdict on a task, and the full message it adds when it fails. */
  datatype Validation = Validation(passes: bool, message: string)

  /** The validators in the order they are declared: presence of title, presence of due_date,
      presence and inclusion of priority, presence and inclusion of status. */
  function Validations(t: Task): seq<Validation> {
    [Validation(Present(t.title), "Title can't be blank"),
     Validation(t.dueDate.Some?, "Due date can't be blank"),
     Validation(t.priority.Some?, "Priority can't be blank"),
     Validation(t.priority.Some? && t.priority.value in PRIORITIES, "Priority is not included in the list"),
     Validation(Present(t.status), "Status can't be blank"),
     Validation(t.status.Some? && t.status.value in STATUSES, "Status is not included in the list")]
  }

  /** The messages of the failing validators, in order. */
  function Failures(vs: seq<Validation>): (r: seq<string>)
    ensures |r| <= |vs|
    ensures r == [] <==> forall i :: 0 <= i < |vs| ==> vs[i].passes
  {
    if vs == [] then []
    else (if vs[0].passes then [] else [vs[0].message]) + Failures(vs[1..])
  }

  /** With distinct messages, a validator's message is among the failures exactly when it fails. */
  lemma {:induction false} FailureNamed(vs: seq<Validation>, k: int)
    requires 0 <= k < |vs|
    requires forall i, j :: 0 <= i < j < |vs| ==> vs[i].message != vs[j].message
    ensures vs[k].message in Failures(vs) <==> !vs[k].passes
  {
    var head := if vs[0].passes then [] else [vs[0].message];
    assert Failures(vs) == head + Failures(vs[1..]);
    if k == 0 {
      if vs[0].message in Failures(vs[1..]) {
        var j :| 0 <= j < |Failures(vs[1..])| && Failures(vs[1..])[j] == vs[0].message;
        FailureSource(vs[1..], j);
      }
    } else {
      FailureNamed(vs[1..], k - 1);
    }
  }

  /** Every failure message is the message of some failing validator. */
  lemma {:induction false} FailureSource(vs: seq<Validation>, j: int)
    requires 0 <= j < |Failures(vs)|
    ensures exists i :: 0 <= i < |vs| && !vs[i].passes && vs[i].message == Failures(vs)[j]
  {
    var head := if vs[0].passes then [] else [vs[0].message];
    assert Failures(vs) == head + Failures(vs[1..]);
    if j >= |head| {
      FailureSource(vs[1..], j - |head|);
      var i :| 0 <= i < |vs[1..]| && !vs[1..][i].passes && vs[1..][i].message == Failures(vs[1..])[j - |head|];
      assert vs[i + 1] == vs[1..][i];
    }
  }

  /** `errors.full_messages`. */
  function Errors(t: Task): seq<string> {
    Failures(Validations(t))
  }

  predicate IsValid(t: Task) {
    Errors(t) == []
  }

  /** A task validates exactly when its title is non-blank, its due date is set, its priority
      is 1, 2 or 3 and its status is 'incomplete' or 'complete'. */
  lemma ValidIff(t: Task)
    ensures IsValid(t) <==>
      && t.title.Some? && !Text.IsBlank(t.title.value)
      && t.dueDate.Some?
      && t.priority.Some? && 1 <= t.priority.value <= 3
      && (t.status == Some("incomplete") || t.status == Some("complete"))
  {
    var vs := Validations(t);
    assert IsValid(t) <==> vs[0].passes && vs[1].passes && vs[2].passes && vs[3].passes && vs[4].passes && vs[5].passes;
    if t.status == Some("incomplete") {
      assert !Text.IsRubySpace("incomplete"[0]);
    }
    if t.status == Some("complete") {
      assert !Text.IsRubySpace("complete"[0]);
    }
  }

  lemma MessagesDistinct(t: Task)
    ensures var vs := Validations(t);
      forall i, j :: 0 <= i < j < |vs| ==> vs[i].message != vs[j].message
  {
    var vs := Validations(t);
    assert |vs[0].message| == 20 && |vs[1].message| == 23 && |vs[2].message| == 23;
    assert |vs[3].message| == 36 && |vs[4].message| == 21 && |vs[5].message| == 34;
    assert vs[1].message[0] != vs[2].message[0];
  }

  /** Each message appears exactly when its validation fails. */
  lemma ErrorsNameEachFailure(t: Task)
    ensures var r := Errors(t);
      && ("Title can't be blank" in r <==> !Present(t.title))
      && ("Due date can't be blank" in r <==> t.dueDate.None?)
      && ("Priority can't be blank" in r <==> t.priority.None?)
      && ("Priority is not included in the list" in r <==> !(t.priority.Some? && t.priority.value in PRIORITIES))
      && ("Status can't be blank" in r <==> !Present(t.status))
      && ("Status is not included in the list" in r <==> !(t.status.Some? && t.status.value in STATUSES))
  {
    MessagesDistinct(t);
    var vs := Validations(t);
    FailureNamed(vs, 0);
    FailureNamed(vs, 1);
    FailureNamed(vs, 2);
    FailureNamed(vs, 3);
    FailureNamed(vs, 4);
    FailureNamed(vs, 5);
  }

  /** A task without a priority never validates, and its messages say why. */
  lemma MissingPriorityRejected(t: Task)
    requires t.priority.None?
    ensures !IsValid(t)
    ensures "Priority can't be blank" in Errors(t) && "Priority is not included in the list" in Errors(t)
  {
    ErrorsNameEachFailure(t);
  }

  // ---------------------------------------------------------------- scopes

  function HasStatus(status: string): Task -> bool {
    (t: Task) => t.status == Some(status)
  }

  /** `by_status(status)`: `where(status: status)` when the status is present, otherwise every task. */
  function ByStatus(tasks: seq<Task>, status: Option<string>): (r: seq<Task>)
    ensures |r| <= |tasks|
    ensures forall i :: 0 <= i < |r| ==> r[i] in tasks
    ensures status.Some? && !Text.IsBlank(status.value) ==> forall i :: 0 <= i < |r| ==> r[i].status == status
    ensures status.None? || Text.IsBlank(status.value) ==> r == tasks
  {
    if status.Some? && !Text.IsBlank(status.value) then Seqs.Filter(tasks, HasStatus(status.value))
    else tasks
  }

  /** With a present status, the scope keeps exactly the tasks of that status, in order,
      each as often as it occurs; with a blank or missing status it keeps everything. */
  lemma ByStatusSpec(tasks: seq<Task>, status: Option<string>)
    ensures var r := ByStatus(tasks, status);
      if status.Some? && !Text.IsBlank(status.value) then
        && (forall i :: 0 <= i < |r| ==> r[i].status == status)
        && (forall t :: multiset(r)[t] == if t.status == status then multiset(tasks)[t] else 0)
        && Seqs.Subsequence(r, tasks)
      else r == tasks
  {
    if status.Some? && !Text.IsBlank(status.value) {
      var p := HasStatus(status.value);
      Seqs.FilterIsSubsequence(tasks, p);
      forall t ensures multiset(ByStatus(tasks, status))[t] == if t.status == status then multiset(tasks)[t] else 0 {
        Seqs.FilterCount(tasks, p, t);
      }
    }
  }

  lemma ValidStatus(t: Task)
    requires IsValid(t)
    ensures t.status == Some("incomplete") || t.status == Some("complete")
  {
    assert Validations(t)[5].passes;
  }

  lemma StatusNamesPresent()
    ensures !Text.IsBlank("incomplete") && !Text.IsBlank("complete")
  {
    assert !Text.IsRubySpace("incomplete"[0]);
    assert !Text.IsRubySpace("complete"[0]);
  }

  /** Over valid tasks the 'incomplete' and 'complete' scopes are disjoint and together are
      the whole collection. */
  lemma StatusPartition(tasks: seq<Task>)
    requires forall i :: 0 <= i < |tasks| ==> IsValid(tasks[i])
    ensures multiset(ByStatus(tasks, Some("incomplete"))) + multiset(ByStatus(tasks, Some("complete"))) == multiset(tasks)
    ensures multiset(ByStatus(tasks, Some("incomplete"))) !! multiset(ByStatus(tasks, Some("complete")))
  {
    StatusNamesPresent();
    var inc, com := HasStatus("incomplete"), HasStatus("complete");
    assert ByStatus(tasks, Some("incomplete")) == Seqs.Filter(tasks, inc);
    assert ByStatus(tasks, Some("complete")) == Seqs.Filter(tasks, com);
    forall i | 0 <= i < |tasks| ensures com(tasks[i]) == !inc(tasks[i]) {
      ValidStatus(tasks[i]);
    }
    Seqs.FilterPartition(tasks, inc, com);
    var a, b := Seqs.Filter(tasks, inc), Seqs.Filter(tasks, com);
    forall t | t in multiset(a) ensures t !in multiset(b) {
      Seqs.FilterCount(tasks, inc, t);
      Seqs.FilterCount(tasks, com, t);
    }
  }

  /** `a <= b` on a nullable column, nil ranking first. The tasks table declares due_date and
      priority NOT NULL, so stored tasks never reach the nil cases. */
  predicate KeyLeq(a: Option<int>, b: Option<int>) {
    a.None? || (b.Some? && a.value <= b.value)
  }

  predicate DueDateAsc(a: Task, b: Task) { KeyLeq(a.dueDate, b.dueDate) }
  predicate DueDateDesc(a: Task, b: Task) { KeyLeq(b.dueDate, a.dueDate) }
  predicate PriorityAsc(a: Task, b: Task) { KeyLeq(a.priority, b.priority) }
  predicate PriorityDesc(a: Task, b: Task) { KeyLeq(b.priority, a.priority) }

  lemma OrdersAreTotalPreorders()
    ensures Sorting.TotalPreorder(DueDateAsc) && Sorting.TotalPreorder(DueDateDesc)
    ensures Sorting.TotalPreorder(PriorityAsc) && Sorting.TotalPreorder(PriorityDesc)
  {
  }

  /** `sorted_by_due_date_asc` and its three siblings: `order(column: direction)`. The order
      among tasks with equal keys is left to the database and is not specified here. */
  function SortedByDueDateAsc(tasks: seq<Task>): seq<Task> { Sorting.Sort(tasks, DueDateAsc) }
  function SortedByDueDateDesc(tasks: seq<Task>): seq<Task> { Sorting.Sort(tasks, DueDateDesc) }
  function SortedByPriorityAsc(tasks: seq<Task>): seq<Task> { Sorting.Sort(tasks, PriorityAsc) }
  function SortedByPriorityDesc(tasks: seq<Task>): seq<Task> { Sorting.Sort(tasks, PriorityDesc) }

  /** `sort_by_field(field, direction)`: a whitelisted field sorted ascending when the direction
      is 'asc' and descending for any other direction; any other field leaves the relation as it is. */
  function SortByField(tasks: seq<Task>, field: string, direction: string): (r: seq<Task>)
    ensures multiset(r) == multiset(tasks) && |r| == |tasks|
    ensures field != "dueDate" && field != "priority" ==> r == tasks
  {
    if field == "dueDate" then
      if direction == "asc" then SortedByDueDateAsc(tasks) else SortedByDueDateDesc(tasks)
    else if field == "priority" then
      if direction == "asc" then SortedByPriorityAsc(tasks) else SortedByPriorityDesc(tasks)
    else tasks
  }

  /** Sorting on 'dueDate' orders by due date: ascending iff the direction is 'asc'. */
  lemma SortByDueDateOrdered(tasks: seq<Task>, direction: string)
    ensures var r := SortByField(tasks, "dueDate", direction);
      forall i, j :: 0 <= i < j < |r| ==>
        if direction == "asc" then KeyLeq(r[i].dueDate, r[j].dueDate) else KeyLeq(r[j].dueDate, r[i].dueDate)
  {
    OrdersAreTotalPreorders();
    if direction == "asc" {
      Sorting.SortIsSorted(tasks, DueDateAsc);
    } else {
      Sorting.SortIsSorted(tasks, DueDateDesc);
    }
  }

  /** Sorting on 'priority' orders by priority: ascending iff the direction is 'asc'. */
  lemma SortByPriorityOrdered(tasks: seq<Task>, direction: string)
    ensures var r := SortByField(tasks, "priority", direction);
      forall i, j :: 0 <= i < j < |r| ==>
        if direction == "asc" then KeyLeq(r[i].priority, r[j].priority) else KeyLeq(r[j].priority, r[i].priority)
  {
    OrdersAreTotalPreorders();
    if direction == "asc" {
      Sorting.SortIsSorted(tasks, PriorityAsc);
    } else {
      Sorting.SortIsSorted(tasks, PriorityDesc);
    }
  }
}

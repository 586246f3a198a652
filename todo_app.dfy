/** The plain DOM todo list (app.js): the `todos` array, the selected view filter and the text
    box, with the list operations, the view filter and the items-left counter of `renderTodos`. */
module TodoApp {
  import opened Wrappers
  import Text
  import Seqs

  /** One entry as stored: `{ id: Date.now(), text, completed }`. Ids come from the clock and
      are not assumed unique. */
  datatype Todo = Todo(id: int, text: string, completed: bool)

  function IsActive(t: Todo): bool { !t.completed }

  function IsCompleted(t: Todo): bool { t.completed }

  /** The predicate of `todos.filter(todo => todo.id !== id)`. */
  function OtherId(id: int): Todo -> bool {
    (t: Todo) => t.id != id
  }

  /** `todos.map(...)` of `toggleTodo(id)`: every todo with that id has `completed` flipped;
      ids, texts and every other todo stay as they were. */
  function Toggle(todos: seq<Todo>, id: int): (r: seq<Todo>)
    ensures |r| == |todos|
    ensures forall i :: 0 <= i < |r| ==> r[i].id == todos[i].id && r[i].text == todos[i].text
    ensures forall i :: 0 <= i < |r| ==> (r[i].completed == todos[i].completed <==> todos[i].id != id)
  {
    seq(|todos|, i requires 0 <= i < |todos| =>
      if todos[i].id == id then todos[i].(completed := !todos[i].completed) else todos[i])
  }

  /** The list `renderTodos` shows for a filter: 'active', 'completed', or everything. */
  function Visible(todos: seq<Todo>, filter: string): (r: seq<Todo>)
    ensures forall i :: 0 <= i < |r| ==> r[i] in todos
    ensures filter == "active" ==> forall i :: 0 <= i < |r| ==> !r[i].completed
    ensures filter == "completed" ==> forall i :: 0 <= i < |r| ==> r[i].completed
    ensures filter != "active" && filter != "completed" ==> r == todos
  {
    if filter == "active" then Seqs.Filter(todos, IsActive)
    else if filter == "completed" then Seqs.Filter(todos, IsCompleted)
    else todos
  }

  /** The counter counts the incomplete todos of the whole list, whatever the filter. */
  function ActiveCount(todos: seq<Todo>): (n: nat)
    ensures n == |todos| - |Seqs.Filter(todos, IsCompleted)|
  {
    Seqs.FilterPartition(todos, IsActive, IsCompleted);
    |Seqs.Filter(todos, IsActive)|
  }

  /** The counter's text: a singular noun for exactly one, the plural otherwise. */
  function ItemsLeft(n: nat): (caption: string)
    ensures n == 1 ==> caption == "1 item left"
    ensures n != 1 ==> caption == Text.NatToString(n) + " items left"
  {
    Text.NatToString(n) + " item" + (if n != 1 then "s" else "") + " left"
  }

  /** Toggling the same id twice restores the list. */
  lemma ToggleTwice(todos: seq<Todo>, id: int)
    ensures Toggle(Toggle(todos, id), id) == todos
  {
    var r := Toggle(Toggle(todos, id), id);
    assert forall i :: 0 <= i < |todos| ==> r[i] == todos[i];
  }

  /** Deleting keeps every todo with another id, as often as it occurs and in order, and no todo
      with that id. */
  lemma DeleteSpec(todos: seq<Todo>, id: int)
    ensures var r := Seqs.Filter(todos, OtherId(id));
      && (forall i :: 0 <= i < |r| ==> r[i].id != id)
      && (forall t :: multiset(r)[t] == if t.id != id then multiset(todos)[t] else 0)
      && Seqs.Subsequence(r, todos)
  {
    Seqs.FilterIsSubsequence(todos, OtherId(id));
    forall t ensures multiset(Seqs.Filter(todos, OtherId(id)))[t] == if t.id != id then multiset(todos)[t] else 0 {
      Seqs.FilterCount(todos, OtherId(id), t);
    }
  }

  /** Clearing leaves exactly the incomplete todos, in order, and a second clear changes nothing. */
  lemma ClearCompletedSpec(todos: seq<Todo>)
    ensures var r := Seqs.Filter(todos, IsActive);
      && (forall t :: multiset(r)[t] == if t.completed then 0 else multiset(todos)[t])
      && Seqs.Subsequence(r, todos)
      && Seqs.Filter(r, IsActive) == r
  {
    Seqs.FilterIsSubsequence(todos, IsActive);
    Seqs.FilterIdempotent(todos, IsActive);
    forall t ensures multiset(Seqs.Filter(todos, IsActive))[t] == if t.completed then 0 else multiset(todos)[t] {
      Seqs.FilterCount(todos, IsActive, t);
    }
  }

  /** The 'active' and 'completed' views are disjoint and together are the whole list; the
      counter is the size of the 'active' view; any other filter shows everything. */
  lemma ViewsPartition(todos: seq<Todo>, filter: string)
    ensures multiset(Visible(todos, "active")) + multiset(Visible(todos, "completed")) == multiset(todos)
    ensures multiset(Visible(todos, "active")) !! multiset(Visible(todos, "completed"))
    ensures ActiveCount(todos) == |Visible(todos, "active")|
    ensures filter != "active" && filter != "completed" ==> Visible(todos, filter) == todos
  {
    Seqs.FilterPartition(todos, IsActive, IsCompleted);
    var a, c := Seqs.Filter(todos, IsActive), Seqs.Filter(todos, IsCompleted);
    forall t | t in multiset(a) ensures t !in multiset(c) {
      Seqs.FilterCount(todos, IsActive, t);
      Seqs.FilterCount(todos, IsCompleted, t);
    }
  }

  /** The page: the module-level state of app.js. */
  class App {
    var todos: seq<Todo>
    var currentFilter: string
    /** The current value of the text box. */
    var input: string

    /** Start-up: the list stored under 'todos', or an empty one when nothing is stored, and the
        'all' filter. */
    constructor(stored: Option<seq<Todo>>)
      ensures todos == stored.GetOr([]) && currentFilter == "all" && input == ""
    {
      todos := stored.GetOr([]);
      currentFilter := "all";
      input := "";
    }

    /** Typing into the text box. */
    method SetInput(text: string)
      modifies this
      ensures input == text && todos == old(todos) && currentFilter == old(currentFilter)
    {
      input := text;
    }

    /** `addTodo`: nothing for blank input; otherwise one new incomplete todo with the trimmed
        text, stamped with the clock, at the end, and the text box emptied. */
    method AddTodo(now: int)
      modifies this
      ensures currentFilter == old(currentFilter)
      ensures Text.Trim(old(input)) == [] ==> todos == old(todos) && input == old(input)
      ensures Text.Trim(old(input)) != [] ==>
        todos == old(todos) + [Todo(now, Text.Trim(old(input)), false)] && input == ""
    {
      var text := Text.Trim(input);
      if text != [] {
        todos := todos + [Todo(now, text, false)];
        input := "";
      }
    }

    /** `deleteTodo(id)`. */
    method DeleteTodo(id: int)
      modifies this
      ensures todos == Seqs.Filter(old(todos), OtherId(id))
      ensures input == old(input) && currentFilter == old(currentFilter)
    {
      todos := Seqs.Filter(todos, OtherId(id));
    }

    /** `toggleTodo(id)`. */
    method ToggleTodo(id: int)
      modifies this
      ensures todos == Toggle(old(todos), id)
      ensures input == old(input) && currentFilter == old(currentFilter)
    {
      todos := Toggle(todos, id);
    }

    /** `clearCompleted`. */
    method ClearCompleted()
      modifies this
      ensures todos == Seqs.Filter(old(todos), IsActive)
      ensures input == old(input) && currentFilter == old(currentFilter)
    {
      todos := Seqs.Filter(todos, IsActive);
    }

    /** A click on a filter button selects its `data-filter` value. */
    method SetFilter(filter: string)
      modifies this
      ensures currentFilter == filter && todos == old(todos) && input == old(input)
    {
      currentFilter := filter;
    }

    /** What `renderTodos` lists. */
    function Shown(): seq<Todo>
      reads this
    {
      Visible(todos, currentFilter)
    }

    /** What `renderTodos` writes into the counter. */
    function Counter(): (caption: string)
      reads this
      ensures caption == ItemsLeft(|Seqs.Filter(todos, IsActive)|)
    {
      ItemsLeft(ActiveCount(todos))
    }
  }
}

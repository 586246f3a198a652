# A verified model of a small TODO application

The application has two parts that keep a list of tasks.

The back end is a Rails JSON API (`todo-api/app`). It has:

- a `Task` model with presence and inclusion validations, a `by_status` scope and a `sort_by_field` class method;
- a CRUD controller guarded by bearer-token authentication;
- request-level exception handlers and bearer-token extraction;
- a login action that mints unsigned Base64 tokens;
- a serializer that fixes the wire form of a task.

Three front ends keep client-side task lists:

- a plain DOM page (`app.js`) with add, delete, toggle, clear-completed, a view filter and an items-left counter;
- a Pinia store (`stores/taskStore.ts`) with getters and actions wrapped in `loading`/`error` bookkeeping;
- a React context (`src/contexts/TaskContext.jsx`) with append, map-replace and filter;
- a task form (`src/components/tasks/TaskForm.jsx`) that validates and builds the payload it dispatches.

The model has one module per source file:

| module | source |
|---|---|
| TaskModel | todo-api/app/models/task.rb |
| TasksApi | todo-api/app/controllers/api/v1/tasks_controller.rb |
| Application | todo-api/app/controllers/application_controller.rb |
| Auth | todo-api/app/controllers/api/v1/auth_controller.rb |
| TaskSerializer | todo-api/app/serializers/task_serializer.rb |
| TodoApp | app.js |
| TaskStore | stores/taskStore.ts |
| TaskContext | src/contexts/TaskContext.jsx |
| TaskForm | src/components/tasks/TaskForm.jsx |

Some modules are support for the others:

- `Wrappers` holds `Option`.
- `Text` holds the whitespace classes of Ruby and JavaScript, JavaScript's `trim`, Ruby's `split(' ')`, `join`, and decimal rendering and parsing.
- `Seqs` holds the order-preserving `filter` and its laws, and Ruby's `uniq`.
- `Sorting` holds an insertion sort over a total preorder.
- `Base64` is the alphabet and padding of section 4 of RFC 4648, with a proved round trip.
- `Json` holds the JSON value type and a codec that is passed in as a parameter.

State that the source changes in place is a class:

- the tasks table with its id allocator is `TasksApi.TasksController`;
- the per-request `@current_user` is `Application.Controller`;
- the DOM page's globals are `TodoApp.App`;
- the Pinia store is `TaskStore.Store`;
- the React provider's `useState` cells are `TaskContext.Provider`;
- the form's `useState` cells are `TaskForm.Form`.

Each method states the whole new state. The list operations they apply are functions with their own lemmas.

These are passed in as parameters:

- the clock (`now`, and `Date.now()` ids);
- the password check;
- the JSON codec;
- ActiveModel's cast of a scalar id to the integer primary key;
- the ISO 8601 formatter;
- the outcome of every service call.

Where the code and its tests disagree, the model follows the code:

- `index` calls `sort_by_field` with one argument but the method takes two. A non-blank `sort` parameter therefore raises, and the answer is a 500. A blank one is ignored.
- `priority` is required by the model but not permitted by the controller. So every create answers 400, and an update carrying a priority drops it.
- `exp` is never checked when a token is read.
- `User.find` accepts an array of ids. A token whose `user_id` is `[]` therefore passes authentication with no user at all.
- Statuses are the `incomplete`/`complete` pair of the model. The other values used by the API documentation have no code behind them.

## Model

| member | source | states |
|---|---|---|
| TaskModel.Validations | todo-api/app/models/task.rb:16-23 | the six validators in declaration order, each with its verdict and full message; their properties are stated by Failures, ErrorsNameEachFailure and ValidIff |
| TaskModel.Failures | todo-api/app/models/task.rb:16-23 | the failure messages are none exactly when every validator passes, and there are at most as many as validators |
| TaskModel.FailureNamed | todo-api/app/models/task.rb:16-23 | with distinct messages, a validator's message is on the list exactly when that validator fails |
| TaskModel.Errors | todo-api/app/models/task.rb:16-23 | `errors.full_messages` is the failure messages of the validators in order; ErrorsNameEachFailure and ValidIff state what it holds |
| TaskModel.ErrorsNameEachFailure | todo-api/app/models/task.rb:16-23 | each of the six messages ('Title can't be blank', 'Due date can't be blank', 'Priority can't be blank', 'Priority is not included in the list', 'Status can't be blank', 'Status is not included in the list') is present exactly when its check fails |
| TaskModel.IsValid | todo-api/app/models/task.rb:16-23 | `valid?`: no messages; ValidIff states exactly when |
| TaskModel.ValidIff | todo-api/app/models/task.rb:16-23 | a task validates exactly when its title is non-blank, its due date is set, its priority is 1, 2 or 3 and its status is 'incomplete' or 'complete' |
| TaskModel.MissingPriorityRejected | todo-api/app/models/task.rb:22 | a task without a priority never validates, and its messages include both "Priority can't be blank" and "Priority is not included in the list" |
| TaskModel.ByStatus | todo-api/app/models/task.rb:26 | the scope keeps only tasks of the relation, all with the status when it is present, and everything when it is blank or missing; ByStatusSpec adds counts and order |
| TaskModel.ByStatusSpec | todo-api/app/models/task.rb:26 | with a present status the scope keeps exactly the tasks of that status, each as often as it occurs and in order; a blank or missing status keeps everything |
| TaskModel.StatusPartition | todo-api/app/models/task.rb:17-26 | over valid tasks the 'incomplete' and 'complete' scopes are disjoint and together hold every task |
| TaskModel.OrdersAreTotalPreorders | todo-api/app/models/task.rb:27-30 | the four column orders (nil first) are total preorders, so sorting by them is well defined |
| TaskModel.SortByField | todo-api/app/models/task.rb:33-42 | the result is a permutation of the input, and a field other than 'dueDate' or 'priority' returns the input unchanged |
| TaskModel.SortByDueDateOrdered | todo-api/app/models/task.rb:35-36 | sorting on 'dueDate' orders by due date, ascending iff the direction is 'asc' and descending otherwise; no order among equal keys is claimed |
| TaskModel.SortByPriorityOrdered | todo-api/app/models/task.rb:37-38 | sorting on 'priority' orders by priority, ascending iff the direction is 'asc' and descending otherwise |
| TasksApi.Permit | todo-api/app/controllers/api/v1/tasks_controller.rb:59-61 | `permit(:title, :description, :due_date, :status)`: the four keys pass through; PermitIgnoresPriority states what is dropped |
| TasksApi.TaskParamsOf | todo-api/app/controllers/api/v1/tasks_controller.rb:59-61 | `require(:task)` fails for a missing or empty hash; the Create and Update rows state the 400 that follows |
| TasksApi.Assign | todo-api/app/controllers/api/v1/tasks_controller.rb:38 | `assign_attributes`; AssignChangesOnlySentKeys states which attributes change and to what |
| TasksApi.NewTask | todo-api/app/controllers/api/v1/tasks_controller.rb:27 | a new record has id 0 until saved and never a priority, and takes title, description and due date from the request; NewTaskStatusDefault states its status |
| TasksApi.NewTaskStatusDefault | todo-api/app/controllers/api/v1/tasks_controller.rb:27 | a new record's status is 'incomplete' unless the request sets one |
| TasksApi.AssignChangesOnlySentKeys | todo-api/app/controllers/api/v1/tasks_controller.rb:38 | assignment changes exactly the attributes that were sent, and never the id or the priority |
| TasksApi.PermitIgnoresPriority | todo-api/app/controllers/api/v1/tasks_controller.rb:59-61 | the permit list drops priority and any unknown key: they have no effect on what is assigned |
| TasksApi.CreateNeverValidates | todo-api/app/controllers/api/v1/tasks_controller.rb:26-33 | as written no created record validates, and the 400 message names the missing priority |
| TasksApi.SerializeAll | todo-api/app/controllers/api/v1/tasks_controller.rb:17 | one object per task, in order, each with exactly the serializer's keys, an id that reads back as the task's id, and the task's status |
| TasksApi.IndexFiltered | todo-api/app/controllers/api/v1/tasks_controller.rb:9-12 | with a present status every item answered carries that status, and there are as many items as tasks with that status |
| TasksApi.Listing | todo-api/app/controllers/api/v1/tasks_controller.rb:9 | listing a table in the order of a sequence naming each key once gives as many records as the table has, every record among them, each under its own id |
| TasksApi.TasksController.All | todo-api/app/controllers/api/v1/tasks_controller.rb:9 | `Task.all` has exactly as many records as the table, contains every stored record, each equal to the row stored under its id, in insertion order |
| TasksApi.TasksController.constructor | todo-api/db/migrate/20230501000000_create_tasks.rb:3-11 | the table starts empty with its invariant holding: unique keys, every row valid, the allocator above every key |
| TasksApi.TasksController.Index | todo-api/app/controllers/api/v1/tasks_controller.rb:8-18 | without a non-blank `sort` answers 200 with the serialized tasks, filtered by status when present; with one answers the 500 that the arity error produces |
| TasksApi.TasksController.Show | todo-api/app/controllers/api/v1/tasks_controller.rb:21-23 | an existing id answers 200 with the serialized record; an absent one 404 'Task not found' |
| TasksApi.TasksController.Authenticate | todo-api/app/controllers/api/v1/tasks_controller.rb:4 | the before_action halts with 401 exactly when authentication fails |
| TasksApi.TasksController.Insert | todo-api/app/controllers/api/v1/tasks_controller.rb:29 | `save` stores a record under a fresh id exactly when it validates; otherwise nothing changes |
| TasksApi.TasksController.Create | todo-api/app/controllers/api/v1/tasks_controller.rb:26-34 | 401 before anything else; 400 for a missing `task`; 201 with one new record under a fresh id when the permitted attributes validate, else 400 with the messages joined by ', ' and the table unchanged; the table invariant is kept |
| TasksApi.TasksController.Update | todo-api/app/controllers/api/v1/tasks_controller.rb:37-43 | 401 before the lookup, then 404 'Task not found', then 400 for a missing `task`; a validating update replaces only that record and answers 200; a failing one leaves the table exactly as it was |
| TasksApi.TasksController.Destroy | todo-api/app/controllers/api/v1/tasks_controller.rb:46-49 | 401 before the lookup, then 404; an existing id is removed with every other record untouched, answering 204 without a body |
| Application.Rescue | todo-api/app/controllers/application_controller.rb:9-25 | RecordNotFound answers 404 and ParameterMissing 400, each with the exception's message; RecordInvalid answers 400 with the full messages joined by ', '; anything else answers a fixed 500 'Internal server error'; the body code always equals the status |
| Application.BearerToken | todo-api/app/controllers/application_controller.rb:29 | an extracted token is one non-empty word without whitespace |
| Application.BearerTokenMissingIff | todo-api/app/controllers/application_controller.rb:28-33 | there is no token exactly when the header is absent or holds only whitespace |
| Application.BearerTokenIsLastWord | todo-api/app/controllers/application_controller.rb:29 | `<scheme> <token>` yields the token whatever the scheme word is |
| Application.DecodeToken | todo-api/app/controllers/application_controller.rb:39 | `JSON.parse(Base64.decode64(token))`, None where either step fails; TokenRoundTrip states that it inverts token minting |
| Application.TokenRoundTrip | todo-api/app/controllers/application_controller.rb:39 | decoding an encoded payload gives the payload back, and the token is one non-empty word |
| Application.FindUser | todo-api/app/controllers/application_controller.rb:40 | the user found has the requested id; None only when no user has it |
| Application.FindUserFindsMember | todo-api/app/controllers/application_controller.rb:40 | with unique ids, looking up a user's id finds that user |
| Application.PayloadUserId | todo-api/app/controllers/application_controller.rb:40 | `payload['user_id']` is present exactly when the payload is a Hash with that key, and is then its value |
| Application.Scalars | todo-api/app/controllers/application_controller.rb:40 | flattening an array of ids leaves no arrays and no nils, and a flat array of integers is kept as it is |
| Application.FindOne | todo-api/app/controllers/application_controller.rb:40 | a scalar id finds a stored user whose id is the cast id; None only when the cast fails or no user has the cast id |
| Application.FindEach | todo-api/app/controllers/application_controller.rb:40 | an array lookup answers one user per id, each the one its id finds, in the order of the ids; None exactly when some id finds nobody |
| Application.UserFind | todo-api/app/controllers/application_controller.rb:40 | `User.find(user_id)`: nil fails; `[]` answers an empty array; an array answers distinct stored users; a scalar answers one stored user with the cast id; an integer succeeds exactly when a user has it |
| Application.IdArrayFindsUsers | todo-api/app/controllers/application_controller.rb:40 | an array of distinct stored users' ids finds exactly those users, in order |
| Application.Authenticate | todo-api/app/controllers/application_controller.rb:27-44 | 'Authentication token is missing' exactly when there is no token; otherwise any failure is 'Invalid or expired token'; success records what `User.find` returned for the payload's user_id, which holds only stored users |
| Application.AuthenticatesPayloadUser | todo-api/app/controllers/application_controller.rb:39-40 | a token whose payload carries an existing user's id authenticates as that user, whatever else the payload holds |
| Application.EmptyIdArrayAuthenticates | todo-api/app/controllers/application_controller.rb:39-40 | a token whose user_id is `[]` authenticates with an empty array of users, even when there are no users |
| Application.ExpiryNeverChecked | todo-api/app/controllers/application_controller.rb:39-40 | a token for an existing user authenticates even when its exp lies before the current time |
| Application.UndecodableOrUnknownRejected | todo-api/app/controllers/application_controller.rb:39-43 | a present token that does not decode, whose payload has no user_id, whose user_id is null, or whose integer user_id names no user, is rejected with 'Invalid or expired token' |
| Application.Controller.constructor | todo-api/app/controllers/application_controller.rb:46-48 | a new request has no current user |
| Application.Controller.AuthenticateRequest | todo-api/app/controllers/application_controller.rb:27-44 | on success records what `User.find` returned as the current user and lets the action run; on failure renders the 401 and leaves the current user unset |
| Application.Controller.CurrentUser | todo-api/app/controllers/application_controller.rb:46-48 | `current_user` reads back what AuthenticateRequest recorded; AuthenticateRequest states what that is |
| Auth.FindByUsername | todo-api/app/controllers/api/v1/auth_controller.rb:6 | the user found has the requested username; None only when no user has it |
| Auth.GenerateToken | todo-api/app/controllers/api/v1/auth_controller.rb:25-36 | the access token; AccessTokenContents states what it decodes to |
| Auth.GenerateRefreshToken | todo-api/app/controllers/api/v1/auth_controller.rb:38-48 | the refresh token; RefreshTokenContents states what it decodes to |
| Auth.Login | todo-api/app/controllers/api/v1/auth_controller.rb:5-17 | the answer is 200, 400 or 401, and every non-200 answer has the `{code, message}` shape |
| Auth.LoginRequiresParams | todo-api/app/controllers/api/v1/auth_controller.rb:21-23 | a missing or empty `login` hash answers 400 |
| Auth.LoginFailureIsUniform | todo-api/app/controllers/api/v1/auth_controller.rb:8-15 | an unknown username and a wrong password get the same 401 'Invalid username or password' |
| Auth.TokenPresent | todo-api/app/controllers/api/v1/auth_controller.rb:35 | a minted token is never blank |
| Auth.LoginSucceeds | todo-api/app/controllers/api/v1/auth_controller.rb:8-13 | correct credentials answer 200 with exactly access_token and refresh_token, both non-blank, equal to the minted tokens |
| Auth.AccessTokenContents | todo-api/app/controllers/api/v1/auth_controller.rb:25-36 | the access token decodes to exactly user_id, username and exp, with exp 86400 seconds after now |
| Auth.RefreshTokenContents | todo-api/app/controllers/api/v1/auth_controller.rb:38-48 | the refresh token decodes to exactly user_id and exp, with exp 604800 seconds after now, later than the access token's |
| Auth.IssuedTokenAuthenticates | todo-api/app/controllers/api/v1/auth_controller.rb:35 | a minted access token sent as `Bearer <token>` authenticates as exactly the user it was issued to |
| Auth.RefreshTokenAuthenticates | todo-api/app/controllers/api/v1/auth_controller.rb:47 | a refresh token is accepted just like an access token, since nothing tells the kinds apart |
| Base64.Encode | todo-api/app/controllers/api/v1/auth_controller.rb:35 | the encoding of n bytes is 4·⌈n/3⌉ characters long |
| Base64.DecodeEncode | todo-api/app/controllers/api/v1/auth_controller.rb:35 | decoding the encoding of any byte string gives it back |
| Base64.EncodeCharacters | todo-api/app/controllers/api/v1/auth_controller.rb:35 | every encoded character is in the alphabet or is padding, so a token is one word |
| TaskSerializer.Serialize | todo-api/app/serializers/task_serializer.rb:1-13 | exactly the keys id, title, description, due_date, priority and status; id reads back as the integer id; a nil due_date is null and a present one its formatted text; the rest pass through unchanged |
| TaskSerializer.SerializeDistinguishesIds | todo-api/app/serializers/task_serializer.rb:10-12 | tasks with different ids never serialize alike |
| Text.IntToStringRoundTrip | todo-api/app/serializers/task_serializer.rb:11 | parsing the decimal text of an integer gives the integer back |
| Text.TrimEmptyIff | app.js:35-36 | the trimmed text is empty exactly when the input is only whitespace |
| Text.TrimIdempotent | src/components/tasks/TaskForm.jsx:52-53 | trimming twice is trimming once |
| Text.WordsEmptyIff | todo-api/app/controllers/application_controller.rb:29 | splitting on whitespace gives no words exactly when the string is only whitespace |
| TodoApp.Visible | app.js:78-83 | the 'active' view shows only incomplete todos and the 'completed' view only completed ones, all from the list; any other filter shows the list; ViewsPartition adds that the two views split it |
| TodoApp.Toggle | app.js:56-61 | only todos with the id flip `completed`; no id or text changes and the length stays |
| TodoApp.ToggleTwice | app.js:55-64 | toggling the same id twice restores the list |
| TodoApp.DeleteSpec | app.js:50 | deleting keeps every todo with another id, as often as it occurs and in order, and none with that id |
| TodoApp.ClearCompletedSpec | app.js:67 | clearing leaves exactly the incomplete todos, in order, and a second clear changes nothing |
| TodoApp.ViewsPartition | app.js:78-83 | the 'active' and 'completed' views are disjoint and together are the list; the counter is the size of the 'active' view; any other filter shows all |
| TodoApp.ActiveCount | app.js:116 | the counter is the list size minus the completed todos |
| TodoApp.ItemsLeft | app.js:117 | '1 item left' for one, 'N items left' for any other N |
| TodoApp.App.constructor | app.js:10-11 | the list starts as the stored list, or empty when nothing is stored, with the 'all' filter |
| TodoApp.App.SetInput | app.js:35 | typing changes only the text box that `addTodo` reads |
| TodoApp.App.AddTodo | app.js:34-47 | blank input changes nothing; otherwise exactly one incomplete todo with the trimmed text is appended, earlier todos untouched, and the box is cleared |
| TodoApp.App.DeleteTodo | app.js:49-53 | the list becomes the todos with another id |
| TodoApp.App.ToggleTodo | app.js:55-64 | the list becomes its toggled form |
| TodoApp.App.ClearCompleted | app.js:66-70 | the list becomes its incomplete todos |
| TodoApp.App.SetFilter | app.js:23 | a filter button changes only the filter |
| TodoApp.App.Counter | app.js:115-117 | the counter text depends on the incomplete todos of the whole list, not on the filter |
| TaskStore.FindIndex | stores/taskStore.ts:74 | the first index holding the id, or -1 when no task has it |
| TaskStore.Find | stores/taskStore.ts:24-26 | a task is found exactly when one has the id; it is the first task with that id |
| TaskStore.ReplaceFirst | stores/taskStore.ts:117-120 | only the first matching position changes, and it becomes the new task |
| TaskStore.ReplaceFirstSpec | stores/taskStore.ts:117-120 | without a match the list is unchanged; later tasks with the same id keep their value; the replacement is what `getTaskById` then finds |
| TaskStore.StatusGettersPartition | stores/taskStore.ts:32-38 | `incompleteTasks` and `completeTasks` are disjoint and, when every status is one of the two, together hold every task |
| TaskStore.ByPriority | stores/taskStore.ts:40-42 | `tasksByPriority` is a permutation of the tasks |
| TaskStore.ByPriorityOrdered | stores/taskStore.ts:41 | `tasksByPriority` is non-decreasing in priority |
| TaskStore.Merge | stores/taskStore.ts:176 | every key given in the patch wins and every other key keeps its value |
| TaskStore.MergeIdempotent | stores/taskStore.ts:176 | merging a patch twice is merging it once, and an empty patch changes nothing |
| TaskStore.Opposite | stores/taskStore.ts:171 | the requested status is 'incomplete' exactly when the task is 'complete', and it is always one of the two |
| TaskStore.OppositeTwice | stores/taskStore.ts:171 | on the two statuses, toggling twice restores the status |
| TaskStore.Store.GetTaskById | stores/taskStore.ts:24-26 | the getter over the current list; Find states its result |
| TaskStore.Store.IncompleteTasks | stores/taskStore.ts:32-34 | the getter over the current list; StatusGettersPartition states its result |
| TaskStore.Store.CompleteTasks | stores/taskStore.ts:36-38 | the getter over the current list; StatusGettersPartition states its result |
| TaskStore.Store.TasksByPriority | stores/taskStore.ts:40-42 | the getter over the current list; ByPriority and ByPriorityOrdered state its result |
| TaskStore.Store.constructor | stores/taskStore.ts:11-21 | the initial state: no tasks, no current task, not loading, no error, default filters |
| TaskStore.Store.FetchTasks | stores/taskStore.ts:46-61 | asks with the given params or else the filters; on success the list becomes the fetched one; on failure the list stays and the error is set; loading ends false |
| TaskStore.Store.FetchTaskById | stores/taskStore.ts:63-85 | a returned task becomes the current task and replaces the first listed match; a failure sets the error naming the id; loading ends false |
| TaskStore.Store.CreateTask | stores/taskStore.ts:87-106 | a returned task is appended once at the end and returned; null or failure leave the list and return null; loading ends false |
| TaskStore.Store.UpdateTask | stores/taskStore.ts:108-137 | a returned task replaces only the first match, and the current task iff its id matches; otherwise nothing changes but the error; loading ends false |
| TaskStore.Store.DeleteTask | stores/taskStore.ts:139-165 | answers true only when the service confirms; then every task with the id is removed and a matching current task cleared; otherwise the state stays; loading ends false |
| TaskStore.Store.ToggleTaskStatus | stores/taskStore.ts:167-173 | an absent id answers false and changes nothing, not even loading; otherwise the opposite status is requested, and the list, the current task, the error and the answer are exactly those of `updateTask` |
| TaskStore.Store.SetFilters | stores/taskStore.ts:175-178 | the filters become the merge, and the fetch is made with them: on success the list is the fetched one and the error is cleared; on failure the list stays and the error is set |
| TaskStore.Store.ClearFilters | stores/taskStore.ts:180-187 | status and sortBy become undefined and order 'asc', and the fetch is made with them: on success the list is the fetched one and the error is cleared; on failure the list stays and the error is set |
| TaskContext.ErrorText | src/contexts/TaskContext.jsx:32 | the error is the thrown message, or the operation's default when the message is empty |
| TaskContext.MapReplace | src/contexts/TaskContext.jsx:77 | every task with the id becomes the updated task and every other stays in place |
| TaskContext.MapReplaceIdempotent | src/contexts/TaskContext.jsx:77 | replacing twice with a task carrying the id is replacing once |
| TaskContext.MapReplaceOnlyTouchesId | src/contexts/TaskContext.jsx:77 | once the tasks with the id are set aside the list is unchanged, and the number with the id is the same |
| TaskContext.DeleteByIdSpec | src/contexts/TaskContext.jsx:94 | deleting keeps exactly the tasks with other ids, as often as they occur and in order |
| TaskContext.Provider.constructor | src/contexts/TaskContext.jsx:9-11 | no tasks, not loading, no error |
| TaskContext.Provider.FetchTasks | src/contexts/TaskContext.jsx:24-36 | on success the list becomes the fetched one and the error stays cleared; on failure the list stays and the error is set; loading ends false |
| TaskContext.Provider.GetTask | src/contexts/TaskContext.jsx:39-51 | answers the fetched task or null, never touching the list |
| TaskContext.Provider.CreateTask | src/contexts/TaskContext.jsx:54-68 | success appends the created task at the end and returns it; failure leaves the list, returns null and sets the error |
| TaskContext.Provider.UpdateTask | src/contexts/TaskContext.jsx:71-85 | success map-replaces every task with the id; failure leaves the list, returns null and sets the error |
| TaskContext.Provider.DeleteTask | src/contexts/TaskContext.jsx:88-102 | success removes every task with the id and returns true; failure leaves the list, returns false and sets the error |
| TaskContext.Provider.OnAuthChange | src/contexts/TaskContext.jsx:15-21 | when not authenticated the list is emptied; otherwise the list is fetched |
| TaskForm.ValidationErrors | src/components/tasks/TaskForm.jsx:29-39 | only the keys title and description, each present exactly when that trimmed field is empty, with 'Title is required' and 'Description is required' |
| TaskForm.ValidIff | src/components/tasks/TaskForm.jsx:29-42 | the form is valid exactly when both fields hold a non-whitespace character |
| TaskForm.Payload | src/components/tasks/TaskForm.jsx:51-55 | the payload is the trimmed title and description, with `completed` present exactly when editing |
| TaskForm.PayloadTrimmed | src/components/tasks/TaskForm.jsx:51-53 | the payload's texts carry no surrounding whitespace |
| TaskForm.Form.constructor | src/components/tasks/TaskForm.jsx:14-27 | an edited task's fields fill the form; otherwise it starts blank and incomplete |
| TaskForm.Form.SetTitle | src/components/tasks/TaskForm.jsx:89 | changes only the title |
| TaskForm.Form.SetDescription | src/components/tasks/TaskForm.jsx:105 | changes only the description |
| TaskForm.Form.SetCompleted | src/components/tasks/TaskForm.jsx:116 | changes only `completed` |
| TaskForm.Form.ValidateForm | src/components/tasks/TaskForm.jsx:29-42 | stores the errors, and answers true exactly when there are none |
| TaskForm.Form.HandleSubmit | src/components/tasks/TaskForm.jsx:44-70 | an invalid form dispatches nothing and leaves the context untouched; editing calls update with the task's id, otherwise create; the payload is as above; the context's list and error become those of the handler called, with loading ended; the form closes exactly when the call answered a task |

## Left out

- Rendering, DOM creation, event wiring and the JSX trees are left out; only the state they read and write is modelled.
- Storage and network I/O are left out. This covers localStorage, axios, the database, and `console`/`Rails.logger`.
  - The stored todo list is a constructor parameter.
  - Each service call is an input outcome.
  - The database is the in-memory table.
- Concurrency is left out. Awaited calls complete in program order.
- React's stale closures are left out. A handler reads the current list rather than the one captured at render.
- TaskStore.Store.SetFilters: the fetch that `setFilters` and `clearFilters` do not await is modelled as finishing before the method returns.
- Parameter casting is left out. Attribute values arrive already typed: strings, integers, and due dates as numbers. Rails' own string-to-datetime casting is not modelled. A route id is taken as an integer.
- TasksApi.TasksController.Show: an id that is not a valid integer is not modelled.
- Timestamps (`created_at`, `updated_at`) are not modelled. The serializer does not emit them.
- TaskSerializer.Serialize: ISO 8601 formatting of due dates is a parameter, since the formatter is library code.
- TasksApi.TasksController.All: the order `Task.all` returns without ORDER BY is taken as insertion order. The order the database gives to rows with equal keys is not specified, so the sorts claim no stability.
- TaskModel.SortByField: the model sorts by insertion sort, a stand-in for ORDER BY in the database. Only sortedness and permutation are claimed.
- TasksApi.TasksController.Index: the `sortBy`/`order` query parameters named by the API documentation are ignored, as in the controller. A non-blank `sort` parameter ends in the arity error, modelled as its 500.
- Password hashing is left out. bcrypt's `User#authenticate` is the `passwordMatches` parameter.
- JSON parsing and encoding are left out. The codec is a parameter, assumed lossless for the round-trip lemmas. Floats are not modelled.
- Application.DecodeToken: Ruby's `Base64.decode64` is lenient: it skips characters outside the alphabet and accepts missing padding. The model's decoder is strict about alphabet, length and padding. It also ignores the unused low bits of the last character.
- Application.UserFind: ActiveModel's cast of a scalar id (a numeric string, `true`, a Hash) is the `cast` parameter. The model assumes only that an integer casts to itself, so it claims nothing about which user such an id finds.
- Application.PayloadUserId: a payload that is a JSON string is taken to fail the lookup. Ruby's `String#[]` would answer a substring, which `User.find` then casts.
- Application.UserFind: Ruby's `uniq` compares raw JSON values, as the model does. An array whose distinct raw ids cast to the same key raises in the source, and the model answers a failure for it too.
- TasksApi.TasksController.Insert: a failed validation does not consume an id. Real database sequences may skip values without any effect on the answers.
- The health controller, routes, migrations, seeds, factories and API documentation are not part of this model.
- The Vue composables and React services (`useApi`, `useTaskService`, `taskService`, `authService`) are not part of this model. Their calls are the outcome parameters.
- The `filteredTasks` getter of the store is not modelled as its own member. It is a plain copy of the list.
- TaskStore.Store.UpdateTask: the update data sent to the service is not modelled, since the store never reads it back. `ToggleTaskStatus` returns the status it requests.

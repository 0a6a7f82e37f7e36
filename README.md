# Todo list page and todo service, modelled in Dafny

This project models the two pieces of logic in a small todo application:

- **The todo list page** (`src/components/TodoList.jsx`). It is a React component with five pieces of state:
  - the list of todos;
  - the new-todo input;
  - the id of the todo being edited and its draft text;
  - the category filter.

  Its handlers create, delete, edit and toggle todos through the todo service. They change the local list only when a request succeeds, with one exception: `editTask` changes the found todo's text in place before its request is sent. `TodoList.TodoApp` is a class with those five fields, and each handler is a method. A handler that awaits a request takes the service's reply (`Ok(body)` or `Err`) as a parameter and returns the request it sends, or `None` when it sends nothing. The array rewrites it performs (`find`, `filter`, `map`) are pure functions in `TodoListOps`. JavaScript's `trim` is in `JsStrings`.
- **The todo service** (`src/backend/main.py`). It is a FastAPI application with five handlers over a `todos` table keyed by an integer primary key. `TodoStore.Store` holds the table as a `map<int, Todo>` and changes it in place. A missing id gives `Failure(NotFound)`, which is the HTTP 404. The list query `get_todos` is a pure function of the table and the optional category.

Shared records live in `Todos`:
- `TodoItem` is `TodoItemRead`, the item the page keeps.
- `TodoCreate` is `TodoItemCreate`, the request body.

Some behaviour of the code is easy to misread, and the model keeps it as written:
- `editTask` changes the text of the todo it finds *in place*, before the update is sent. That change therefore stays in the list when the request fails. When the request succeeds, the page uses the locally edited todo and ignores the service's reply. `Edited` and `EditedIgnoresOutcome` show that, when ids are unique, the outcome of the request makes no difference to the list.
- `addTask` clears the input only after a successful create. A failed create keeps both the list and the input.
- Starting an edit sets only the edited id; the draft text is kept. This includes switching from one todo to another while editing. The text is empty only because saving or cancelling clears it. The invariant `TodoApp.Valid()` is "no edited id implies an empty draft", and every handler keeps it.
- The list query filters on `completed` only. A todo's `category` field is stored but never consulted, and every new todo is created with category `"incomplete"`.
- Choosing the filter value that is already selected does nothing. The fetch is an effect that depends on the filter, and setting a state to its current value does not re-run it.
- `deleteTask` sends its request even when no local todo has that id.

## Model

| member | source | states |
|---|---|---|
| Todos.NewTodoCreate | src/backend/main.py:26-29 | a request body keeps its text; an absent `completed` is false and an absent `category` is "incomplete" |
| Todos.BodyOf | src/backend/main.py:54 | a whole todo sent as an update body is read as its three fields, the same as a body that gives each field explicitly |
| TodoStore.Row | src/backend/main.py:58-59 | a stored row copies text, completed and category from the validated body, as `TodoItem(**todo.dict())` at line 47 and the `setattr` loop do |
| TodoStore.Selects | src/backend/main.py:39-43 | the list query keeps a row exactly when "completed" does not exclude it for being incomplete and "incomplete" does not exclude it for being completed; only the flag is consulted |
| TodoStore.Read | src/backend/main.py:31-35 | a response carries the row's key, and reading its fields back gives the stored row |
| TodoStore.Toggled | src/backend/main.py:78 | toggling negates `completed` and keeps `text` and `category` |
| TodoStore.GetTodos | src/backend/main.py:37-43 | "completed" lists exactly the rows with `completed` true; "incomplete" lists exactly those with it false; any other value or none lists every row; listed rows are as stored |
| TodoStore.ListingsPartition | src/backend/main.py:39-42 | every row is in exactly one of the "completed" and "incomplete" listings |
| TodoStore.ListingIgnoresCategory | src/backend/main.py:39-43 | changing a row's `category` changes no listing's membership |
| TodoStore.ListingAfterInsert | src/backend/main.py:45-51 | a created row appears in exactly the listings that select its `completed` flag, and the rest of each listing is unchanged |
| TodoStore.ListingAfterRemove | src/backend/main.py:64-71 | a deleted row leaves every listing, and nothing else does |
| TodoStore.ToggleMovesBetweenListings | src/backend/main.py:73-81 | a toggled row moves between the "incomplete" and "completed" listings |
| TodoStore.ToggleTwiceRestores | src/backend/main.py:78 | toggling the same row twice gives back the original table |
| TodoStore.NextRowId | src/backend/database.py:14 | the value is one more than the largest key in use, or 1 if that is larger; it lies above every key in use |
| TodoStore.FreshIdExists | src/backend/database.py:14 | whatever the table holds, an unused key exists for a new row |
| TodoStore.Store.CreateTodo | src/backend/main.py:45-51 | inserts the body's three fields under a key not in use, leaves every other row unchanged, and returns the new row with its key |
| TodoStore.Store.UpdateTodo | src/backend/main.py:53-62 | missing id: 404, with the table unchanged; otherwise it overwrites text, completed and category under the same key, leaves every other row unchanged, and returns the row |
| TodoStore.Store.DeleteTodo | src/backend/main.py:64-71 | missing id: 404, with the table unchanged; otherwise it removes exactly that row and returns it as it was |
| TodoStore.Store.ToggleTodoCompleted | src/backend/main.py:73-81 | missing id: 404, with the table unchanged; otherwise it negates that row's `completed`, changes nothing else, and returns the row |
| JsStrings.IsWhiteSpace | src/components/TodoList.jsx:27 | the characters `trim` strips: ECMAScript white space and line terminators; space and tab through carriage return are among them, and no printable ASCII character other than space is |
| JsStrings.TrimStart | src/components/TodoList.jsx:27 | the result is the suffix of the input left after its leading white space |
| JsStrings.TrimEnd | src/components/TodoList.jsx:27 | the result is the prefix of the input left before its trailing white space |
| JsStrings.Trim | src/components/TodoList.jsx:27 | the result is the slice of the input between a blank prefix and a blank suffix, and it neither starts nor ends with white space |
| JsStrings.TrimEmptyIffBlank | src/components/TodoList.jsx:27 | `input.trim()` is empty exactly when every character of the input is white space or a line terminator |
| TodoListOps.FindById | src/components/TodoList.jsx:50 | gives the index of the first todo with the id, and none exactly when no todo has it |
| TodoListOps.RemoveById | src/components/TodoList.jsx:42 | a todo stays exactly when it was in the list and its id differs |
| TodoListOps.RemoveByIdAppend | src/components/TodoList.jsx:42 | removal distributes over concatenation, so the kept todos stay in their original order |
| TodoListOps.RemoveAbsentId | src/components/TodoList.jsx:42 | removing an id that no todo has leaves the list as it was |
| TodoListOps.RemovePresentUniqueId | src/components/TodoList.jsx:42 | with unique ids, removing a present id drops exactly that one todo |
| TodoListOps.ReplaceById | src/components/TodoList.jsx:64 | same length; each todo with the id becomes the given todo, and every other todo is unchanged |
| TodoListOps.Edited | src/components/TodoList.jsx:48-59 | an absent id changes nothing; the found todo gets the new text; every todo with another id is unchanged |
| TodoListOps.EditedKeepsAllButText | src/components/TodoList.jsx:50-54 | with unique ids, an edit keeps every todo's id, `completed` and `category` |
| TodoListOps.EditedIgnoresOutcome | src/components/TodoList.jsx:52-57 | with unique ids, the list after an edit is the in-place text change, whether the update succeeds or fails |
| TodoList.TodoApp.constructor | src/components/TodoList.jsx:7-11 | the initial state is an empty list, empty input, no edit session, and filter "all" |
| TodoList.TodoApp.FetchTodos | src/components/TodoList.jsx:13-24 | asks for the current filter; success replaces the whole list with the reply; failure leaves the list unchanged |
| TodoList.TodoApp.SetInput | src/components/TodoList.jsx:98 | the input becomes the typed value |
| TodoList.TodoApp.AddTask | src/components/TodoList.jsx:26-37 | blank input: nothing sent, nothing changed; otherwise it posts the untrimmed input as an incomplete todo; success appends the reply and clears the input; failure changes nothing |
| TodoList.TodoApp.DeleteTask | src/components/TodoList.jsx:39-46 | always sends the delete; success removes every todo with the id; failure changes nothing |
| TodoList.TodoApp.EditTask | src/components/TodoList.jsx:48-59 | an absent id sends nothing and changes nothing; otherwise it sends the found todo with the new text, and the list becomes `Edited` of the old list, so the in-place edit survives a failure |
| TodoList.TodoApp.ToggleCompleted | src/components/TodoList.jsx:61-68 | sends the toggle; success replaces each todo with the id by the reply; failure changes nothing |
| TodoList.TodoApp.StartEdit | src/components/TodoList.jsx:151 | sets only the edited id, keeps the draft text, and keeps the edit-session invariant |
| TodoList.TodoApp.HandleEditingTextChange | src/components/TodoList.jsx:70-72 | while editing, the draft becomes the typed value |
| TodoList.TodoApp.SaveEdit | src/components/TodoList.jsx:74-78 | edits the todo to the draft text as `EditTask` does, then closes the session (no id, empty draft) whatever the outcome |
| TodoList.TodoApp.CancelEdit | src/components/TodoList.jsx:80-83 | closes the session (no id, empty draft) and does not touch the list |
| TodoList.TodoApp.HandleCategoryChange | src/components/TodoList.jsx:85-87 | stores the filter; a new value fetches that filter's todos as `FetchTodos` does; the current value again sends nothing and changes nothing |

## Left out

- HTTP transport is not modelled: axios, URLs, query-string encoding and JSON. Each reply is a parameter (`Ok(body)` or `Err`), and each request is a `Request` value.
- Asynchrony is not modelled. Each handler is one atomic step, with its request and its reply together. The last-write-wins races between requests in flight are therefore not represented:
  - two edits or toggles of the same todo resolving out of order;
  - a fetch for an old filter resolving after a newer one;
  - `saveEdit` clearing the session before its update resolves.
- React's rendering, styling and icons are not modelled, and neither is the logging of errors with `console.error`. The handlers read the current state; stale closures are not modelled.
- The FastAPI wiring is not modelled: CORS, the `get_db` session lifecycle and `response_model` serialization. Request-body validation errors (HTTP 422) are not modelled either; bodies are already validated `TodoCreate` values.
- The SQLAlchemy/SQLite engine is not part of this model. `CreateTodo` takes any key not in use. `NextRowId` describes the engine's usual choice (one more than the largest key, or 1 if that is larger) but is not used to pick the key. The engine's 64-bit key limit is not modelled.
- TodoList.TodoApp.EditTask: todos are values, so one todo object shared by several list positions is not captured. Sharing arises only when ids repeat, for instance after a successful toggle puts the same reply object at every position with that id; the in-place text change then shows at all of them in the page, but at the first one only in the model.
- TodoStore.GetTodos: returns the selected rows as an id-keyed map, so the order of the list that the query returns (it has no ORDER BY) is not captured.
- src/components/home/index.jsx, the profile panel over an external identity provider, is not part of this model.

/** The todo list page (src/components/TodoList.jsx) as a state machine.
    Its five pieces of component state are the fields of `TodoApp`; each
    event handler is a method. A handler that awaits a request takes the
    server's reply as a parameter and returns the request it sends, so the
    whole handler, before and after the `await`, is one step. */
module TodoList {
  import opened Todos
  import opened JsStrings
  import opened TodoListOps

  /** The requests the page sends to the todo service. */
  datatype Request =
    | List(category: string)               // GET /todos?category=...
    | Create(body: TodoCreate)             // POST /todos
    | Delete(id: int)                      // DELETE /todos/{id}
    | Update(id: int, todo: TodoItem)      // PUT /todos/{id}
    | Toggle(id: int)                      // PATCH /todos/{id}

  class TodoApp {
    var todos: seq<TodoItem>
    var input: string
    var editingId: Option<int>
    var editingText: string
    var categoryFilter: string

    /** The edit session: no draft text is kept while no todo is being edited. */
    ghost predicate Valid()
      reads this
    {
      editingId == None ==> editingText == ""
    }

    /** The initial state of the component. */
    constructor ()
      ensures Valid()
      ensures todos == [] && input == "" && editingId == None && editingText == ""
      ensures categoryFilter == All
    {
      todos, input := [], "";
      editingId, editingText := None, "";
      categoryFilter := All;
    }

    /** `fetchTodos`, run on mount and whenever the filter changes: asks
        for the todos of the current filter and, on success, replaces the
        whole list by the reply. */
    method FetchTodos(reply: Reply<seq<TodoItem>>) returns (sent: Request)
      requires Valid()
      modifies this`todos
      ensures Valid()
      ensures sent == List(categoryFilter)
      ensures reply.Ok? ==> todos == reply.value
      ensures reply.Err? ==> todos == old(todos)
    {
      sent := List(categoryFilter);
      if reply.Ok? {
        todos := reply.value;
      }
    }

    /** The `onChange` of the new-todo input field. */
    method SetInput(value: string)
      requires Valid()
      modifies this`input
      ensures Valid()
      ensures input == value
    {
      input := value;
    }

    /** `addTask`: blank input sends nothing; otherwise the untrimmed input
        is posted as a new incomplete todo and, on success, the created todo
        is appended and the input cleared. */
    method AddTask(reply: Reply<TodoItem>) returns (sent: Option<Request>)
      requires Valid()
      modifies this`todos, this`input
      ensures Valid()
      ensures Trim(old(input)) == "" ==> sent == None && todos == old(todos) && input == old(input)
      ensures Trim(old(input)) != "" ==> sent == Some(Create(TodoCreate(old(input), false, Incomplete)))
      ensures Trim(old(input)) != "" && reply.Ok? ==> todos == old(todos) + [reply.value] && input == ""
      ensures reply.Err? ==> todos == old(todos) && input == old(input)
    {
      if Trim(input) == "" {
        return None;
      }
      sent := Some(Create(TodoCreate(input, false, Incomplete)));
      if reply.Ok? {
        todos := todos + [reply.value];
        input := "";
      }
    }

    /** `deleteTask`: always sends the delete; on success every todo with
        that id leaves the list. The reply's body is not used. */
    method DeleteTask(id: int, reply: Reply<TodoItem>) returns (sent: Request)
      requires Valid()
      modifies this`todos
      ensures Valid()
      ensures sent == Delete(id)
      ensures reply.Ok? ==> todos == RemoveById(old(todos), id)
      ensures reply.Err? ==> todos == old(todos)
    {
      sent := Delete(id);
      if reply.Ok? {
        todos := RemoveById(todos, id);
      }
    }

    /** `editTask`: finds the first todo with that id and, if there is one,
        sets its text in place before the update is sent; on success every
        todo with that id is replaced by the edited one. The reply's body is
        not used, and a failed request leaves the in-place edit. */
    method EditTask(id: int, newText: string, reply: Reply<TodoItem>) returns (sent: Option<Request>)
      requires Valid()
      modifies this`todos
      ensures Valid()
      ensures !HasId(old(todos), id) ==> sent == None
      ensures forall k :: FindById(old(todos), id) == Some(k) ==>
        sent == Some(Update(id, old(todos)[k].(text := newText)))
      ensures todos == Edited(old(todos), id, newText, reply.Ok?)
    {
      match FindById(todos, id)
      case None =>
        sent := None;
      case Some(k) =>
        var edited := todos[k].(text := newText);
        ghost var before := todos;
        todos := todos[k := edited];
        sent := Some(Update(id, edited));
        if reply.Ok? {
          todos := ReplaceById(todos, id, edited);
          assert todos == ReplaceById(before, id, edited);
        }
    }

    /** `toggleCompleted`: sends the toggle; on success every todo with that
        id is replaced by the todo in the reply. */
    method ToggleCompleted(id: int, reply: Reply<TodoItem>) returns (sent: Request)
      requires Valid()
      modifies this`todos
      ensures Valid()
      ensures sent == Toggle(id)
      ensures reply.Ok? ==> todos == ReplaceById(old(todos), id, reply.value)
      ensures reply.Err? ==> todos == old(todos)
    {
      sent := Toggle(id);
      if reply.Ok? {
        todos := ReplaceById(todos, id, reply.value);
      }
    }

    /** The pencil button of a todo that is not being edited: starts editing
        it, keeping whatever draft text there is. */
    method StartEdit(id: int)
      requires Valid()
      modifies this`editingId
      ensures Valid()
      ensures editingId == Some(id)
    {
      editingId := Some(id);
    }

    /** `handleEditingTextChange`: the edit field is shown only while a todo
        is being edited. */
    method HandleEditingTextChange(value: string)
      requires Valid() && editingId != None
      modifies this`editingText
      ensures Valid()
      ensures editingText == value
    {
      editingText := value;
    }

    /** `saveEdit`: edits todo `id` to the draft text, then closes the edit
        session whatever the request's outcome. */
    method SaveEdit(id: int, reply: Reply<TodoItem>) returns (sent: Option<Request>)
      requires Valid()
      modifies this`todos, this`editingId, this`editingText
      ensures Valid()
      ensures editingId == None && editingText == ""
      ensures !HasId(old(todos), id) ==> sent == None
      ensures forall k :: FindById(old(todos), id) == Some(k) ==>
        sent == Some(Update(id, old(todos)[k].(text := old(editingText))))
      ensures todos == Edited(old(todos), id, old(editingText), reply.Ok?)
    {
      sent := EditTask(id, editingText, reply);
      editingId := None;
      editingText := "";
    }

    /** `cancelEdit`: closes the edit session; the list is not touched. */
    method CancelEdit()
      requires Valid()
      modifies this`editingId, this`editingText
      ensures Valid()
      ensures editingId == None && editingText == ""
    {
      editingId := None;
      editingText := "";
    }

    /** `handleCategoryChange` and the effect that depends on the filter:
        a new filter value is stored and fetched; choosing the current
        value again changes nothing and sends nothing. */
    method HandleCategoryChange(category: string, reply: Reply<seq<TodoItem>>) returns (sent: Option<Request>)
      requires Valid()
      modifies this`categoryFilter, this`todos
      ensures Valid()
      ensures categoryFilter == category
      ensures category == old(categoryFilter) ==> sent == None && todos == old(todos)
      ensures category != old(categoryFilter) ==> sent == Some(List(category))
      ensures category != old(categoryFilter) && reply.Ok? ==> todos == reply.value
      ensures reply.Err? ==> todos == old(todos)
    {
      if category == categoryFilter {
        return None;
      }
      categoryFilter := category;
      var request := FetchTodos(reply);
      sent := Some(request);
    }
  }
}

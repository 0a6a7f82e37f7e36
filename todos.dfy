/** Records exchanged between the todo list page (src/components/TodoList.jsx)
    and the todo service (src/backend/main.py). */
module Todos {

  datatype Option<+T> = None | Some(value: T)

  /** The outcome of one HTTP request as the page sees it: the response body,
      or a rejection (network failure or an error status), which every
      handler catches and only logs. */
  datatype Reply<+T> = Ok(value: T) | Err

  /** A todo as the service returns it (`TodoItemRead`) and as the page
      keeps it in its list. */
  datatype TodoItem = TodoItem(id: int, text: string, completed: bool, category: string)

  /** The body of a create or update request (`TodoItemCreate`). */
  datatype TodoCreate = TodoCreate(text: string, completed: bool, category: string)

  const All: string := "all"
  const Incomplete: string := "incomplete"
  const Completed: string := "completed"

  /** Validates a request body against `TodoItemCreate`: `text` is required,
      an absent `completed` defaults to false and an absent `category` to
      "incomplete". */
  function NewTodoCreate(text: string, completed: Option<bool>, category: Option<string>): (r: TodoCreate)
    ensures r.text == text
    ensures r.completed <==> completed == Some(true)
    ensures category == None ==> r.category == Incomplete
    ensures forall c :: category == Some(c) ==> r.category == c
  {
    TodoCreate(
      text,
      match completed case Some(b) => b case None => false,
      match category case Some(c) => c case None => Incomplete)
  }

  /** Reads a whole todo as a `TodoItemCreate` body: validation keeps the
      three declared fields and drops the extra `id`. */
  function BodyOf(item: TodoItem): (r: TodoCreate)
    ensures r == NewTodoCreate(item.text, Some(item.completed), Some(item.category))
  {
    TodoCreate(item.text, item.completed, item.category)
  }
}

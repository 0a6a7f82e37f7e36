/** The todo service (src/backend/main.py): five handlers over the `todos`
    table, keyed by the integer primary key. The database session is the
    `Store` object; its `table` field is the table's current contents. */
module TodoStore {
  import opened Todos

  /** One row of the `todos` table, without its key. */
  datatype Todo = Todo(text: string, completed: bool, category: string)

  /** The one error the handlers raise: HTTP 404, "Todo not found". */
  datatype Error = NotFound

  datatype Result<+T> = Success(value: T) | Failure(error: Error)

  /** The row built from a validated request body: every field is copied. */
  function Row(body: TodoCreate): (r: Todo)
    ensures r.text == body.text && r.completed == body.completed && r.category == body.category
  {
    Todo(body.text, body.completed, body.category)
  }

  /** The response model `TodoItemRead` of the row stored under `id`. */
  function Read(id: int, row: Todo): (r: TodoItem)
    ensures r.id == id && Row(BodyOf(r)) == row
  {
    TodoItem(id, row.text, row.completed, row.category)
  }

  /** The row with its completion flag negated; text and category are kept. */
  function Toggled(row: Todo): (r: Todo)
    ensures r.completed == !row.completed
    ensures r.text == row.text && r.category == row.category
  {
    row.(completed := !row.completed)
  }

  /** Whether the list query for `category` keeps a row with the given
      completion flag; only the flag is looked at, never the row's category. */
  predicate Selects(category: Option<string>, completed: bool)
    ensures Selects(category, completed) <==>
      (category == Some(Completed) ==> completed) && (category == Some(Incomplete) ==> !completed)
  {
    if category == Some(Completed) then completed
    else if category == Some(Incomplete) then !completed
    else true
  }

  /** `get_todos`: the rows the list query returns for the optional
      `category` query parameter. */
  function GetTodos(db: map<int, Todo>, category: Option<string>): (r: map<int, Todo>)
    ensures forall id :: id in r ==> id in db && r[id] == db[id]
    ensures category == Some(Completed) ==>
      forall id :: id in r <==> id in db && db[id].completed
    ensures category == Some(Incomplete) ==>
      forall id :: id in r <==> id in db && !db[id].completed
    ensures category != Some(Completed) && category != Some(Incomplete) ==> r == db
  {
    map id | id in db && Selects(category, db[id].completed) :: db[id]
  }

  /** The "completed" and "incomplete" listings split the table: every row
      is in exactly one of them. */
  lemma ListingsPartition(db: map<int, Todo>)
    ensures GetTodos(db, Some(Completed)).Keys !! GetTodos(db, Some(Incomplete)).Keys
    ensures GetTodos(db, Some(Completed)).Keys + GetTodos(db, Some(Incomplete)).Keys == db.Keys
  {
    var c, i := GetTodos(db, Some(Completed)), GetTodos(db, Some(Incomplete));
    forall id | id in db ensures id in c.Keys + i.Keys {
      if db[id].completed { assert id in c; } else { assert id in i; }
    }
  }

  /** Rewriting a row's category never changes what any listing contains
      (only its contents, for the row itself). */
  lemma ListingIgnoresCategory(db: map<int, Todo>, id: int, newCategory: string, category: Option<string>)
    requires id in db
    ensures GetTodos(db[id := db[id].(category := newCategory)], category).Keys == GetTodos(db, category).Keys
  {
  }

  /** A row inserted under a fresh key shows up in exactly the listings
      that select its completion flag, and the rest of each listing is as before. */
  lemma ListingAfterInsert(db: map<int, Todo>, id: int, row: Todo, category: Option<string>)
    requires id !in db
    ensures GetTodos(db[id := row], category) ==
      if Selects(category, row.completed) then GetTodos(db, category)[id := row] else GetTodos(db, category)
  {
    var after, before := GetTodos(db[id := row], category), GetTodos(db, category);
    if Selects(category, row.completed) {
      assert after.Keys == before.Keys + {id};
    } else {
      assert after.Keys == before.Keys;
    }
  }

  /** Removing a row removes it from every listing and nothing else. */
  lemma ListingAfterRemove(db: map<int, Todo>, id: int, category: Option<string>)
    ensures GetTodos(db - {id}, category) == GetTodos(db, category) - {id}
  {
    assert GetTodos(db - {id}, category).Keys == (GetTodos(db, category) - {id}).Keys;
  }

  /** Toggling a row moves it from the "incomplete" listing to the
      "completed" one, or back. */
  lemma ToggleMovesBetweenListings(db: map<int, Todo>, id: int)
    requires id in db
    ensures var db' := db[id := Toggled(db[id])];
      (id in GetTodos(db', Some(Completed)) <==> id in GetTodos(db, Some(Incomplete))) &&
      (id in GetTodos(db', Some(Incomplete)) <==> id in GetTodos(db, Some(Completed)))
  {
  }

  /** Toggling the same row twice restores the table. */
  lemma ToggleTwiceRestores(db: map<int, Todo>, id: int)
    requires id in db
    ensures var once := db[id := Toggled(db[id])];
      once[id := Toggled(once[id])] == db
  {
    var once := db[id := Toggled(db[id])];
    assert Toggled(once[id]) == db[id];
  }

  /** One more than the largest key in use, or 1 if that is larger: the
      engine's default choice of a new integer primary key, which lies above
      every key in use. */
  ghost function NextRowId(keys: set<int>): (r: int)
    ensures forall k :: k in keys ==> k < r
    ensures r >= 1
    ensures r == 1 || r - 1 in keys
    decreases keys
  {
    if keys == {} then 1
    else
      NonEmptyHasKey(keys);
      var k :| k in keys;
      var rest := NextRowId(keys - {k});
      assert forall j :: j in keys ==> j == k || j in keys - {k};
      if k + 1 > rest then k + 1 else rest
  }

  lemma NonEmptyHasKey(keys: set<int>)
    requires keys != {}
    ensures exists k :: k in keys
  {
    if forall k :: k !in keys {
      assert false;
    }
  }

  /** Whatever the table holds, an unused key exists, so an insert can
      always be given a fresh id. */
  lemma FreshIdExists(db: map<int, Todo>)
    ensures exists id :: id !in db
  {
    var id := NextRowId(db.Keys);
    assert id !in db;
  }

  /** The database session: the table, updated in place by the handlers. */
  class Store {
    var table: map<int, Todo>

    constructor ()
      ensures table == map[]
    {
      table := map[];
    }

    /** `create_todo`: inserts the validated body under a key not in use
        (the engine's choice) and returns the new row with its key. */
    method CreateTodo(todo: TodoCreate) returns (r: TodoItem)
      modifies this
      ensures r.id !in old(table)
      ensures table == old(table)[r.id := Row(todo)]
      ensures r == TodoItem(r.id, todo.text, todo.completed, todo.category)
    {
      FreshIdExists(table);
      var id :| id !in table;
      table := table[id := Row(todo)];
      r := Read(id, table[id]);
    }

    /** `update_todo`: overwrites text, completed and category of the row
        `id` with the body's values, or fails with 404 if there is none. */
    method UpdateTodo(id: int, todo: TodoCreate) returns (r: Result<TodoItem>)
      modifies this
      ensures id !in old(table) ==> r == Failure(NotFound) && table == old(table)
      ensures id in old(table) ==>
        && r == Success(TodoItem(id, todo.text, todo.completed, todo.category))
        && table == old(table)[id := Row(todo)]
    {
      if id !in table {
        return Failure(NotFound);
      }
      table := table[id := Row(todo)];
      r := Success(Read(id, table[id]));
    }

    /** `delete_todo`: removes the row `id` and returns it as it was, or
        fails with 404 if there is none. */
    method DeleteTodo(id: int) returns (r: Result<TodoItem>)
      modifies this
      ensures id !in old(table) ==> r == Failure(NotFound) && table == old(table)
      ensures id in old(table) ==>
        && r == Success(Read(id, old(table)[id]))
        && table == old(table) - {id}
    {
      if id !in table {
        return Failure(NotFound);
      }
      var row := table[id];
      table := table - {id};
      r := Success(Read(id, row));
    }

    /** `toggle_todo_completed`: negates the completion flag of the row
        `id` and returns the row, or fails with 404 if there is none. */
    method ToggleTodoCompleted(id: int) returns (r: Result<TodoItem>)
      modifies this
      ensures id !in old(table) ==> r == Failure(NotFound) && table == old(table)
      ensures id in old(table) ==>
        && table == old(table)[id := Toggled(old(table)[id])]
        && r == Success(Read(id, table[id]))
    {
      if id !in table {
        return Failure(NotFound);
      }
      table := table[id := Toggled(table[id])];
      r := Success(Read(id, table[id]));
    }
  }
}

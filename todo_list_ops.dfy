/** The array rewrites the todo list page applies to its list when a
    request succeeds (src/components/TodoList.jsx): `find`, `filter` and
    `map` over the todos, matched by strict equality of ids. */
module TodoListOps {
  import opened Todos

  /** No two todos in the list share an id. */
  predicate UniqueIds(todos: seq<TodoItem>)
  {
    forall i, j :: 0 <= i < j < |todos| ==> todos[i].id != todos[j].id
  }

  predicate HasId(todos: seq<TodoItem>, id: int)
  {
    exists i :: 0 <= i < |todos| && todos[i].id == id
  }

  /** `todos.find(todo => todo.id === id)`, as the index of the first todo
      with that id, or None when there is none. */
  function FindById(todos: seq<TodoItem>, id: int): (r: Option<nat>)
    ensures r.None? <==> !HasId(todos, id)
    ensures r.Some? ==> r.value < |todos| && todos[r.value].id == id
    ensures r.Some? ==> forall j :: 0 <= j < r.value ==> todos[j].id != id
  {
    if todos == [] then None
    else if todos[0].id == id then Some(0)
    else
      match FindById(todos[1..], id)
      case None =>
        assert forall i :: 1 <= i < |todos| ==> todos[i] == todos[1..][i - 1];
        None
      case Some(k) => Some(k + 1)
  }

  /** `todos.filter(todo => todo.id !== id)`: every todo with that id is
      dropped and the others are kept. */
  function RemoveById(todos: seq<TodoItem>, id: int): (r: seq<TodoItem>)
    ensures forall x :: x in r <==> x in todos && x.id != id
    ensures |r| <= |todos|
  {
    if todos == [] then []
    else
      var rest := RemoveById(todos[1..], id);
      assert forall x :: x in todos <==> x == todos[0] || x in todos[1..];
      if todos[0].id != id then [todos[0]] + rest else rest
  }

  /** Filtering distributes over concatenation, so the kept todos stay in
      their original order. */
  lemma {:induction false} RemoveByIdAppend(a: seq<TodoItem>, b: seq<TodoItem>, id: int)
    ensures RemoveById(a + b, id) == RemoveById(a, id) + RemoveById(b, id)
  {
    if a == [] {
      assert a + b == b;
    } else {
      assert (a + b)[1..] == a[1..] + b;
      RemoveByIdAppend(a[1..], b, id);
    }
  }

  /** Removing an id the list does not hold leaves the list as it was. */
  lemma {:induction false} RemoveAbsentId(todos: seq<TodoItem>, id: int)
    requires !HasId(todos, id)
    ensures RemoveById(todos, id) == todos
  {
    if todos != [] {
      assert todos[0].id != id;
      assert !HasId(todos[1..], id) by {
        forall i | 0 <= i < |todos| - 1 ensures todos[1..][i].id != id {
          assert todos[1..][i] == todos[i + 1];
        }
      }
      RemoveAbsentId(todos[1..], id);
      assert todos == [todos[0]] + todos[1..];
    }
  }

  /** In a list with unique ids, removing an id the list holds drops
      exactly that one todo. */
  lemma RemovePresentUniqueId(todos: seq<TodoItem>, k: nat)
    requires UniqueIds(todos) && k < |todos|
    ensures RemoveById(todos, todos[k].id) == todos[..k] + todos[k + 1..]
  {
    var id := todos[k].id;
    assert todos == todos[..k] + ([todos[k]] + todos[k + 1..]);
    RemoveByIdAppend(todos[..k], [todos[k]] + todos[k + 1..], id);
    RemoveByIdAppend([todos[k]], todos[k + 1..], id);
    assert RemoveById([todos[k]], id) == [];
    assert !HasId(todos[..k], id) by {
      forall i | 0 <= i < k ensures todos[..k][i].id != id {
        assert todos[..k][i] == todos[i];
      }
    }
    var tail := todos[k + 1..];
    assert !HasId(tail, id) by {
      forall i | 0 <= i < |tail| ensures tail[i].id != id {
        assert tail[i] == todos[k + 1 + i];
      }
    }
    RemoveAbsentId(todos[..k], id);
    RemoveAbsentId(todos[k + 1..], id);
  }

  /** `todos.map(todo => todo.id === id ? item : todo)`: every todo with
      that id is replaced by `item`, every other todo keeps its place. */
  function ReplaceById(todos: seq<TodoItem>, id: int, item: TodoItem): (r: seq<TodoItem>)
    ensures |r| == |todos|
    ensures forall i :: 0 <= i < |todos| && todos[i].id == id ==> r[i] == item
    ensures forall i :: 0 <= i < |todos| && todos[i].id != id ==> r[i] == todos[i]
  {
    if todos == [] then []
    else [if todos[0].id == id then item else todos[0]] + ReplaceById(todos[1..], id, item)
  }

  /** The list after the page's edit of todo `id` to `newText`: the first
      todo with that id gets the new text in place; when the update request
      succeeds, every todo with that id is then replaced by that edited todo. */
  function Edited(todos: seq<TodoItem>, id: int, newText: string, succeeded: bool): (r: seq<TodoItem>)
    ensures |r| == |todos|
    ensures !HasId(todos, id) ==> r == todos
    ensures forall i :: 0 <= i < |todos| && todos[i].id != id ==> r[i] == todos[i]
    ensures forall k :: FindById(todos, id) == Some(k) ==> r[k] == todos[k].(text := newText)
  {
    match FindById(todos, id)
    case None => todos
    case Some(k) =>
      var edited := todos[k].(text := newText);
      if succeeded then ReplaceById(todos, id, edited) else todos[k := edited]
  }

  /** Only the text of an edited todo changes: ids, completion flags and
      categories stay as they were, whether or not the request succeeded. */
  lemma EditedKeepsAllButText(todos: seq<TodoItem>, id: int, newText: string, succeeded: bool)
    requires UniqueIds(todos)
    ensures var r := Edited(todos, id, newText, succeeded);
      forall i :: 0 <= i < |todos| ==>
        && r[i].id == todos[i].id
        && r[i].completed == todos[i].completed
        && r[i].category == todos[i].category
  {
    EditedIgnoresOutcome(todos, id, newText);
  }

  /** With unique ids, the outcome of the update request does not matter:
      the text change made in place before the request is the whole effect. */
  lemma EditedIgnoresOutcome(todos: seq<TodoItem>, id: int, newText: string)
    requires UniqueIds(todos)
    ensures Edited(todos, id, newText, true) == Edited(todos, id, newText, false)
    ensures forall k :: FindById(todos, id) == Some(k) ==>
      Edited(todos, id, newText, true) == todos[k := todos[k].(text := newText)]
  {
    match FindById(todos, id)
    case None =>
    case Some(k) =>
      var edited := todos[k].(text := newText);
      var r := ReplaceById(todos, id, edited);
      assert forall i :: 0 <= i < |todos| && i != k ==> todos[i].id != id;
      assert r == todos[k := edited];
  }
}

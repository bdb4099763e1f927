/**
 * The todo client's component state and its event handlers. Every remote call
 * is replaced by its reply, given as a parameter, and every handler returns the
 * call it issues, so that "no call" and "which call" are part of its contract.
 */
module App {
  import opened Wrappers
  import opened Text
  import opened Todos
  import opened TodoList
  import opened Reorder

  /** A call to the `todos` table, other than the position updates of a reorder. */
  datatype Request =
    | Insert(text: string, position: int, userId: string, delegate: Delegate)
    | UpdateCompleted(id: string, completed: bool)
    | UpdateDelegate(id: string, delegate: Delegate)
    | Delete(id: string)

  /** The reply to an insert: an error, or the stored row's server-assigned fields. */
  datatype InsertReply = InsertFailed | Inserted(id: string, createdAt: string, completed: bool)

  /** The reply to the load of the user's rows, already ordered by position. */
  datatype FetchReply = FetchFailed | Fetched(rows: seq<Row>)

  /** The state of the component: the list, the text of the input box and the user. */
  class TodoApp {
    var todos: seq<Todo>
    var newTodo: string
    var user: Option<User>

    /** Ids, the table's key, are unique in the list, and delegates are canonical. */
    ghost predicate Valid()
      reads this
    {
      UniqueIds(todos) && CanonicalDelegates(todos)
    }

    /** The initial state: no todos, an empty input, nobody signed in. */
    constructor ()
      ensures Valid() && todos == [] && newTodo == "" && user == None
    {
      todos := [];
      newTodo := "";
      user := None;
    }

    /** Typing into the input box. */
    method SetNewTodo(text: string)
      requires Valid()
      modifies this
      ensures Valid() && newTodo == text && todos == old(todos) && user == old(user)
    {
      newTodo := text;
    }

    /** A change of session; once nobody is signed in the list is emptied. A
        signed-in user is followed by `FetchTodos`. */
    method SetUser(u: Option<User>)
      requires Valid()
      modifies this
      ensures Valid() && user == u && newTodo == old(newTodo)
      ensures todos == if u.None? then [] else old(todos)
    {
      user := u;
      if u.None? {
        todos := [];
      }
    }

    /** Loading the user's rows: without a user or on an error nothing changes;
        otherwise the list becomes the normalised rows. */
    method FetchTodos(reply: FetchReply)
      requires Valid()
      requires reply.Fetched? ==> UniqueRowIds(reply.rows)
      modifies this
      ensures Valid() && user == old(user) && newTodo == old(newTodo)
      ensures todos == if user.Some? && reply.Fetched? then NormalizeAll(reply.rows) else old(todos)
    {
      if user.None? {
        return;
      }
      if reply.FetchFailed? {
        return;
      }
      NormalizeAllValid(reply.rows);
      todos := NormalizeAll(reply.rows);
    }

    /** Submitting the input: a blank input or no user does nothing; otherwise
        the trimmed text is inserted at position `|todos|` with delegate "T", and
        only when the insert succeeds is the stored todo appended and the input
        cleared. */
    method AddTodo(reply: InsertReply) returns (sent: Option<Request>)
      requires Valid()
      requires reply.Inserted? ==> reply.id !in Ids(todos)
      modifies this
      ensures Valid() && user == old(user)
      ensures Trim(old(newTodo)) == [] || old(user).None? ==>
        sent == None && todos == old(todos) && newTodo == old(newTodo)
      ensures Trim(old(newTodo)) != [] && old(user).Some? ==>
        sent == Some(Insert(Trim(old(newTodo)), |old(todos)|, old(user).value.id, T))
        && (reply.Inserted? ==>
              todos == old(todos) + [Todo(reply.id, Trim(old(newTodo)), reply.completed,
                                          reply.createdAt, |old(todos)|, old(user).value.id, T)]
              && newTodo == "")
        && (reply.InsertFailed? ==> todos == old(todos) && newTodo == old(newTodo))
      ensures Dense(old(todos)) ==> Dense(todos)
    {
      var text := Trim(newTodo);
      if text == [] || user.None? {
        sent := None;
        return;
      }
      var position := |todos|;
      sent := Some(Insert(text, position, user.value.id, T));
      if reply.InsertFailed? {
        return;
      }
      var created := Todo(reply.id, text, reply.completed, reply.createdAt, position, user.value.id, T);
      forall i | 0 <= i < |todos|
        ensures todos[i].id != created.id
      {
        assert todos[i] in todos;
      }
      todos := todos + [created];
      newTodo := "";
    }

    /** Toggling completion: an id not in the list issues nothing; otherwise the
        negated flag is sent, and only on success is the list updated. */
    method ToggleTodo(id: string, ok: bool) returns (sent: Option<Request>)
      requires Valid()
      modifies this
      ensures Valid() && user == old(user) && newTodo == old(newTodo)
      ensures Find(old(todos), id).None? ==> sent == None && todos == old(todos)
      ensures Find(old(todos), id).Some? ==>
        sent == Some(UpdateCompleted(id, !Find(old(todos), id).value.completed))
        && todos == if ok then CompletionToggled(old(todos), id) else old(todos)
    {
      var todo := Find(todos, id);
      if todo.None? {
        sent := None;
        return;
      }
      sent := Some(UpdateCompleted(id, !todo.value.completed));
      if !ok {
        return;
      }
      todos := CompletionToggled(todos, id);
    }

    /** Toggling the delegate: an id not in the list issues nothing; otherwise the
        next tag is sent, and only on success is the list updated. */
    method ToggleDelegate(id: string, ok: bool) returns (sent: Option<Request>)
      requires Valid()
      modifies this
      ensures Valid() && user == old(user) && newTodo == old(newTodo)
      ensures Find(old(todos), id).None? ==> sent == None && todos == old(todos)
      ensures Find(old(todos), id).Some? ==>
        sent == Some(UpdateDelegate(id, NextDelegate(Find(old(todos), id).value.delegate)))
        && todos == if ok then DelegateToggled(old(todos), id) else old(todos)
    {
      var todo := Find(todos, id);
      if todo.None? {
        sent := None;
        return;
      }
      var newDelegate := NextDelegate(todo.value.delegate);
      sent := Some(UpdateDelegate(id, newDelegate));
      if !ok {
        return;
      }
      todos := SetDelegate(todos, id, newDelegate);
    }

    /** Deleting: the delete is always sent, and only on success is every todo
        with that id dropped from the list. */
    method DeleteTodo(id: string, ok: bool) returns (sent: Option<Request>)
      requires Valid()
      modifies this
      ensures Valid() && user == old(user) && newTodo == old(newTodo)
      ensures sent == Some(Delete(id))
      ensures todos == if ok then RemoveId(old(todos), id) else old(todos)
    {
      sent := Some(Delete(id));
      if !ok {
        return;
      }
      RemoveIdKeepsUnique(todos, id);
      todos := RemoveId(todos, id);
    }

    /** The end of a drag of `active` over `over`: with a drop target other than
        the dragged todo, the list is replaced by the moved list at once, with no
        reply awaited, and one position update per todo is issued; otherwise
        nothing happens. */
    method HandleDragEnd(active: string, over: Option<string>) returns (updates: seq<PositionUpdate>)
      requires Valid()
      requires active in Ids(todos) && (over.Some? ==> over.value in Ids(todos))
      modifies this
      ensures Valid() && user == old(user) && newTodo == old(newTodo)
      ensures todos == DragEnd(old(todos), active, over)
      ensures over.Some? && over.value != active ==> Issued(todos, updates)
      ensures over.None? || over.value == active ==> updates == []
    {
      if over.None? || active == over.value {
        updates := [];
        return;
      }
      var oldIndex := FindIndex(todos, active);
      var newIndex := FindIndex(todos, over.value);
      var newItems := ArrayMove(todos, oldIndex, newIndex);
      ArrayMoveUnique(todos, oldIndex, newIndex);
      updates := IssuePositionUpdates(newItems);
      todos := newItems;
    }
  }

  /** A sign-out always ends with an empty list, whatever the list held. */
  method SignOutClears(app: TodoApp)
    requires app.Valid()
    modifies app
    ensures app.todos == []
  {
    app.SetUser(None);
  }

  /** Submitting an input of whitespace only, of any length, sends nothing,
      creates nothing and keeps the input. */
  method BlankAddDoesNothing(app: TodoApp, text: string, reply: InsertReply) returns (sent: Option<Request>)
    requires app.Valid() && IsBlank(text)
    requires reply.Inserted? ==> reply.id !in Ids(app.todos)
    modifies app
    ensures sent == None && app.todos == old(app.todos) && app.newTodo == text
  {
    app.SetNewTodo(text);
    TrimEmptyIffBlank(text);
    sent := app.AddTodo(reply);
  }

  /** Dragging A onto C in [A, B, C, D] gives [B, C, A, D]. */
  lemma DragExample(s: seq<Todo>)
    requires |s| == 4 && UniqueIds(s)
    ensures DragEnd(s, s[0].id, Some(s[2].id)) == [s[1], s[2], s[0], s[3]]
  {
    FindUnique(s, 0);
    FindUnique(s, 2);
    var r := DragEnd(s, s[0].id, Some(s[2].id));
    assert RemoveAt(r, 2) == RemoveAt(s, 0);
    assert r[0] == RemoveAt(r, 2)[0] == s[1];
    assert r[1] == RemoveAt(r, 2)[1] == s[2];
    assert r[3] == RemoveAt(r, 2)[2] == s[3];
    assert r == [r[0], r[1], r[2], r[3]];
  }

  /** The updates issued for [B, C, A, D] are B:0, C:1, A:2 and D:3. */
  lemma DragExampleUpdates(s: seq<Todo>, updates: seq<PositionUpdate>)
    requires |s| == 4 && Issued([s[1], s[2], s[0], s[3]], updates)
    ensures updates == [PositionUpdate(s[1].id, 0), PositionUpdate(s[2].id, 1),
                        PositionUpdate(s[0].id, 2), PositionUpdate(s[3].id, 3)]
  {
    var items := [s[1], s[2], s[0], s[3]];
    assert updates[0] == PositionUpdate(items[0].id, 0);
    assert updates[1] == PositionUpdate(items[1].id, 1);
    assert updates[2] == PositionUpdate(items[2].id, 2);
    assert updates[3] == PositionUpdate(items[3].id, 3);
  }

  /** Positions are never repaired locally: deleting the first of a dense list of
      three and then adding gives the new todo the position the last survivor
      already holds. */
  lemma DeleteThenAddRepeatsPosition(s: seq<Todo>)
    requires |s| == 3 && UniqueIds(s) && Dense(s)
    ensures RemoveId(s, s[0].id) == [s[1], s[2]]
    ensures !Dense(RemoveId(s, s[0].id))
    ensures RemoveId(s, s[0].id)[1].position == |RemoveId(s, s[0].id)|
  {
    RemoveIdUnique(s, 0);
    assert RemoveAt(s, 0) == [s[1], s[2]];
  }
}

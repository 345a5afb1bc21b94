/** The state of the todo application and the event handlers that change it
    (src/App.tsx): the list of items, the id counter and the display mode.
    Each handler replaces the list by one of the updates of module TodoList,
    except toggleTodo, which updates the matching items one by one. */
module TodoStore {
  import opened Strings
  import opened Sequences
  import opened TodoList

  datatype Option<T> = None | Some(value: T)

  class Store {
    /** The items, in insertion order. */
    var todos: seq<Todo>
    /** The next id to hand out. */
    var counter: nat
    /** The selected display mode. */
    var showMode: Mode

    /** Ids increase along the list and stay below the counter, titles are
        trimmed and non-empty, and the mode is one a hash can select. */
    ghost predicate Valid()
      reads this
    {
      WellFormed(todos, counter) && ValidMode(showMode)
    }

    /** An empty list, the counter at 0 and the "all" mode. */
    constructor ()
      ensures Valid()
      ensures todos == [] && counter == 0 && showMode == All
    {
      todos := [];
      counter := 0;
      showMode := All;
    }

    /** The number of items left to do. */
    function Remaining(): (n: int)
      reads this
      ensures n == |Filter(todos, IsActive)| && 0 <= n <= |todos|
    {
      RemainingCount(todos)
    }

    /** The items shown in the selected mode, in list order: in "active"
        the items clearCompleted would keep, as many as remain; in
        "completed" exactly the completed items; in any other mode the whole
        list. */
    function Visible(): (v: seq<Todo>)
      reads this
      ensures IsSubsequence(v, todos)
      ensures showMode == Active ==> v == TodoList.ClearCompleted(todos) && |v| == Remaining()
      ensures showMode == Completed ==>
        (forall t :: t in v <==> t in todos && t.completed) && |v| == |todos| - Remaining()
      ensures !showMode.Active? && !showMode.Completed? ==> v == todos
    {
      FilterTodosSpec(todos, showMode);
      ViewCounts(todos);
      FilterTodos(todos, showMode)
    }

    /** addTodo: on a key press with code `code` in an input whose value is
        `value`, appends an active item with the trimmed text and the
        counter's id when the key is Enter and the trimmed text is not empty,
        and then advances the counter; does nothing otherwise. */
    method AddTodo(code: string, value: Option<string>) returns (added: bool)
      requires Valid()
      modifies this
      ensures Valid()
      ensures added <==> code == "Enter" && value.Some? && Trim(value.value) != []
      ensures added ==> todos == old(todos) + [Todo(old(counter), Trim(value.value), false)]
      ensures added ==> counter == old(counter) + 1
      ensures added ==> RemainingCount(todos) == RemainingCount(old(todos)) + 1
      ensures !added ==> todos == old(todos) && counter == old(counter)
      ensures showMode == old(showMode)
    {
      var title := if value.Some? then Some(Trim(value.value)) else None;
      added := code == "Enter" && title.Some? && title.value != [];
      if added {
        AppendWellFormed(todos, counter, title.value);
        RemainingAfterAppend(todos, Todo(counter, title.value, false));
        todos := todos + [Todo(counter, title.value, false)];
        counter := counter + 1;
      }
    }

    /** toggleTodo: flips the completed flag of every item whose id is `id`,
        visiting the items in order and updating each match in place. */
    method ToggleTodo(id: int)
      requires Valid()
      modifies this
      ensures Valid()
      ensures todos == Toggled(old(todos), id)
      ensures counter == old(counter) && showMode == old(showMode)
    {
      var i := 0;
      while i < |todos|
        invariant 0 <= i <= |todos| == |old(todos)|
        invariant forall k :: 0 <= k < i ==> todos[k] == Toggled(old(todos), id)[k]
        invariant forall k :: i <= k < |todos| ==> todos[k] == old(todos)[k]
        invariant counter == old(counter) && showMode == old(showMode)
      {
        if todos[i].id == id {
          todos := todos[i := todos[i].(completed := !todos[i].completed)];
        }
        i := i + 1;
      }
      SameExceptCompletedWellFormed(todos, old(todos), counter);
    }

    /** remove: deletes the items whose id is `id`. */
    method Remove(id: int)
      requires Valid()
      modifies this
      ensures Valid()
      ensures todos == RemoveById(old(todos), id)
      ensures counter == old(counter) && showMode == old(showMode)
    {
      RemoveIsSubsequence(todos, id);
      SubsequenceWellFormed(RemoveById(todos, id), todos, counter);
      todos := RemoveById(todos, id);
    }

    /** toggleAll: sets every item's completed flag to `checked`, the state
        of the toggle-all checkbox. */
    method ToggleAll(checked: bool)
      requires Valid()
      modifies this
      ensures Valid()
      ensures todos == SetAllCompleted(old(todos), checked)
      ensures Remaining() == if checked then 0 else |todos|
      ensures counter == old(counter) && showMode == old(showMode)
    {
      RemainingAfterSetAll(todos, checked);
      SameExceptCompletedWellFormed(SetAllCompleted(todos, checked), todos, counter);
      todos := SetAllCompleted(todos, checked);
    }

    /** clearCompleted: deletes the completed items. */
    method ClearCompleted()
      requires Valid()
      modifies this
      ensures Valid()
      ensures todos == TodoList.ClearCompleted(old(todos))
      ensures |todos| == RemainingCount(old(todos))
      ensures counter == old(counter) && showMode == old(showMode)
    {
      ClearCompletedProperties(todos);
      SubsequenceWellFormed(TodoList.ClearCompleted(todos), todos, counter);
      todos := TodoList.ClearCompleted(todos);
    }

    /** locationHandler: selects the mode named by the location hash
        `hash`. */
    method LocationHandler(hash: string)
      requires Valid()
      modifies this
      ensures Valid()
      ensures showMode == HashToMode(hash)
      ensures todos == old(todos) && counter == old(counter)
    {
      showMode := HashToMode(hash);
    }
  }

  /** Sessions at the user interface: what the contracts above let a caller
      conclude about a sequence of events. Only Enter with some non-blank
      text adds an item. */
  method SessionAdd()
  {
    var store := new Store();
    assert IsTrimmed("Buy milk") by {
      assert !IsWhiteSpace('B') && !IsWhiteSpace('k');
    }
    TrimFixesTrimmed("Buy milk");
    var added := store.AddTodo("Enter", Some("Buy milk"));
    assert store.todos == [Todo(0, "Buy milk", false)];
    added := store.AddTodo("KeyA", Some("Buy milk"));
    assert !added && store.counter == 1;
    added := store.AddTodo("Enter", None);
    assert !added && store.counter == 1;
  }

  /** White space alone is not added. */
  method SessionBlank()
  {
    var store := new Store();
    TrimEmptyIffBlank(" \t ");
    var added := store.AddTodo("Enter", Some(" \t "));
    assert !added && store.todos == [] && store.counter == 0;
  }

  /** Toggling an item twice restores the list; toggling all items sets the
      remaining count to 0 or to the length. */
  method SessionToggle(store: Store, id: int)
    requires store.Valid()
    modifies store
  {
    var before := store.todos;
    store.ToggleTodo(id);
    store.ToggleTodo(id);
    ToggleTwice(before, id);
    assert store.todos == before;
    store.ToggleAll(true);
    assert store.Remaining() == 0;
    store.ToggleAll(false);
    assert store.Remaining() == |before|;
  }

  /** The "active" view is as long as the remaining count; after clearing,
      the list is what the "active" view showed, and "#/" shows it all. */
  method SessionFilterAndClear(store: Store)
    requires store.Valid()
    modifies store
  {
    var before := store.todos;
    store.LocationHandler("#/active");
    FilterLinksSelectModes();
    ViewCounts(before);
    var shown := store.Visible();
    assert |shown| == RemainingCount(before);
    store.ClearCompleted();
    ClearCompletedProperties(before);
    assert store.todos == shown;
    store.LocationHandler("#/");
    assert store.Visible() == store.todos;
  }
}

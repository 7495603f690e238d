/** The front end's todo list for the desktop on screen: the list
    transforms behind each action, and the store whose fields the actions
    overwrite. Saves are debounced: each action replaces the pending save,
    which a timer later sends to the back end. */
module Todos {
  import opened Common

  // ── List transforms ──────────────────────────────────────────

  /** The list with a new, not-done item at the end. */
  function Appended(todos: seq<TodoItem>, id: string, text: string): (r: seq<TodoItem>)
    ensures |r| == |todos| + 1 && r[..|todos|] == todos
    ensures r[|todos|] == TodoItem(id, text, false)
  {
    todos + [TodoItem(id, text, false)]
  }

  /** The first item with the given id (`Array.prototype.find`). */
  function Find(todos: seq<TodoItem>, id: string): (r: Option<TodoItem>)
    ensures r.Some? ==> exists i :: (0 <= i < |todos| && todos[i] == r.value &&
      r.value.id == id && forall j :: 0 <= j < i ==> todos[j].id != id)
    ensures r.None? <==> forall i :: 0 <= i < |todos| ==> todos[i].id != id
  {
    if todos == [] then None
    else if todos[0].id == id then Some(todos[0])
    else
      var rest := Find(todos[1..], id);
      assert forall i :: 1 <= i < |todos| ==> todos[1..][i - 1] == todos[i];
      rest
  }

  /** The items whose id differs from `id`, in their order. */
  function WithoutId(todos: seq<TodoItem>, id: string): (r: seq<TodoItem>)
    ensures |r| <= |todos|
    ensures forall t :: t in r <==> t in todos && t.id != id
  {
    if todos == [] then []
    else
      var last := todos[|todos| - 1];
      var init := WithoutId(todos[..|todos| - 1], id);
      assert todos == todos[..|todos| - 1] + [last];
      init + (if last.id != id then [last] else [])
  }

  /** Filtering distributes over concatenation: the relative order of the
      items kept is the order they had. */
  lemma {:induction false} WithoutIdAppend(a: seq<TodoItem>, b: seq<TodoItem>, id: string)
    ensures WithoutId(a + b, id) == WithoutId(a, id) + WithoutId(b, id)
    decreases |b|
  {
    if b == [] {
      assert a + b == a;
    } else {
      assert (a + b)[..|a + b| - 1] == a + b[..|b| - 1];
      WithoutIdAppend(a, b[..|b| - 1], id);
    }
  }

  /** A list without the id loses nothing to the filter. */
  lemma {:induction false} WithoutAbsentId(todos: seq<TodoItem>, id: string)
    requires forall i :: 0 <= i < |todos| ==> todos[i].id != id
    ensures WithoutId(todos, id) == todos
    decreases |todos|
  {
    if todos != [] {
      var n := |todos| - 1;
      var init := todos[..n];
      forall i | 0 <= i < |init|
        ensures init[i].id != id
      {
        assert init[i] == todos[i];
      }
      WithoutAbsentId(init, id);
      assert todos == init + [todos[n]];
      calc {
        WithoutId(todos, id);
        WithoutId(init, id) + [todos[n]];
        init + [todos[n]];
      }
    }
  }

  /** Filtering twice is filtering once. */
  lemma WithoutIdIdempotent(todos: seq<TodoItem>, id: string)
    ensures WithoutId(WithoutId(todos, id), id) == WithoutId(todos, id)
  {
    var r := WithoutId(todos, id);
    forall i | 0 <= i < |r|
      ensures r[i].id != id
    {
      assert r[i] in r;
    }
    WithoutAbsentId(r, id);
  }

  /** The list with the text of every item carrying `id` replaced. */
  function Retexted(todos: seq<TodoItem>, id: string, text: string): (r: seq<TodoItem>)
    ensures |r| == |todos|
    ensures forall i :: 0 <= i < |r| ==> r[i].id == todos[i].id && r[i].done == todos[i].done
    ensures forall i :: 0 <= i < |r| ==> r[i].text == if todos[i].id == id then text else todos[i].text
  {
    seq(|todos|, i requires 0 <= i < |todos| => if todos[i].id == id then todos[i].(text := text) else todos[i])
  }

  /** Setting a text twice is setting it once, and a list without the id
      is left as it is. */
  lemma RetextedProperties(todos: seq<TodoItem>, id: string, text: string)
    ensures Retexted(Retexted(todos, id, text), id, text) == Retexted(todos, id, text)
    ensures (forall i :: 0 <= i < |todos| ==> todos[i].id != id) ==> Retexted(todos, id, text) == todos
  {
  }

  /** The items already done, in their order. */
  function DoneItems(todos: seq<TodoItem>): (r: seq<TodoItem>)
    ensures forall t :: t in r <==> t in todos && t.done
  {
    if todos == [] then []
    else
      var last := todos[|todos| - 1];
      assert todos == todos[..|todos| - 1] + [last];
      DoneItems(todos[..|todos| - 1]) + (if last.done then [last] else [])
  }

  /** The items not yet done, in their order. */
  function ActiveItems(todos: seq<TodoItem>): (r: seq<TodoItem>)
    ensures forall t :: t in r <==> t in todos && !t.done
  {
    if todos == [] then []
    else
      var last := todos[|todos| - 1];
      assert todos == todos[..|todos| - 1] + [last];
      ActiveItems(todos[..|todos| - 1]) + (if !last.done then [last] else [])
  }

  /** Every item is either active or done. */
  lemma {:induction false} ActiveAndDoneSplit(todos: seq<TodoItem>)
    ensures multiset(ActiveItems(todos)) + multiset(DoneItems(todos)) == multiset(todos)
    decreases |todos|
  {
    if todos != [] {
      var init := todos[..|todos| - 1];
      ActiveAndDoneSplit(init);
      assert todos == init + [todos[|todos| - 1]];
    }
  }

  /** The new order the list view hands over, followed by the items that
      are done, which it does not show. */
  function Reordered(reordered: seq<TodoItem>, todos: seq<TodoItem>): (r: seq<TodoItem>)
    ensures |r| == |reordered| + |DoneItems(todos)|
    ensures r[..|reordered|] == reordered && r[|reordered|..] == DoneItems(todos)
  {
    reordered + DoneItems(todos)
  }

  /** A reordering of the active items gives a permutation of the list. */
  lemma ReorderIsPermutation(reordered: seq<TodoItem>, todos: seq<TodoItem>)
    requires multiset(reordered) == multiset(ActiveItems(todos))
    ensures multiset(Reordered(reordered, todos)) == multiset(todos)
  {
    ActiveAndDoneSplit(todos);
  }

  // ── The store ────────────────────────────────────────────────

  /** A request sent to the back end. */
  datatype Request =
    | SaveTodos(desktop: int, todos: seq<TodoItem>)
    | SaveTitle(desktop: int, title: string)
    | AddCompleted(text: string, desktop: int)

  /** The zustand store: the list, its title and the text in the input
      box; a pending debounced save of the list and of the title, each
      replaced by the next action; and the requests sent so far. */
  class TodoStore {
    var todos: seq<TodoItem>
    var title: string
    var newText: string
    var pendingTodos: Option<Request>
    var pendingTitle: Option<Request>
    var sent: seq<Request>

    constructor ()
      ensures todos == [] && title == "" && newText == ""
      ensures pendingTodos == None && pendingTitle == None && sent == []
    {
      todos := [];
      title := "";
      newText := "";
      pendingTodos := None;
      pendingTitle := None;
      sent := [];
    }

    method SetTodos(items: seq<TodoItem>)
      modifies this
      ensures todos == items
      ensures title == old(title) && newText == old(newText)
      ensures pendingTodos == old(pendingTodos) && pendingTitle == old(pendingTitle) && sent == old(sent)
    {
      todos := items;
    }

    method SetTitle(value: string)
      modifies this
      ensures title == value
      ensures todos == old(todos) && newText == old(newText)
      ensures pendingTodos == old(pendingTodos) && pendingTitle == old(pendingTitle) && sent == old(sent)
    {
      title := value;
    }

    method SetNewText(text: string)
      modifies this
      ensures newText == text
      ensures todos == old(todos) && title == old(title)
      ensures pendingTodos == old(pendingTodos) && pendingTitle == old(pendingTitle) && sent == old(sent)
    {
      newText := text;
    }

    /** Replaces the list and schedules its save, cancelling the one pending. */
    method Commit(updated: seq<TodoItem>, desktop: int)
      modifies this
      ensures todos == updated && pendingTodos == Some(SaveTodos(desktop, updated))
      ensures title == old(title) && newText == old(newText)
      ensures pendingTitle == old(pendingTitle) && sent == old(sent)
    {
      todos := updated;
      pendingTodos := Some(SaveTodos(desktop, updated));
    }

    /** `addTodo`: a blank input changes nothing; otherwise the trimmed
        text becomes a new item at the end, under the fresh id the caller
        supplies, and the input box is cleared. */
    method AddTodo(desktop: int, freshId: string)
      modifies this
      ensures Trim(old(newText)) == [] ==>
        todos == old(todos) && newText == old(newText) && pendingTodos == old(pendingTodos)
      ensures Trim(old(newText)) != [] ==>
        todos == Appended(old(todos), freshId, Trim(old(newText))) && newText == "" &&
        pendingTodos == Some(SaveTodos(desktop, todos))
      ensures title == old(title) && pendingTitle == old(pendingTitle) && sent == old(sent)
    {
      var text := Trim(newText);
      if text == [] {
        return;
      }
      var updated := Appended(todos, freshId, text);
      Commit(updated, desktop);
      newText := "";
    }

    /** `toggleDone`: an absent id changes nothing; otherwise the item is
        removed from the list (not flagged done) and its text is archived
        as completed. */
    method ToggleDone(id: string, desktop: int)
      modifies this
      ensures Find(old(todos), id).None? ==>
        todos == old(todos) && pendingTodos == old(pendingTodos) && sent == old(sent)
      ensures Find(old(todos), id).Some? ==>
        todos == WithoutId(old(todos), id) && pendingTodos == Some(SaveTodos(desktop, todos)) &&
        sent == old(sent) + [AddCompleted(Find(old(todos), id).value.text, desktop)]
      ensures title == old(title) && newText == old(newText) && pendingTitle == old(pendingTitle)
    {
      var item := Find(todos, id);
      if item.None? {
        return;
      }
      var updated := WithoutId(todos, id);
      todos := updated;
      sent := sent + [AddCompleted(item.value.text, desktop)];
      Commit(updated, desktop);
    }

    /** `updateText`: the text of the items with the id is replaced. */
    method UpdateText(id: string, text: string, desktop: int)
      modifies this
      ensures todos == Retexted(old(todos), id, text) && pendingTodos == Some(SaveTodos(desktop, todos))
      ensures title == old(title) && newText == old(newText)
      ensures pendingTitle == old(pendingTitle) && sent == old(sent)
    {
      Commit(Retexted(todos, id, text), desktop);
    }

    /** `deleteTodo`: the items with the id are dropped. */
    method DeleteTodo(id: string, desktop: int)
      modifies this
      ensures todos == WithoutId(old(todos), id) && pendingTodos == Some(SaveTodos(desktop, todos))
      ensures title == old(title) && newText == old(newText)
      ensures pendingTitle == old(pendingTitle) && sent == old(sent)
    {
      Commit(WithoutId(todos, id), desktop);
    }

    /** `reorderTodos`: the new order of the shown items, then the done ones. */
    method ReorderTodos(reordered: seq<TodoItem>, desktop: int)
      modifies this
      ensures todos == Reordered(reordered, old(todos)) && pendingTodos == Some(SaveTodos(desktop, todos))
      ensures title == old(title) && newText == old(newText)
      ensures pendingTitle == old(pendingTitle) && sent == old(sent)
    {
      Commit(Reordered(reordered, todos), desktop);
    }

    /** `updateTitle`: the title changes at once; its save is debounced
        separately from the list's. */
    method UpdateTitle(value: string, desktop: int)
      modifies this
      ensures title == value && pendingTitle == Some(SaveTitle(desktop, value))
      ensures todos == old(todos) && newText == old(newText)
      ensures pendingTodos == old(pendingTodos) && sent == old(sent)
    {
      title := value;
      pendingTitle := Some(SaveTitle(desktop, value));
    }

    /** The list's debounce timer fires: the pending save is sent. */
    method FireTodosTimer()
      modifies this
      ensures pendingTodos == None
      ensures sent == old(sent) + (if old(pendingTodos).Some? then [old(pendingTodos).value] else [])
      ensures todos == old(todos) && title == old(title) && newText == old(newText)
      ensures pendingTitle == old(pendingTitle)
    {
      if pendingTodos.Some? {
        sent := sent + [pendingTodos.value];
      }
      pendingTodos := None;
    }

    /** The title's debounce timer fires: the pending save is sent. */
    method FireTitleTimer()
      modifies this
      ensures pendingTitle == None
      ensures sent == old(sent) + (if old(pendingTitle).Some? then [old(pendingTitle).value] else [])
      ensures todos == old(todos) && title == old(title) && newText == old(newText)
      ensures pendingTodos == old(pendingTodos)
    {
      if pendingTitle.Some? {
        sent := sent + [pendingTitle.value];
      }
      pendingTitle := None;
    }
  }

  /** Two edits in a row before the timer fires send one save: the list
      as it is after the second. */
  method DebouncedEdits(store: TodoStore, id: string, text: string, other: string, desktop: int)
    modifies store
    ensures store.sent == old(store.sent) + [SaveTodos(desktop, WithoutId(Retexted(old(store.todos), id, text), other))]
  {
    store.UpdateText(id, text, desktop);
    store.DeleteTodo(other, desktop);
    store.FireTodosTimer();
  }

  lemma WithoutIdOfOne(t: TodoItem, id: string)
    requires t.id == id
    ensures WithoutId([t], id) == []
  {
    assert [t][..0] == [];
  }

  /** Completing an item removes every trace of its id and keeps the
      other items in order. */
  lemma ToggleRemovesItem(todos: seq<TodoItem>, id: string, i: nat)
    requires i < |todos| && todos[i].id == id
    ensures Find(todos, id).Some?
    ensures forall t :: t in WithoutId(todos, id) ==> t.id != id
    ensures WithoutId(todos, id) == WithoutId(todos[..i], id) + WithoutId(todos[i + 1..], id)
  {
    var before, after := todos[..i], todos[i + 1..];
    assert todos == (before + [todos[i]]) + after;
    WithoutIdAppend(before + [todos[i]], after, id);
    WithoutIdAppend(before, [todos[i]], id);
    WithoutIdOfOne(todos[i], id);
    calc {
      WithoutId(todos, id);
      WithoutId(before + [todos[i]], id) + WithoutId(after, id);
      (WithoutId(before, id) + []) + WithoutId(after, id);
      { assert WithoutId(before, id) + [] == WithoutId(before, id); }
      WithoutId(before, id) + WithoutId(after, id);
    }
  }
}

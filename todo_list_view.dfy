/** The to-do list panel: it splits the list into pending and completed items for display,
    and its three dialogs trim and check what the user typed before calling back into the
    page. */
module TodoListView {
  import opened Types
  import JsRuntime
  import Todos

  /** The `reduce` over the list that pushes each item onto the pending or the completed
      accumulator: the two accumulators end as the list's pending and completed views,
      each in list order, and together they hold every item. */
  method Partition(todos: seq<Todo>) returns (pending: seq<Todo>, completed: seq<Todo>)
    ensures pending == Todos.Pending(todos)
    ensures completed == Todos.Completed(todos)
    ensures |pending| + |completed| == |todos|
  {
    pending, completed := [], [];
    var i := 0;
    while i < |todos|
      invariant 0 <= i <= |todos|
      invariant pending == Todos.Pending(todos[..i])
      invariant completed == Todos.Completed(todos[..i])
    {
      assert todos[..i + 1][..i] == todos[..i];
      var todo := todos[i];
      if todo.completed {
        completed := completed + [todo];
      } else {
        pending := pending + [todo];
      }
      i := i + 1;
    }
    assert todos[..i] == todos;
    Todos.PartitionSizes(todos);
  }

  /** What the add dialog does on submit: the text passed to `onAddTodo`, if any, and the
      dialog's input text and open flag afterwards. */
  datatype AddOutcome = AddOutcome(added: Option<string>, input: string, open: bool)

  /** `handleAddTodo`: with text left after trimming, add the trimmed text, clear the input
      and close the dialog; otherwise do nothing. */
  function HandleAdd(input: string, open: bool): (o: AddOutcome)
    ensures o.added.Some? <==> JsRuntime.Trim(input) != []
    ensures o.added.Some? ==> o.added.value == JsRuntime.Trim(input) && o.input == [] && !o.open
    ensures o.added.None? ==> o.input == input && o.open == open
  {
    var text := JsRuntime.Trim(input);
    if text != [] then AddOutcome(Some(text), [], false) else AddOutcome(None, input, open)
  }

  /** A task the add dialog creates has non-blank text with no space at either end. */
  lemma AddedTextTrimmed(input: string, open: bool)
    requires HandleAdd(input, open).added.Some?
    ensures var t := HandleAdd(input, open).added.value;
            t != [] && !JsRuntime.IsSpace(t[0]) && !JsRuntime.IsSpace(t[|t| - 1]) && JsRuntime.Trim(t) == t
  {
    JsRuntime.TrimIdempotent(input);
  }

  /** Submitting the add dialog again after it added a task adds nothing more. */
  lemma AddTwiceAddsOnce(input: string, open: bool)
    requires HandleAdd(input, open).added.Some?
    ensures var o := HandleAdd(input, open);
            HandleAdd(o.input, o.open).added == None
  {
  }

  /** What the edit dialog does on save: the `(id, text)` passed to `onEditTodo`, if any, and
      the item still being edited afterwards. */
  datatype EditOutcome = EditOutcome(edited: Option<(string, string)>, editing: Option<Todo>)

  /** `handleEditTodo`: with an item being edited whose text is not blank, save its trimmed
      text under its id and close the dialog; otherwise do nothing. */
  function HandleEdit(editing: Option<Todo>): (o: EditOutcome)
    ensures o.edited.Some? <==> editing.Some? && JsRuntime.Trim(editing.value.text) != []
    ensures o.edited.Some? ==> o.edited.value == (editing.value.id, JsRuntime.Trim(editing.value.text)) && o.editing == None
    ensures o.edited.None? ==> o.editing == editing
  {
    match editing
    case Some(t) =>
      var text := JsRuntime.Trim(t.text);
      if text != [] then EditOutcome(Some((t.id, text)), None) else EditOutcome(None, editing)
    case None => EditOutcome(None, None)
  }

  /** Saving an edit then makes every item with the edited id carry the trimmed text, and
      leaves all other items as they were. */
  lemma EditSaved(todos: seq<Todo>, t: Todo)
    requires JsRuntime.Trim(t.text) != []
    ensures var o := HandleEdit(Some(t));
            var r := Todos.EditTodo(todos, o.edited.value.0, o.edited.value.1);
            forall i :: 0 <= i < |r| ==>
              (todos[i].id == t.id ==> r[i] == todos[i].(text := JsRuntime.Trim(t.text))) &&
              (todos[i].id != t.id ==> r[i] == todos[i])
  {
  }

  /** What the delete confirmation does: the id passed to `onDeleteTodo`, if any, and the
      item still marked for deletion afterwards. */
  datatype DeleteOutcome = DeleteOutcome(deleted: Option<string>, deleting: Option<Todo>)

  /** `handleDeleteTodo`: with an item marked for deletion, delete its id and clear the
      mark; otherwise do nothing. */
  function HandleDelete(deleting: Option<Todo>): (o: DeleteOutcome)
    ensures o.deleted.Some? <==> deleting.Some?
    ensures o.deleted.Some? ==> o.deleted.value == deleting.value.id
    ensures o.deleting == None
  {
    match deleting
    case Some(t) => DeleteOutcome(Some(t.id), None)
    case None => DeleteOutcome(None, None)
  }

  /** Confirming the deletion of an item of a list with distinct ids removes exactly that
      item and keeps the others in order. */
  lemma DeleteConfirmed(todos: seq<Todo>, k: nat)
    requires Todos.UniqueIds(todos) && k < |todos|
    ensures Todos.DeleteTodo(todos, HandleDelete(Some(todos[k])).deleted.value) == todos[..k] + todos[k + 1..]
  {
    Todos.DeleteOne(todos, k);
  }
}

/** The to-do list the page keeps: its add, delete, edit and toggle transformations, and the
    pending/completed views of it. Every operation is a pure function of the list. */
module Todos {
  import opened Types

  /** No two items share an id (ids come from a random-UUID generator). */
  predicate UniqueIds(todos: seq<Todo>) {
    forall i, j :: 0 <= i < j < |todos| ==> todos[i].id != todos[j].id
  }

  predicate HasId(todos: seq<Todo>, id: string) {
    exists i :: 0 <= i < |todos| && todos[i].id == id
  }

  /** The items not yet done, in list order (`todos.filter(t => !t.completed)`). */
  function Pending(todos: seq<Todo>): (p: seq<Todo>)
    ensures |p| <= |todos|
    ensures forall k :: 0 <= k < |p| ==> !p[k].completed
  {
    if todos == [] then []
    else
      var n := |todos| - 1;
      Pending(todos[..n]) + (if todos[n].completed then [] else [todos[n]])
  }

  /** The items done, in list order. */
  function Completed(todos: seq<Todo>): (c: seq<Todo>)
    ensures |c| <= |todos|
    ensures forall k :: 0 <= k < |c| ==> c[k].completed
  {
    if todos == [] then []
    else
      var n := |todos| - 1;
      Completed(todos[..n]) + (if todos[n].completed then [todos[n]] else [])
  }

  /** The pending view holds exactly the items not done, the completed view exactly those done. */
  lemma {:induction false} PartitionMembers(todos: seq<Todo>)
    ensures forall t :: t in Pending(todos) <==> t in todos && !t.completed
    ensures forall t :: t in Completed(todos) <==> t in todos && t.completed
  {
    if todos != [] {
      var n := |todos| - 1;
      PartitionMembers(todos[..n]);
      assert todos == todos[..n] + [todos[n]];
    }
  }

  /** Every item is in exactly one of the two views. */
  lemma {:induction false} PartitionSizes(todos: seq<Todo>)
    ensures |Pending(todos)| + |Completed(todos)| == |todos|
  {
    if todos != [] {
      PartitionSizes(todos[..|todos| - 1]);
    }
  }

  /** Both views distribute over concatenation, so each keeps the list's relative order. */
  lemma {:induction false} PartitionAppend(a: seq<Todo>, b: seq<Todo>)
    ensures Pending(a + b) == Pending(a) + Pending(b)
    ensures Completed(a + b) == Completed(a) + Completed(b)
  {
    if b == [] {
      assert a + b == a;
    } else {
      var n := |b| - 1;
      var x := b[n];
      PartitionAppend(a, b[..n]);
      assert (a + b)[..|a + b| - 1] == a + b[..n];
      assert (a + b)[|a + b| - 1] == x;
      var p := if x.completed then [] else [x];
      var c := if x.completed then [x] else [];
      calc {
        Pending(a + b);
        Pending(a + b[..n]) + p;
        (Pending(a) + Pending(b[..n])) + p;
        Pending(a) + (Pending(b[..n]) + p);
      }
      calc {
        Completed(a + b);
        Completed(a + b[..n]) + c;
        (Completed(a) + Completed(b[..n])) + c;
        Completed(a) + (Completed(b[..n]) + c);
      }
    }
  }

  /** `addTodo`: a new, not yet done item goes at the end. */
  function AddTodo(todos: seq<Todo>, id: string, text: string): (r: seq<Todo>)
    ensures |r| == |todos| + 1
    ensures r[..|todos|] == todos
    ensures r[|todos|] == Todo(id, text, false)
  {
    todos + [Todo(id, text, false)]
  }

  /** A new item joins the end of the pending view; the completed view is unchanged. */
  lemma AddTodoViews(todos: seq<Todo>, id: string, text: string)
    ensures Pending(AddTodo(todos, id, text)) == Pending(todos) + [Todo(id, text, false)]
    ensures Completed(AddTodo(todos, id, text)) == Completed(todos)
  {
    PartitionAppend(todos, [Todo(id, text, false)]);
  }

  /** Adding under a fresh id keeps ids unique. */
  lemma AddTodoKeepsIdsUnique(todos: seq<Todo>, id: string, text: string)
    requires UniqueIds(todos) && !HasId(todos, id)
    ensures UniqueIds(AddTodo(todos, id, text))
  {
    var r := AddTodo(todos, id, text);
    forall i, j | 0 <= i < j < |r| ensures r[i].id != r[j].id {
      if j == |todos| {
        assert r[i] == todos[i];
      } else {
        assert r[i] == todos[i] && r[j] == todos[j];
      }
    }
  }

  /** `deleteTodo`: the list without the items carrying `id`. */
  function DeleteTodo(todos: seq<Todo>, id: string): (r: seq<Todo>)
    ensures |r| <= |todos|
    ensures forall k :: 0 <= k < |r| ==> r[k].id != id
  {
    if todos == [] then []
    else
      var n := |todos| - 1;
      DeleteTodo(todos[..n], id) + (if todos[n].id == id then [] else [todos[n]])
  }

  /** What survives a delete is exactly the items not carrying `id`. */
  lemma {:induction false} DeleteMembers(todos: seq<Todo>, id: string)
    ensures forall t :: t in DeleteTodo(todos, id) <==> t in todos && t.id != id
  {
    if todos != [] {
      var n := |todos| - 1;
      DeleteMembers(todos[..n], id);
      assert todos == todos[..n] + [todos[n]];
    }
  }

  /** Deleting distributes over concatenation: the survivors keep their order. */
  lemma {:induction false} DeleteAppend(a: seq<Todo>, b: seq<Todo>, id: string)
    ensures DeleteTodo(a + b, id) == DeleteTodo(a, id) + DeleteTodo(b, id)
  {
    if b == [] {
      assert a + b == a;
    } else {
      var n := |b| - 1;
      var x := b[n];
      DeleteAppend(a, b[..n], id);
      assert (a + b)[..|a + b| - 1] == a + b[..n];
      assert (a + b)[|a + b| - 1] == x;
      var kept := if x.id == id then [] else [x];
      calc {
        DeleteTodo(a + b, id);
        DeleteTodo(a + b[..n], id) + kept;
        (DeleteTodo(a, id) + DeleteTodo(b[..n], id)) + kept;
        DeleteTodo(a, id) + (DeleteTodo(b[..n], id) + kept);
      }
    }
  }

  /** Deleting an id nobody carries changes nothing. */
  lemma {:induction false} DeleteAbsent(todos: seq<Todo>, id: string)
    requires !HasId(todos, id)
    ensures DeleteTodo(todos, id) == todos
  {
    if todos != [] {
      var n := |todos| - 1;
      assert !HasId(todos[..n], id) by {
        forall i | 0 <= i < n ensures todos[..n][i].id != id {
          assert todos[..n][i] == todos[i];
        }
      }
      DeleteAbsent(todos[..n], id);
      assert todos == todos[..n] + [todos[n]];
    }
  }

  /** With unique ids, no item before or after position `k` carries the id of item `k`. */
  lemma IdOnlyAt(todos: seq<Todo>, k: nat)
    requires UniqueIds(todos) && k < |todos|
    ensures !HasId(todos[..k], todos[k].id) && !HasId(todos[k + 1..], todos[k].id)
  {
    var id := todos[k].id;
    forall i | 0 <= i < k ensures todos[..k][i].id != id {
      assert todos[..k][i] == todos[i];
    }
    var after := todos[k + 1..];
    forall i | 0 <= i < |after| ensures after[i].id != id {
      assert after[i] == todos[k + 1 + i];
    }
  }

  /** With unique ids, deleting an item's id removes exactly that item. */
  lemma {:induction false} DeleteOne(todos: seq<Todo>, k: nat)
    requires UniqueIds(todos) && k < |todos|
    ensures DeleteTodo(todos, todos[k].id) == todos[..k] + todos[k + 1..]
  {
    assert todos == todos[..k] + [todos[k]] + todos[k + 1..];
    IdOnlyAt(todos, k);
    DeleteAround(todos[..k], todos[k], todos[k + 1..]);
  }

  /** The pending view of a list with unique ids has unique ids. */
  lemma {:induction false} PendingKeepsIdsUnique(todos: seq<Todo>)
    requires UniqueIds(todos)
    ensures UniqueIds(Pending(todos))
  {
    if todos != [] {
      var n := |todos| - 1;
      var prefix := todos[..n];
      assert UniqueIds(prefix) by {
        forall i, j | 0 <= i < j < n ensures prefix[i].id != prefix[j].id {
          assert prefix[i] == todos[i] && prefix[j] == todos[j];
        }
      }
      PendingKeepsIdsUnique(prefix);
      if !todos[n].completed {
        var p := Pending(prefix);
        PartitionMembers(prefix);
        forall i | 0 <= i < |p| ensures p[i].id != todos[n].id {
          assert p[i] in prefix;
          var k :| 0 <= k < n && prefix[k] == p[i];
          assert todos[k] == p[i];
        }
        assert Pending(todos) == p + [todos[n]];
      }
    }
  }

  /** Deleting keeps ids unique. */
  lemma {:induction false} DeleteKeepsIdsUnique(todos: seq<Todo>, id: string)
    requires UniqueIds(todos)
    ensures UniqueIds(DeleteTodo(todos, id))
  {
    if todos != [] {
      var n := |todos| - 1;
      var prefix := todos[..n];
      assert UniqueIds(prefix) by {
        forall i, j | 0 <= i < j < n ensures prefix[i].id != prefix[j].id {
          assert prefix[i] == todos[i] && prefix[j] == todos[j];
        }
      }
      DeleteKeepsIdsUnique(prefix, id);
      if todos[n].id != id {
        var d := DeleteTodo(prefix, id);
        DeleteMembers(prefix, id);
        forall i | 0 <= i < |d| ensures d[i].id != todos[n].id {
          assert d[i] in prefix;
          var k :| 0 <= k < n && prefix[k] == d[i];
          assert todos[k] == d[i];
        }
        assert DeleteTodo(todos, id) == d + [todos[n]];
      }
    }
  }

  /** `editTodo`: items carrying `id` get the new text; nothing else changes. */
  function EditTodo(todos: seq<Todo>, id: string, text: string): (r: seq<Todo>)
    ensures |r| == |todos|
    ensures forall i :: 0 <= i < |todos| ==>
      r[i].id == todos[i].id && r[i].completed == todos[i].completed
      && r[i].text == (if todos[i].id == id then text else todos[i].text)
  {
    seq(|todos|, i requires 0 <= i < |todos| =>
      if todos[i].id == id then todos[i].(text := text) else todos[i])
  }

  /** Editing keeps ids unique, since it never changes an id. */
  lemma EditKeepsIdsUnique(todos: seq<Todo>, id: string, text: string)
    requires UniqueIds(todos)
    ensures UniqueIds(EditTodo(todos, id, text))
  {
  }

  /** The last edit of an item wins. */
  lemma EditTwice(todos: seq<Todo>, id: string, a: string, b: string)
    ensures EditTodo(EditTodo(todos, id, a), id, b) == EditTodo(todos, id, b)
  {
  }

  /** Editing commutes with taking the pending view (an edit never moves an item). */
  lemma {:induction false} EditPending(todos: seq<Todo>, id: string, text: string)
    ensures Pending(EditTodo(todos, id, text)) == EditTodo(Pending(todos), id, text)
  {
    if todos != [] {
      var n := |todos| - 1;
      var e := EditTodo(todos, id, text);
      assert e[..n] == EditTodo(todos[..n], id, text);
      EditPending(todos[..n], id, text);
      var tail := if todos[n].completed then [] else [todos[n]];
      assert EditTodo(Pending(todos[..n]) + tail, id, text)
          == EditTodo(Pending(todos[..n]), id, text) + EditTodo(tail, id, text);
    }
  }

  /** `toggleTodo`: items carrying `id` flip their done flag; nothing else changes. */
  function ToggleTodo(todos: seq<Todo>, id: string): (r: seq<Todo>)
    ensures |r| == |todos|
    ensures forall i :: 0 <= i < |todos| ==>
      r[i].id == todos[i].id && r[i].text == todos[i].text
      && r[i].completed == (if todos[i].id == id then !todos[i].completed else todos[i].completed)
  {
    seq(|todos|, i requires 0 <= i < |todos| =>
      if todos[i].id == id then todos[i].(completed := !todos[i].completed) else todos[i])
  }

  /** Toggling twice restores the list. */
  lemma ToggleTwice(todos: seq<Todo>, id: string)
    ensures ToggleTodo(ToggleTodo(todos, id), id) == todos
  {
  }

  /** Toggling keeps ids unique, since it never changes an id. */
  lemma ToggleKeepsIdsUnique(todos: seq<Todo>, id: string)
    requires UniqueIds(todos)
    ensures UniqueIds(ToggleTodo(todos, id))
  {
  }

  /** Toggling distributes over concatenation. */
  lemma ToggleAppend(a: seq<Todo>, b: seq<Todo>, id: string)
    ensures ToggleTodo(a + b, id) == ToggleTodo(a, id) + ToggleTodo(b, id)
  {
  }

  /** Toggling an id nobody carries changes nothing. */
  lemma ToggleAbsent(todos: seq<Todo>, id: string)
    requires !HasId(todos, id)
    ensures ToggleTodo(todos, id) == todos
  {
  }

  /** An id nobody in the list carries is carried by nobody in its pending view. */
  lemma PendingAbsent(todos: seq<Todo>, id: string)
    requires !HasId(todos, id)
    ensures !HasId(Pending(todos), id)
  {
    var p := Pending(todos);
    PartitionMembers(todos);
    forall i | 0 <= i < |p| ensures p[i].id != id {
      assert p[i] in todos;
    }
  }

  /** With unique ids, toggling the id of item `k` flips that item alone. */
  lemma ToggleAt(todos: seq<Todo>, k: nat)
    requires UniqueIds(todos) && k < |todos|
    ensures ToggleTodo(todos, todos[k].id)
         == todos[..k] + [todos[k].(completed := !todos[k].completed)] + todos[k + 1..]
  {
    var id := todos[k].id;
    var before, after := todos[..k], todos[k + 1..];
    assert todos == (before + [todos[k]]) + after;
    IdOnlyAt(todos, k);
    ToggleAppend(before + [todos[k]], after, id);
    ToggleAppend(before, [todos[k]], id);
    ToggleAbsent(before, id);
    ToggleAbsent(after, id);
  }

  /** The pending view of a list split around one item. */
  lemma {:induction false} PendingAround(before: seq<Todo>, x: Todo, after: seq<Todo>)
    ensures Pending(before + [x] + after) == Pending(before) + (if x.completed then [] else [x]) + Pending(after)
  {
    PartitionAppend(before + [x], after);
    PartitionAppend(before, [x]);
    assert [x][..0] == [];
  }

  /** Deleting the id that only `x` carries from a list split around `x`. */
  lemma {:induction false} DeleteAround(before: seq<Todo>, x: Todo, after: seq<Todo>)
    requires !HasId(before, x.id) && !HasId(after, x.id)
    ensures DeleteTodo(before + [x] + after, x.id) == before + after
  {
    var id := x.id;
    var single := [x];
    assert single[..0] == [];
    assert DeleteTodo(single, id) == [];
    calc {
      DeleteTodo(before + single + after, id);
      { DeleteAppend(before + single, after, id); }
      DeleteTodo(before + single, id) + DeleteTodo(after, id);
      { DeleteAppend(before, single, id); }
      DeleteTodo(before, id) + DeleteTodo(single, id) + DeleteTodo(after, id);
      { DeleteAbsent(before, id); DeleteAbsent(after, id); }
      before + after;
    }
  }

  /** With unique ids, toggling a pending item takes exactly that item out of the pending
      view and leaves the rest of the view in order. */
  lemma {:induction false} TogglePending(todos: seq<Todo>, t: Todo)
    requires UniqueIds(todos) && t in todos && !t.completed
    ensures Pending(ToggleTodo(todos, t.id)) == DeleteTodo(Pending(todos), t.id)
  {
    var k :| 0 <= k < |todos| && todos[k] == t;
    var before, after := todos[..k], todos[k + 1..];
    var done := t.(completed := true);
    IdOnlyAt(todos, k);
    PendingAbsent(before, t.id);
    PendingAbsent(after, t.id);
    calc {
      Pending(ToggleTodo(todos, t.id));
      { ToggleAt(todos, k); }
      Pending(before + [done] + after);
      { PendingAround(before, done, after); }
      Pending(before) + Pending(after);
      { DeleteAround(Pending(before), t, Pending(after)); }
      DeleteTodo(Pending(before) + [t] + Pending(after), t.id);
      { PendingAround(before, t, after); }
      DeleteTodo(Pending(before + [t] + after), t.id);
      { assert todos == before + [t] + after; }
      DeleteTodo(Pending(todos), t.id);
    }
  }

  /** Toggling a pending item puts it, now done, among the completed ones. */
  lemma ToggleCompletes(todos: seq<Todo>, t: Todo)
    requires t in todos && !t.completed
    ensures t.(completed := true) in Completed(ToggleTodo(todos, t.id))
  {
    var j :| 0 <= j < |todos| && todos[j] == t;
    var flipped := ToggleTodo(todos, t.id);
    assert flipped[j] == t.(completed := true);
    PartitionMembers(flipped);
  }
}

/** The state of the dashboard page (`useState` hooks) and the handlers that change it.
    Every remote call (`taskAPI.*`) is a boolean `ok` input saying whether it resolved;
    `window.confirm` is the boolean `confirmed`; `Date.now()` and the ISO stamps are inputs. */
module Page {
  import opened Wrappers
  import opened Text
  import opened Tasks

  class Dashboard {
    /** `user.username` of the signed-in user. */
    const username: string
    var tasks: seq<Task>
    var newTask: string
    var searchTerm: string
    var editingTask: Option<int>
    var editText: string
    var loading: bool

    /** Outside edit mode the scratch text is empty: the edit input is only rendered in
        edit mode, and leaving edit mode clears it. No contract depends on this; it records
        a fact about every state the page reaches, which each method keeps. */
    ghost predicate Valid()
      reads this
    {
      editingTask.None? ==> editText == ""
    }

    /** The initial values of the hooks. */
    constructor (username: string)
      ensures Valid()
      ensures this.username == username
      ensures tasks == [] && newTask == "" && searchTerm == ""
      ensures editingTask == None && editText == "" && loading
    {
      this.username := username;
      tasks := [];
      newTask := "";
      searchTerm := "";
      editingTask := None;
      editText := "";
      loading := true;
    }

    /** `fetchTasks`: on success the list becomes the server's; loading ends either way. */
    method FetchTasks(ok: bool, data: seq<Task>)
      requires Valid()
      modifies this
      ensures Valid()
      ensures tasks == (if ok then data else old(tasks)) && !loading
      ensures unchanged(this`newTask, this`searchTerm, this`editingTask, this`editText)
    {
      if ok {
        tasks := data;
      }
      loading := false;
    }

    /** The `onChange` of the new-task input. */
    method SetNewTask(s: string)
      requires Valid()
      modifies this`newTask
      ensures Valid() && newTask == s
    {
      newTask := s;
    }

    /** The `onChange` of the search input. */
    method SetSearchTerm(s: string)
      requires Valid()
      modifies this`searchTerm
      ensures Valid() && searchTerm == s
    {
      searchTerm := s;
    }

    /** The `onChange` of the edit input, which exists only while a task is in edit mode. */
    method SetEditText(s: string)
      requires Valid() && editingTask.Some?
      modifies this`editText
      ensures Valid() && editText == s
    {
      editText := s;
    }

    /** `handleAddTask`. Blank input returns before any remote call. Otherwise the record
        built from the trimmed input is sent; only when that succeeds is it prepended and the
        input cleared. */
    method HandleAddTask(now: int, createdAt: string, updatedAt: string, ok: bool) returns (called: bool)
      requires Valid()
      modifies this
      ensures Valid()
      ensures called == !IsBlank(old(newTask))
      ensures called && ok ==>
        |tasks| == |old(tasks)| + 1 && tasks[1..] == old(tasks) && newTask == "" &&
        tasks[0].id == now && tasks[0].author == username && tasks[0].text == Trim(old(newTask)) &&
        tasks[0].text != "" && !tasks[0].completed &&
        tasks[0].createdAt == createdAt && tasks[0].updatedAt == updatedAt
      ensures !(called && ok) ==> tasks == old(tasks) && newTask == old(newTask)
      ensures unchanged(this`searchTerm, this`editingTask, this`editText, this`loading)
    {
      called := !IsBlank(newTask);
      if !called {
        return;
      }
      var task := NewTask(now, username, newTask, createdAt, updatedAt);
      if ok {
        tasks := [task] + tasks;
        newTask := "";
      }
    }

    /** `toggleTask`. The record is looked up first; when no entry has the id, reading
        `task.completed` throws before the remote call and nothing changes. Otherwise the
        toggled copy is sent and, on success, replaces every entry with that id. */
    method ToggleTask(id: int, stamp: string, ok: bool) returns (called: bool)
      requires Valid()
      modifies this`tasks
      ensures Valid()
      ensures called == HasId(old(tasks), id)
      ensures called && ok ==>
        tasks == AfterToggle(old(tasks), id, stamp) &&
        |tasks| == |old(tasks)| &&
        forall i :: 0 <= i < |tasks| && old(tasks)[i].id != id ==> tasks[i] == old(tasks)[i]
      ensures !(called && ok) ==> tasks == old(tasks)
    {
      var found := Find(tasks, id);
      if found.None? {
        return false;
      }
      called := true;
      var updated := Toggled(found.value, stamp);
      if ok {
        tasks := ReplaceById(tasks, id, updated);
      }
    }

    /** `deleteTask`. Nothing happens unless the user confirms; then the delete is sent and,
        on success, every entry with the id is removed. */
    method DeleteTask(id: int, confirmed: bool, ok: bool) returns (called: bool)
      requires Valid()
      modifies this`tasks
      ensures Valid()
      ensures called == confirmed
      ensures called && ok ==> tasks == RemoveById(old(tasks), id) && !HasId(tasks, id)
      ensures !(called && ok) ==> tasks == old(tasks)
    {
      if !confirmed {
        return false;
      }
      called := true;
      if ok {
        tasks := RemoveById(tasks, id);
      }
    }

    /** `startEdit(task)`: the task's id becomes the edited id and its text the scratch text. */
    method StartEdit(t: Task)
      requires Valid()
      modifies this`editingTask, this`editText
      ensures Valid()
      ensures editingTask == Some(t.id) && editText == t.text
    {
      editingTask := Some(t.id);
      editText := t.text;
    }

    /** `cancelEdit`: leaves edit mode and discards the scratch text, with no remote call. */
    method CancelEdit()
      requires Valid()
      modifies this`editingTask, this`editText
      ensures Valid()
      ensures editingTask == None && editText == ""
    {
      editingTask := None;
      editText := "";
    }

    /** `saveEdit(id)`. Blank scratch text is rejected before any remote call and edit mode
        stays. Otherwise the update is sent; only on success does every entry with the id get
        the trimmed text and the new stamp, and edit mode end. When no entry has the id,
        the record sent is a partial one and the list stays as it was. */
    method SaveEdit(id: int, stamp: string, ok: bool) returns (called: bool)
      requires Valid()
      modifies this`tasks, this`editingTask, this`editText
      ensures Valid()
      ensures called == !IsBlank(old(editText))
      ensures called && ok ==>
        tasks == (if HasId(old(tasks), id)
                  then ReplaceById(old(tasks), id, Edited(Find(old(tasks), id).value, old(editText), stamp))
                  else old(tasks)) &&
        |tasks| == |old(tasks)| &&
        (forall i :: 0 <= i < |tasks| && old(tasks)[i].id != id ==> tasks[i] == old(tasks)[i]) &&
        editingTask == None && editText == ""
      ensures !(called && ok) ==>
        tasks == old(tasks) && editingTask == old(editingTask) && editText == old(editText)
    {
      called := !IsBlank(editText);
      if !called {
        return;
      }
      var found := Find(tasks, id);
      if ok {
        if found.Some? {
          tasks := ReplaceById(tasks, id, Edited(found.value, editText, stamp));
        }
        editingTask := None;
        editText := "";
      }
    }
  }
}

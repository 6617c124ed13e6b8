/**
 * The task-list view controller: a table of task rows, a one-line text
 * input, and the input mode that decides where a key goes. Keys either move
 * between modes, change the task list through the store operations, or are
 * forwarded to the table (cursor movement) or to the text input (editing).
 *
 * The effect of each event is specified by `Step`, a function on `Model`
 * values; the `ViewState` methods are proved to perform it.
 */
module TodoView {
  import opened Wrappers
  import opened Strconv
  import Tasks
  import opened Table

  /** Which text overlay is open; `Hide` means none and keys go to the table. */
  datatype InputState = Hide | Add | Edit | Del

  /** An event: a key press, named as the terminal library spells it, or anything else. */
  datatype Msg = KeyMsg(key: string) | OtherMsg

  /**
   * What the outside world answers while one event is handled: the clock,
   * the text the input widget holds after taking a forwarded event, and the
   * cursor the table widget moves to on a forwarded event.
   */
  datatype Env = Env(now: Tasks.Timestamp, typed: string, moved: int)

  /** The fields of the view that its logic reads and writes, as one value. */
  datatype Model = Model(todos: seq<Tasks.Task>, rows: seq<Row>, cursor: int, hideCompleted: bool,
                         inputState: InputState, buffer: string)

  /**
   * The table shows the current task list under the current filter, the
   * cursor is on a row whenever there is one, and every task carries a
   * completion time exactly when it is completed.
   */
  ghost predicate Consistent(m: Model)
  {
    && m.rows == Project(m.todos, m.hideCompleted)
    && (if m.rows == [] then -1 <= m.cursor <= 0 else 0 <= m.cursor < |m.rows|)
    && Tasks.AllWellFormed(m.todos)
  }

  /**
   * The canonical index of the task whose row is selected: the selected row
   * is exactly the row of that task, so its key names that task.
   */
  ghost function Selected(m: Model): (k: Option<nat>)
    requires Consistent(m)
    ensures k.None? <==> m.rows == []
    ensures k.Some? ==> k.value < |m.todos| && m.rows[m.cursor] == MakeRow(k.value, m.todos[k.value])
  {
    if m.rows == [] then None
    else
      RowAt(m.todos, m.hideCompleted, m.cursor);
      Some(Canon(m.todos, m.hideCompleted)[m.cursor])
  }

  /**
   * The cursor `deleteTask` computes from the row position found for the
   * deleted key (todo/todoView.go:87-93): pulled back below the task count
   * and floored at zero. The test is `>` rather than `>=`, so the result may
   * equal the task count.
   */
  function DeleteCursor(rowIndex: int, count: nat): (r: int)
    ensures 0 <= r <= count
    ensures 0 <= rowIndex <= count ==> r == rowIndex
    ensures rowIndex > count ==> r == (if count == 0 then 0 else count - 1)
  {
    var pulled := if rowIndex > count then count - 1 else rowIndex;
    if pulled <= 0 then 0 else pulled
  }

  /** `updateTable`: the table rebuilt from the task list, its cursor set to `current`. */
  ghost function Rebuilt(m: Model, current: int): Model
  {
    var rows := Project(m.todos, m.hideCompleted);
    m.(rows := rows, cursor := ClampCursor(current, |rows|))
  }

  /** `toggleCompleted`: toggle the selected task and keep the cursor's row position. */
  ghost function ToggleStep(m: Model, now: Tasks.Timestamp): Model
    requires Consistent(m)
  {
    match Selected(m)
    case None => m
    case Some(k) => Rebuilt(m.(todos := Tasks.Toggle(m.todos, k, now)), m.cursor)
  }

  /** `deleteTask`: delete the selected task and keep the cursor's row position, clamped. */
  ghost function DeleteStep(m: Model): Model
    requires Consistent(m)
  {
    match Selected(m)
    case None => m
    case Some(k) =>
      var todos := Tasks.Delete(m.todos, k);
      Rebuilt(m.(todos := todos), DeleteCursor(m.cursor, |todos|))
  }

  /**
   * The mode switch of the "enter" case of `updateInput`: add the text,
   * replace the selected task's text, or delete the selected task when the
   * text is exactly "y".
   */
  ghost function CommitStep(m: Model, now: Tasks.Timestamp): Model
    requires Consistent(m)
  {
    match m.inputState
    case Add => m.(todos := Tasks.Add(m.todos, m.buffer, now))
    case Edit =>
      (match Selected(m)
       case None => m
       case Some(k) => m.(todos := Tasks.Edit(m.todos, k, m.buffer)))
    case Del => if m.buffer == "y" then DeleteStep(m) else m
    case Hide => m
  }

  /** `updateInput`: one event while an overlay is open. */
  ghost function InputStep(m: Model, msg: Msg, env: Env): Model
    requires Consistent(m)
  {
    if msg == KeyMsg("esc") then
      // The text input is blurred first, so it ignores the event afterwards.
      m.(inputState := Hide)
    else if msg == KeyMsg("enter") then
      Rebuilt(CommitStep(m, env.now).(buffer := "", inputState := Hide), 0)
    else
      m.(buffer := env.typed)
  }

  /** `Update` with no overlay open: keys switch modes, toggle, filter, or move the cursor. */
  ghost function BrowseStep(m: Model, msg: Msg, env: Env): Model
    requires Consistent(m)
  {
    if msg == KeyMsg(" ") then ToggleStep(m, env.now)
    else if msg == KeyMsg("e") then
      m.(inputState := Edit, buffer := if Selected(m).Some? then m.todos[Selected(m).value].title else m.buffer)
    else if msg == KeyMsg("a") then m.(inputState := Add, buffer := "")
    else if msg == KeyMsg("d") then m.(inputState := Del, buffer := "")
    else if msg == KeyMsg("h") then Rebuilt(m.(hideCompleted := !m.hideCompleted), 0)
    else m.(cursor := ClampCursor(env.moved, |m.rows|))
  }

  /** `Update`: one event, routed by the input mode. */
  ghost function Step(m: Model, msg: Msg, env: Env): Model
    requires Consistent(m)
  {
    if m.inputState != Hide then InputStep(m, msg, env) else BrowseStep(m, msg, env)
  }

  /** A rebuilt table is consistent with a well-formed task list. */
  lemma RebuiltConsistent(m: Model, current: int)
    requires Tasks.AllWellFormed(m.todos)
    ensures Consistent(Rebuilt(m, current))
  {
  }

  /** Toggling keeps the view consistent. */
  lemma ToggleConsistent(m: Model, now: Tasks.Timestamp)
    requires Consistent(m)
    ensures Consistent(ToggleStep(m, now))
  {
    if Selected(m).Some? {
      RebuiltConsistent(m.(todos := Tasks.Toggle(m.todos, Selected(m).value, now)), m.cursor);
    }
  }

  /** Deleting keeps the view consistent. */
  lemma DeleteConsistent(m: Model)
    requires Consistent(m)
    ensures Consistent(DeleteStep(m))
  {
    if Selected(m).Some? {
      var todos := Tasks.Delete(m.todos, Selected(m).value);
      RebuiltConsistent(m.(todos := todos), DeleteCursor(m.cursor, |todos|));
    }
  }

  /** Committing an overlay keeps every task well-formed. */
  lemma CommitWellFormed(m: Model, now: Tasks.Timestamp)
    requires Consistent(m)
    ensures Tasks.AllWellFormed(CommitStep(m, now).todos)
  {
    if m.inputState == Del && m.buffer == "y" {
      DeleteConsistent(m);
    }
  }

  /** Every event handled while an overlay is open keeps the view consistent. */
  lemma InputConsistent(m: Model, msg: Msg, env: Env)
    requires Consistent(m)
    ensures Consistent(InputStep(m, msg, env))
  {
    if msg == KeyMsg("enter") {
      CommitWellFormed(m, env.now);
      RebuiltConsistent(CommitStep(m, env.now).(buffer := "", inputState := Hide), 0);
    } else {
      var m' := InputStep(m, msg, env);
      assert m'.todos == m.todos && m'.rows == m.rows && m'.cursor == m.cursor && m'.hideCompleted == m.hideCompleted;
    }
  }

  /** Every event handled with no overlay open keeps the view consistent. */
  lemma BrowseConsistent(m: Model, msg: Msg, env: Env)
    requires Consistent(m)
    ensures Consistent(BrowseStep(m, msg, env))
  {
    if msg == KeyMsg(" ") {
      ToggleConsistent(m, env.now);
    } else if msg == KeyMsg("h") {
      RebuiltConsistent(m.(hideCompleted := !m.hideCompleted), 0);
    } else {
      var m' := BrowseStep(m, msg, env);
      assert m'.todos == m.todos && m'.rows == m.rows && m'.hideCompleted == m.hideCompleted;
    }
  }

  /** Every event keeps the view consistent. */
  lemma StepConsistent(m: Model, msg: Msg, env: Env)
    requires Consistent(m)
    ensures Consistent(Step(m, msg, env))
  {
    if m.inputState != Hide {
      InputConsistent(m, msg, env);
    } else {
      BrowseConsistent(m, msg, env);
    }
  }

  class ViewState {
    var todos: seq<Tasks.Task>
    /** The table's rows. */
    var rows: seq<Row>
    /** The table's cursor. */
    var cursor: int
    var height: int
    var width: int
    var hideCompleted: bool
    var inputState: InputState
    /** The text input's value. */
    var buffer: string

    ghost function Snapshot(): Model
      reads this
    {
      Model(todos, rows, cursor, hideCompleted, inputState, buffer)
    }

    ghost predicate Valid()
      reads this
    {
      Consistent(Snapshot())
    }

    /** The table's selected row, if any. */
    function SelectedRow(): (r: Option<Row>)
      reads this
      ensures r.Some? <==> 0 <= cursor < |rows|
      ensures r.Some? ==> r.value == rows[cursor]
      ensures Valid() ==> (r.None? <==> rows == [])
      ensures Valid() && r.Some? ==>
                r.value == MakeRow(Selected(Snapshot()).value, todos[Selected(Snapshot()).value])
    {
      if 0 <= cursor < |rows| then Some(rows[cursor]) else None
    }

    /** The initial view: six sample tasks, the fourth completed, completed tasks hidden. */
    constructor (now: Tasks.Timestamp)
      ensures Valid()
      ensures |todos| == 6
      ensures todos[5].title == "Buy milk"
      ensures todos[4].title == "Buy bread and some other stuff\nCoffee"
      ensures forall k :: 0 <= k < 4 ==> todos[k].title == "Buy bread"
      ensures todos[3].completed && forall k :: 0 <= k < 6 && k != 3 ==> !todos[k].completed
      ensures hideCompleted && inputState == Hide && buffer == "" && cursor == 0
      ensures height == 20 && width == 0
    {
      var ts: seq<Tasks.Task> := [];
      ts := Tasks.Add(ts, "Buy milk", now);
      ts := Tasks.Add(ts, "Buy bread and some other stuff\nCoffee", now);
      ts := Tasks.Add(ts, "Buy bread", now);
      ts := Tasks.Add(ts, "Buy bread", now);
      ts := Tasks.Add(ts, "Buy bread", now);
      ts := Tasks.Add(ts, "Buy bread", now);
      ts := Tasks.Toggle(ts, 3, now);
      var built := NewTable(ts, true);
      todos := ts;
      rows := built;
      cursor := 0;
      width := 0;
      height := 20;
      hideCompleted := true;
      inputState := Hide;
      buffer := "";
    }

    /** Rebuilds the table from the task list and puts the cursor at `current`, clamped. */
    method UpdateTable(current: int)
      modifies this`rows, this`cursor
      ensures Snapshot() == Rebuilt(old(Snapshot()), current)
    {
      var built := NewTable(todos, hideCompleted);
      rows := built;
      cursor := ClampCursor(current, |rows|);
    }

    method SetHeight(h: int)
      modifies this`height
      ensures height == h
    {
      height := h;
    }

    /** Widths of 80 columns or fewer are ignored. */
    method SetWidth(w: int)
      modifies this`width
      ensures width == (if w > 80 then w else old(width))
    {
      if w > 80 {
        width := w;
      }
    }

    /** `getRowIndex`: the position of the first row whose key is `key`, or 0. */
    method GetRowIndex(key: string) returns (i: int)
      ensures i == RowIndexOf(rows, key)
    {
      var j := 0;
      while j < |rows|
        invariant 0 <= j <= |rows|
        invariant forall m :: 0 <= m < j ==> rows[m].key != key
      {
        if rows[j].key == key {
          return j;
        }
        j := j + 1;
      }
      return 0;
    }

    /**
     * Toggles the selected task. The new cursor is the old row position,
     * looked up by key in the table as it was before the rebuild.
     */
    method ToggleCompleted(now: Tasks.Timestamp)
      requires Valid()
      modifies this`todos, this`rows, this`cursor
      ensures Valid()
      ensures Snapshot() == ToggleStep(old(Snapshot()), now)
    {
      ToggleConsistent(Snapshot(), now);
      var selected := SelectedRow();
      if selected.None? {
        return;
      }
      var indexField := selected.value.key;
      var parsed := Atoi(indexField);
      if parsed.Some? {
        RowIndexRoundTrip(todos, hideCompleted, cursor);
        todos := Tasks.Toggle(todos, parsed.value, now);
        var rowIndex := GetRowIndex(indexField);
        UpdateTable(rowIndex);
      }
    }

    /**
     * Deletes the selected task; the cursor stays at the old row position,
     * clamped to the shorter table.
     */
    method DeleteTask()
      requires Valid()
      modifies this`todos, this`rows, this`cursor
      ensures Valid()
      ensures Snapshot() == DeleteStep(old(Snapshot()))
    {
      DeleteConsistent(Snapshot());
      var selected := SelectedRow();
      if selected.None? {
        return;
      }
      var indexField := selected.value.key;
      var parsed := Atoi(indexField);
      if parsed.Some? {
        RowIndexRoundTrip(todos, hideCompleted, cursor);
        todos := Tasks.Delete(todos, parsed.value);
        var rowIndex := GetRowIndex(indexField);
        rowIndex := DeleteCursor(rowIndex, |todos|);
        UpdateTable(rowIndex);
      }
    }

    /** The mode switch of the "enter" case of `updateInput`. */
    method Commit(now: Tasks.Timestamp)
      requires Valid()
      modifies this`todos, this`rows, this`cursor
      ensures Snapshot() == CommitStep(old(Snapshot()), now)
    {
      if inputState == Add {
        todos := Tasks.Add(todos, buffer, now);
      } else if inputState == Edit {
        var selected := SelectedRow();
        if selected.Some? {
          var parsed := Atoi(selected.value.key);
          if parsed.Some? {
            todos := Tasks.Edit(todos, parsed.value, buffer);
          }
        }
      } else if inputState == Del {
        if buffer == "y" {
          DeleteTask();
        }
      }
    }

    /** `updateInput`: handles an event while an overlay is open. */
    method UpdateInput(msg: Msg, env: Env)
      requires Valid()
      modifies this`todos, this`rows, this`cursor, this`inputState, this`buffer
      ensures Snapshot() == InputStep(old(Snapshot()), msg, env)
      ensures Valid()
    {
      InputConsistent(Snapshot(), msg, env);
      if msg == KeyMsg("esc") {
        inputState := Hide;
      } else if msg == KeyMsg("enter") {
        Commit(env.now);
        buffer, inputState := "", Hide;
        UpdateTable(0);
      } else {
        buffer := env.typed;
      }
    }

    /** The part of `Update` that runs when no overlay is open. */
    method Browse(msg: Msg, env: Env)
      requires Valid()
      modifies this`todos, this`rows, this`cursor, this`inputState, this`buffer, this`hideCompleted
      ensures Valid()
      ensures Snapshot() == BrowseStep(old(Snapshot()), msg, env)
    {
      ghost var before := Snapshot();
      BrowseConsistent(before, msg, env);
      if msg == KeyMsg(" ") {
        ToggleCompleted(env.now);
      } else if msg == KeyMsg("e") {
        var selected := SelectedRow();
        if selected.Some? {
          assert selected.value.task == todos[Selected(before).value].title;
          buffer := selected.value.task;
        }
        inputState := Edit;
        assert Snapshot() == BrowseStep(before, msg, env);
      } else if msg == KeyMsg("a") {
        inputState, buffer := Add, "";
        assert Snapshot() == BrowseStep(before, msg, env);
      } else if msg == KeyMsg("d") {
        inputState, buffer := Del, "";
        assert Snapshot() == BrowseStep(before, msg, env);
      } else if msg == KeyMsg("h") {
        hideCompleted := !hideCompleted;
        UpdateTable(0);
      } else {
        cursor := ClampCursor(env.moved, |rows|);
        assert Snapshot() == BrowseStep(before, msg, env);
      }
      assert Snapshot() == BrowseStep(before, msg, env);
    }

    /** `Update`: routes an event by the input mode. */
    method Update(msg: Msg, env: Env)
      requires Valid()
      modifies this`todos, this`rows, this`cursor, this`inputState, this`buffer, this`hideCompleted
      ensures Valid()
      ensures Snapshot() == Step(old(Snapshot()), msg, env)
    {
      if inputState != Hide {
        UpdateInput(msg, env);
      } else {
        Browse(msg, env);
      }
    }
  }
}

/**
 * What one event does to the view, stated over `Step`: which keys leave the
 * task list alone, what "enter" commits in each mode, and how toggling and
 * deleting treat the selection.
 */
module ViewLaws {
  import opened Wrappers
  import opened Strconv
  import Tasks
  import opened Table
  import opened TodoView

  /**
   * With no overlay open, "a", "d" and "e" only open an overlay: "a" and "d"
   * with an empty buffer, "e" with the selected task's text when a row is
   * selected. The task list, the table and the cursor stay as they were.
   */
  lemma OpenOverlay(m: Model, msg: Msg, env: Env)
    requires Consistent(m) && m.inputState == Hide
    requires msg in {KeyMsg("a"), KeyMsg("d"), KeyMsg("e")}
    ensures var m' := Step(m, msg, env);
      && m'.todos == m.todos && m'.rows == m.rows && m'.cursor == m.cursor
      && m'.hideCompleted == m.hideCompleted
      && (msg == KeyMsg("a") ==> m'.inputState == Add && m'.buffer == "")
      && (msg == KeyMsg("d") ==> m'.inputState == Del && m'.buffer == "")
      && (msg == KeyMsg("e") ==>
            && m'.inputState == Edit
            && (Selected(m).Some? ==> m'.buffer == m.todos[Selected(m).value].title)
            && (Selected(m).None? ==> m'.buffer == m.buffer))
  {
  }

  /**
   * "h" flips the filter and rebuilds the table at the top, keeping the task
   * list; the rows are the projection under the new filter, so with completed
   * tasks now hidden no row shows a completed task, and with them shown every
   * task has its row.
   */
  lemma ToggleFilter(m: Model, env: Env)
    requires Consistent(m) && m.inputState == Hide
    ensures var m' := Step(m, KeyMsg("h"), env);
      && m'.hideCompleted == !m.hideCompleted
      && m'.todos == m.todos && m'.inputState == Hide && m'.buffer == m.buffer
      && m'.cursor == (if m'.rows == [] then -1 else 0)
      && m'.rows == Project(m.todos, m'.hideCompleted)
      && (m'.hideCompleted ==> forall k :: 0 <= k < |m'.rows| ==> m'.rows[k].done == OpenMark)
      && (!m'.hideCompleted ==> |m'.rows| == |m.todos|)
  {
    var m' := Step(m, KeyMsg("h"), env);
    ProjectHidesCompleted(m.todos);
    ProjectShowsAll(m.todos);
  }

  /** Any other event with no overlay open only moves the cursor, clamped to the rows. */
  lemma MoveCursor(m: Model, msg: Msg, env: Env)
    requires Consistent(m) && m.inputState == Hide
    requires msg !in {KeyMsg(" "), KeyMsg("e"), KeyMsg("a"), KeyMsg("d"), KeyMsg("h")}
    ensures Step(m, msg, env) == m.(cursor := ClampCursor(env.moved, |m.rows|))
  {
  }

  /** "esc" closes the overlay and changes nothing else, not even the buffer. */
  lemma Cancel(m: Model, env: Env)
    requires Consistent(m) && m.inputState != Hide
    ensures Step(m, KeyMsg("esc"), env) == m.(inputState := Hide)
  {
  }

  /** Any other event with an overlay open only replaces the buffer with the input's new text. */
  lemma Type(m: Model, msg: Msg, env: Env)
    requires Consistent(m) && m.inputState != Hide
    requires msg != KeyMsg("esc") && msg != KeyMsg("enter")
    ensures Step(m, msg, env) == m.(buffer := env.typed)
  {
  }

  /**
   * "enter" always closes the overlay, empties the buffer and rebuilds the
   * table with the cursor on its first row, whatever the mode.
   */
  lemma Confirm(m: Model, env: Env)
    requires Consistent(m) && m.inputState != Hide
    ensures var m' := Step(m, KeyMsg("enter"), env);
      && Consistent(m')
      && m'.inputState == Hide && m'.buffer == "" && m'.hideCompleted == m.hideCompleted
      && m'.cursor == (if m'.rows == [] then -1 else 0)
  {
    StepConsistent(m, KeyMsg("enter"), env);
  }

  /**
   * "enter" in the add overlay puts a new open task with the buffer's text
   * first in the list, and its row first in the table, under the cursor.
   */
  lemma ConfirmAdd(m: Model, env: Env)
    requires Consistent(m) && m.inputState == Add
    ensures var m' := Step(m, KeyMsg("enter"), env);
      && m'.todos == [Tasks.Task(m.buffer, env.now, false, None)] + m.todos
      && m'.rows != [] && m'.cursor == 0
      && m'.rows[0] == MakeRow(0, m'.todos[0])
  {
    var m' := Step(m, KeyMsg("enter"), env);
    var ts := m'.todos;
    assert ts[0] == Tasks.Task(m.buffer, env.now, false, None);
    CanonShape(ts, m.hideCompleted);
    ProjectRows(ts, m.hideCompleted);
    var shown := Canon(ts, m.hideCompleted);
    assert 0 in shown;
    var j :| 0 <= j < |shown| && shown[j] == 0;
    assert shown[0] == 0;
  }

  /**
   * "enter" in the edit overlay gives the selected task the buffer's text
   * and keeps everything else about it and every other task; with no row
   * selected the list is unchanged.
   */
  lemma ConfirmEdit(m: Model, env: Env)
    requires Consistent(m) && m.inputState == Edit
    ensures var m' := Step(m, KeyMsg("enter"), env);
      && (Selected(m).None? ==> m'.todos == m.todos)
      && (Selected(m).Some? ==>
            var k := Selected(m).value;
            && |m'.todos| == |m.todos|
            && m'.todos[k].title == m.buffer
            && m'.todos[k].completed == m.todos[k].completed
            && (forall j :: 0 <= j < |m.todos| && j != k ==> m'.todos[j] == m.todos[j])
            && m'.todos == m.todos[k := m.todos[k].(title := m.buffer)])
  {
  }

  /**
   * "enter" in the delete overlay deletes the selected task only when the
   * buffer is exactly "y": then exactly that task leaves the list, and the
   * others keep their order.
   */
  lemma ConfirmDelete(m: Model, env: Env)
    requires Consistent(m) && m.inputState == Del
    ensures var m' := Step(m, KeyMsg("enter"), env);
      && (m.buffer != "y" || Selected(m).None? ==> m'.todos == m.todos)
      && (m.buffer == "y" && Selected(m).Some? ==>
            && |m'.todos| == |m.todos| - 1
            && m'.todos == m.todos[..Selected(m).value] + m.todos[Selected(m).value + 1..]
            && multiset(m'.todos) + multiset{m.todos[Selected(m).value]} == multiset(m.todos))
  {
    if m.buffer == "y" && Selected(m).Some? {
      Tasks.DeleteRemovesOne(m.todos, Selected(m).value);
    }
  }

  /**
   * " " flips the selected task's completion, stamping the time when it
   * becomes completed and clearing it when it is reopened, and keeps the
   * cursor's row position; with no row selected nothing changes.
   */
  lemma ToggleSelected(m: Model, env: Env)
    requires Consistent(m) && m.inputState == Hide
    ensures var m' := Step(m, KeyMsg(" "), env);
      && m'.inputState == Hide && m'.buffer == m.buffer && m'.hideCompleted == m.hideCompleted
      && (Selected(m).None? ==> m' == m)
      && (Selected(m).Some? ==>
            var k := Selected(m).value;
            && |m'.todos| == |m.todos|
            && m'.todos[k].completed == !m.todos[k].completed
            && m'.todos[k].title == m.todos[k].title
            && (m'.todos[k].completed ==> m'.todos[k].completedAt == Some(env.now))
            && (forall j :: 0 <= j < |m.todos| && j != k ==> m'.todos[j] == m.todos[j])
            && m'.todos == m.todos[k := m.todos[k].(completed := !m.todos[k].completed,
                                                    completedAt := if m.todos[k].completed then None else Some(env.now))]
            && m'.cursor == ClampCursor(m.cursor, |m'.rows|))
  {
  }

  /**
   * With completed tasks hidden, the selected task is always open, so " "
   * completes it and its row leaves the table: no row's key names it any more.
   */
  lemma ToggleHides(m: Model, env: Env)
    requires Consistent(m) && m.inputState == Hide && m.hideCompleted && m.rows != []
    ensures var m' := Step(m, KeyMsg(" "), env);
      && !m.todos[Selected(m).value].completed
      && m'.todos[Selected(m).value].completed
      && forall j :: 0 <= j < |m'.rows| ==> Atoi(m'.rows[j].key) != Some(Selected(m).value as int)
  {
    var k := Selected(m).value;
    var m' := Step(m, KeyMsg(" "), env);
    CanonShape(m.todos, true);
    RowAt(m.todos, true, m.cursor);
    RowKeys(m'.todos, true);
    CanonShape(m'.todos, true);
    forall j | 0 <= j < |m'.rows|
      ensures Atoi(m'.rows[j].key) != Some(k as int)
    {
      var c := Canon(m'.todos, true)[j];
      assert Visible(m'.todos[c], true);
    }
  }

  /**
   * With nothing hidden, " " leaves the cursor on the same row and that row
   * still shows the toggled task.
   */
  lemma ToggleKeepsSelection(m: Model, env: Env)
    requires Consistent(m) && m.inputState == Hide && !m.hideCompleted
    ensures var m' := Step(m, KeyMsg(" "), env);
      && Consistent(m') && m'.cursor == m.cursor && Selected(m') == Selected(m)
  {
    var m' := Step(m, KeyMsg(" "), env);
    StepConsistent(m, KeyMsg(" "), env);
    ProjectShowsAll(m.todos);
    ProjectShowsAll(m'.todos);
  }

  /**
   * In `deleteTask` the row position found for the deleted key is the old
   * cursor, which is below the old task count, so the `>` test never fires
   * and the new cursor is the old one, clamped to the shorter table.
   */
  lemma DeleteKeepsPosition(m: Model)
    requires Consistent(m) && m.rows != []
    ensures DeleteCursor(m.cursor, |Tasks.Delete(m.todos, Selected(m).value)|) == m.cursor
    ensures DeleteStep(m).cursor == ClampCursor(m.cursor, |DeleteStep(m).rows|)
  {
    RowAt(m.todos, m.hideCompleted, m.cursor);
  }
}

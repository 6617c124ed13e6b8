# memoria task view: a verified model

This project models the task-list view controller of memoria, a terminal
to-do manager (`todo/todoView.go`). The view holds three things:

- an ordered task list, newest first;
- a table with one row per shown task and a cursor;
- a one-line text input with an input mode (`hide`, `add`, `edit`, `del`).

Key presses switch modes, toggle the selected task, filter out completed
tasks, or go to the text input or the table. On "enter", the overlay's text
is committed to the task list.

Modules:

- `Wrappers`: `Option`.
- `Strconv`: `strconv.Itoa` and `strconv.Atoi` on row keys, with a parse-failure branch.
- `Tasks`: the task store as a `seq<Task>`. Its four operations (`add`, `edit`, `toggle`, `delete`) follow the SQL-backed store in `todo/todo.go`.
- `Table`:
  - the row projection of `newTable`: `Project` as the specification and `NewTable` as the loop;
  - the key lookup of `getRowIndex`;
  - the table widget's cursor clamp.
- `TodoView`: the `ViewState` class, whose methods change its fields in place. Each event's effect is also specified as a ghost function `Step` on a `Model` value. `Model` holds the fields the logic reads and writes. `Consistent` says that the table shows exactly the current list under the current filter, the cursor is on a row when there is one, and completion times match completion flags.
  - `UpdateTable`, `ToggleCompleted`, `DeleteTask`, `Commit`, `UpdateInput`, `Browse` and `Update` are proved to leave `Snapshot()` equal to their step function (`Rebuilt`, `ToggleStep`, `DeleteStep`, `CommitStep`, `InputStep`, `BrowseStep`, `Step`) applied to the old snapshot. `SetHeight`, `SetWidth` and `GetRowIndex` have contracts of their own and no step function.
  - `ToggleStep`, `DeleteStep`, `InputStep`, `BrowseStep` and `Step` are proved to preserve `Consistent`, and `Rebuilt` yields it from a well-formed list. `CommitStep` alone does not: after an add or an edit its rows are stale until `InputStep` rebuilds the table. It is proved only to keep the list well-formed.
- `ViewLaws`: what each key does, proved about `Step`.

The outside world enters through `Env`:

- `now`: the clock;
- `typed`: the text the input widget holds after taking a forwarded event;
- `moved`: the cursor the table widget moves to on a forwarded event.

Four behaviours of the code are easy to misread; the model follows the code:

- A row's key is the task's index in the unfiltered list (`strconv.Itoa(idx)` inside the `range` loop), not its position among the shown rows.
- After a toggle, the cursor keeps its old row *position*. `getRowIndex` runs on the table as it was before the rebuild, so it returns the old cursor. It is not the old key's new row.
- "esc" does not clear the text buffer. The input is blurred before it gets the event, so it ignores the event.
- On "enter" in delete mode, `deleteTask` clamps the cursor, but `updateTable(0)` then puts it on the first row, as in every mode.

## Model

| member | source | states |
|---|---|---|
| Strconv.Itoa | todo/todoView.go:268 | a key is a non-empty string of decimal digits |
| Strconv.AtoiItoa | todo/todoView.go:69-70 | parsing the key built from index n gives n back, so the parse error branch is never taken on a table key |
| Strconv.ItoaInjective | todo/todoView.go:268 | distinct indices give distinct keys |
| Strconv.Atoi | todo/todoView.go:69-70 | parsing succeeds exactly on an optional sign followed by at least one decimal digit, with the digits' value, negated after "-"; on anything else it fails, which is the `err != nil` branch that skips the toggle |
| Strconv.AtoiRejects | todo/todoView.go:84-85 | the empty string, a lone sign and a string not starting with a digit or sign fail to parse |
| Tasks.Add | todo/todo.go:73-85 | the new task comes first, with the given text and creation time, not completed; the old list follows unchanged; well-formedness is kept |
| Tasks.Toggle | todo/todo.go:101-121 | on an index in range only that task changes: completion flips, the completion time is `now` when it becomes completed and absent otherwise, text and creation time stay; out of range the list is unchanged |
| Tasks.Edit | todo/todo.go:92-99 | on an index in range only that task's text changes; out of range the list is unchanged |
| Tasks.Delete | todo/todo.go:87-90 | on an index in range the list loses that one task, the tasks before it are unchanged and those after move up by one; out of range the list is unchanged |
| Tasks.DeleteRemovesOne | todo/todo.go:87-90 | as a multiset, the list after deleting task i plus task i is the list before |
| Tasks.AddAllNewestFirst | todo/todo.go:37-39 | successive adds put the new tasks ahead of the old list, the last one added first |
| Tasks.CreatedReversed | todo/todo.go:37-39 | the tasks created by successive adds are open and carry the titles in reverse order |
| Tasks.ToggleTwice | todo/todo.go:101-121 | toggling twice restores a well-formed task when the second toggle's time is the recorded completion time (or the task started open) |
| Tasks.StoreScenario | todo/todo.go:73-121 | adding "Buy milk" then "Buy bread", toggling index 1 and deleting index 0 leaves only "Buy milk", completed at the toggle's time |
| Table.MakeRow | todo/todoView.go:258-272 | the key parses back to the task's index; Done is ✅ exactly when the task is completed and ❌ exactly when it is not; CompletedAt is "-" exactly when there is no completion time, and otherwise that time |
| Table.NewTable | todo/todoView.go:241-274 | the loop builds exactly the projection `Project` of the list under the filter |
| Table.CanonShape | todo/todoView.go:252-256 | the shown indices are in range, visible, strictly increasing, and include every visible index |
| Table.ProjectRows | todo/todoView.go:252-272 | row k is the row of the task at the k-th shown index |
| Table.ProjectShowsAll | todo/todoView.go:252-272 | with nothing hidden there is one row per task and row k shows task k |
| Table.ProjectHidesCompleted | todo/todoView.go:254-265 | with completed tasks hidden every row shows ❌ and, in a well-formed list, "-" as completion date |
| Table.RowKeys | todo/todoView.go:268 | each row's key parses to its task's index, and no two rows share a key |
| Table.HiddenKeysSkip | todo/todoView.go:253-268 | three tasks with the middle one completed and hidden give exactly two rows, keyed "0" and "2" |
| Table.Position | todo/todoView.go:98-105 | the position of the first row with the key, or the row count |
| Table.RowIndexOf | todo/todoView.go:98-105 | the first row whose key matches when one does; 0 when none does |
| Table.RowIndexRoundTrip | todo/todoView.go:98-105 | looking up the key of any row of a projected table finds that very row |
| Table.ClampCursor | todo/todoView.go:48 | on an empty table the cursor is -1; otherwise it is inside the rows: an in-range request is kept, one past the end goes to the last row and a negative one to the first |
| TodoView.Selected | todo/todoView.go:63-69 | there is a selected task exactly when the table has rows, and the selected row is that task's row |
| TodoView.DeleteCursor | todo/todoView.go:87-93 | the cursor `deleteTask` computes lies between 0 and the task count, equals the row index when that is already in range, and is pulled back when it is above |
| TodoView.RebuiltConsistent | todo/todoView.go:46-50 | rebuilding the table from a well-formed list gives a consistent view |
| TodoView.ToggleConsistent | todo/todoView.go:62-74 | toggling keeps the view consistent |
| TodoView.DeleteConsistent | todo/todoView.go:77-96 | deleting keeps the view consistent |
| TodoView.InputConsistent | todo/todoView.go:107-145 | every event with an overlay open keeps the view consistent |
| TodoView.BrowseConsistent | todo/todoView.go:147-195 | every event with no overlay open keeps the view consistent |
| TodoView.CommitWellFormed | todo/todoView.go:117-133 | committing the overlay's text in any mode keeps the task list well-formed |
| TodoView.StepConsistent | todo/todoView.go:147-195 | every event keeps the view consistent |
| TodoView.ViewState.SelectedRow | todo/todoView.go:63-66 | there is a selected row exactly when the cursor is inside the rows, and it is the row under the cursor; in a consistent view there is one exactly when the table is not empty, and it is the row `MakeRow` builds for the selected task |
| TodoView.ViewState.constructor | todo/todoView.go:214-239 | six sample tasks, newest first, with the fourth completed; completed tasks hidden, no overlay, empty buffer, cursor 0, height 20, width 0, consistent |
| TodoView.ViewState.UpdateTable | todo/todoView.go:46-50 | the rows become the projection of the list and the cursor the clamped request |
| TodoView.ViewState.SetHeight | todo/todoView.go:52-54 | the height becomes the argument |
| TodoView.ViewState.SetWidth | todo/todoView.go:56-60 | the width changes only to a value above 80 |
| TodoView.ViewState.GetRowIndex | todo/todoView.go:98-105 | the linear scan returns `RowIndexOf` the rows and key |
| TodoView.ViewState.ToggleCompleted | todo/todoView.go:62-74 | the new state is `ToggleStep` of the old and stays consistent |
| TodoView.ViewState.DeleteTask | todo/todoView.go:77-96 | the new state is `DeleteStep` of the old and stays consistent |
| TodoView.ViewState.Commit | todo/todoView.go:117-133 | the new state is `CommitStep` of the old: add, edit the selected task, or delete it on "y" |
| TodoView.ViewState.UpdateInput | todo/todoView.go:107-145 | the new state is `InputStep` of the old and is consistent |
| TodoView.ViewState.Browse | todo/todoView.go:156-193 | with no overlay open, the new state is `BrowseStep` of the old and is consistent |
| TodoView.ViewState.Update | todo/todoView.go:147-195 | the new state is `Step` of the old and is consistent |
| ViewLaws.OpenOverlay | todo/todoView.go:159-185 | with no overlay, "a" and "d" open their overlay with an empty buffer; "e" opens the edit overlay seeded with the selected task's text, or keeps the old buffer when no row is selected; list, rows and cursor are unchanged |
| ViewLaws.ToggleFilter | todo/todoView.go:186-189 | "h" flips the filter, keeps the list, rebuilds the rows as the projection of the list under the new filter, and puts the cursor on the first row; hidden mode shows only open tasks; shown mode has one row per task |
| ViewLaws.MoveCursor | todo/todoView.go:193 | any other event with no overlay only moves the cursor, clamped |
| ViewLaws.Cancel | todo/todoView.go:113-116 | "esc" closes the overlay and changes nothing else |
| ViewLaws.Type | todo/todoView.go:143 | any other event with an overlay open only replaces the buffer |
| ViewLaws.Confirm | todo/todoView.go:117-139 | "enter" in any mode closes the overlay, empties the buffer, and leaves a consistent view with the cursor on the first row |
| ViewLaws.ConfirmAdd | todo/todoView.go:119-120 | "enter" in add mode puts a new open task with the buffer's text first, and its row first under the cursor |
| ViewLaws.ConfirmEdit | todo/todoView.go:121-129 | "enter" in edit mode replaces only the selected task's text with the buffer: its creation time, completion and completion time stay, as does every other task; with no row the list is unchanged |
| ViewLaws.ConfirmDelete | todo/todoView.go:130-133 | "enter" in delete mode removes exactly the selected task when the buffer is "y", keeping the others in order, and changes nothing otherwise |
| ViewLaws.ToggleSelected | todo/todoView.go:62-74 | " " flips the selected task's completion, sets its completion time to the current time when it becomes completed and clears it when it is reopened, and keeps its text and creation time, every other task and the row position; with no row nothing changes |
| ViewLaws.ToggleHides | todo/todoView.go:62-74 | with completed tasks hidden the selected task is open, " " completes it, and no row's key names it afterwards |
| ViewLaws.ToggleKeepsSelection | todo/todoView.go:62-74 | with nothing hidden, " " keeps the cursor on the toggled task's row |
| ViewLaws.DeleteKeepsPosition | todo/todoView.go:87-94 | the `>` test in `deleteTask` never fires: the computed cursor is the old one, clamped to the shorter table |

## Left out

- `View()`, all styling and rendering (lipgloss, column widths, the help line) and `main.go`'s program wiring: presentation and I/O only.
- The SQL plumbing of `todo/todo.go` (`openDB`, `getAll`, `get`, `setup`, the path setup). The slice-backed store the view calls is not part of this model. The store's four operations are written from the SQL version's intent, and the list order from its `ORDER BY id DESC`.
- The SQL `toggle`'s quirk of writing a zero time instead of NULL when a task is un-completed: the model clears the completion time.
- Date formatting (`time.DateOnly`): a date cell holds the timestamp itself (`Cell.Date`).
- `Strconv.Atoi`: the 64-bit range error of `strconv.Atoi` is not modelled, because keys are list indices. `Itoa` is modelled on non-negative integers only, which are the only ones the table uses.
- The table and text-input widgets' internals: focus, blur, prompts, placeholders, the 50-character limit, the replacement of newlines and tabs by spaces, and how a forwarded event edits the text or moves the cursor. Their outcome is supplied as `Env.typed` and `Env.moved`. The table's `SetCursor` clamp is modelled as `ClampCursor`.
- The `tea.Cmd` each update returns and the `TodoView` interface's dynamic dispatch.
- TodoView.ViewState.constructor: one clock value serves all six sample tasks, where the source reads the clock on each add.
- ViewLaws.OpenOverlay: the edit overlay's buffer is the selected task's exact title. The text input's `SetValue` (todo/todoView.go:162) cuts the text to 50 characters and turns newlines and tabs into spaces, so a title such as "Buy bread and some other stuff\nCoffee" is seeded as "Buy bread and some other stuff Coffee".
- ViewLaws.ConfirmEdit: for the same reason, "e" then "enter" stores the buffer as given; with the widget's rewriting it would change a title holding a newline, a tab or more than 50 characters.

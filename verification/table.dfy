/**
 * The task table: the rows `newTable` projects from the task list, the
 * lookup of a row position by key that `getRowIndex` performs, and the
 * cursor clamp the table widget applies when its cursor is set.
 */
module Table {
  import opened Wrappers
  import opened Strconv
  import opened Tasks

  /** A table cell: plain text, or a date shown in its `time.DateOnly` form. */
  datatype Cell = Text(text: string) | Date(at: Timestamp)

  /** One table row; the columns are "#", "Done", "Task", "CreatedAt" and "CompletedAt". */
  datatype Row = Row(key: string, done: string, task: string, createdAt: Cell, completedAt: Cell)

  const DoneMark: string := "\U{2705}"
  const OpenMark: string := "\U{274C}"
  const NoDate: string := "-"

  /** Whether a task gets a row: completed tasks are dropped when they are hidden. */
  predicate Visible(t: Task, hideCompleted: bool) { !(hideCompleted && t.completed) }

  /** The row shown for the task at canonical index `idx`. */
  function MakeRow(idx: nat, t: Task): (r: Row)
    ensures Atoi(r.key) == Some(idx)
    ensures r.done == DoneMark <==> t.completed
    ensures r.done == OpenMark <==> !t.completed
    ensures r.task == t.title && r.createdAt == Date(t.createdAt)
    ensures r.completedAt == Text(NoDate) <==> t.completedAt.None?
    ensures t.completedAt.Some? ==> r.completedAt == Date(t.completedAt.value)
  {
    AtoiItoa(idx);
    var done := if t.completed then DoneMark else OpenMark;
    var completedAt := if t.completedAt.Some? then Date(t.completedAt.value) else Text(NoDate);
    Row(Itoa(idx), done, t.title, Date(t.createdAt), completedAt)
  }

  /** The canonical indices of the tasks that get a row, in list order. */
  ghost function Canon(ts: seq<Task>, hideCompleted: bool): seq<nat>
  {
    CanonUpTo(ts, hideCompleted, |ts|)
  }

  /** `Canon` restricted to the first `n` tasks. */
  ghost function CanonUpTo(ts: seq<Task>, hideCompleted: bool, n: nat): seq<nat>
    requires n <= |ts|
  {
    if n == 0 then []
    else CanonUpTo(ts, hideCompleted, n - 1) + (if Visible(ts[n - 1], hideCompleted) then [n - 1] else [])
  }

  /** The rows of the table, one per visible task, keyed by canonical index. */
  ghost function Project(ts: seq<Task>, hideCompleted: bool): seq<Row>
  {
    ProjectUpTo(ts, hideCompleted, |ts|)
  }

  /** The rows `newTable` has built after looking at the first `n` tasks. */
  ghost function ProjectUpTo(ts: seq<Task>, hideCompleted: bool, n: nat): seq<Row>
    requires n <= |ts|
  {
    if n == 0 then []
    else
      ProjectUpTo(ts, hideCompleted, n - 1) +
      (if Visible(ts[n - 1], hideCompleted) then [MakeRow(n - 1, ts[n - 1])] else [])
  }

  lemma {:induction false} CanonUpToShape(ts: seq<Task>, hideCompleted: bool, n: nat)
    requires n <= |ts|
    ensures |CanonUpTo(ts, hideCompleted, n)| <= n
    ensures forall k :: 0 <= k < |CanonUpTo(ts, hideCompleted, n)| ==>
              CanonUpTo(ts, hideCompleted, n)[k] < n && Visible(ts[CanonUpTo(ts, hideCompleted, n)[k]], hideCompleted)
    ensures forall p, q :: 0 <= p < q < |CanonUpTo(ts, hideCompleted, n)| ==>
              CanonUpTo(ts, hideCompleted, n)[p] < CanonUpTo(ts, hideCompleted, n)[q]
    ensures forall i :: 0 <= i < n && Visible(ts[i], hideCompleted) ==> i in CanonUpTo(ts, hideCompleted, n)
  {
    if n > 0 {
      CanonUpToShape(ts, hideCompleted, n - 1);
    }
  }

  /**
   * The shown indices are exactly the visible ones: each is in range and
   * visible, they strictly increase, and no visible index is missing.
   */
  lemma CanonShape(ts: seq<Task>, hideCompleted: bool)
    ensures |Canon(ts, hideCompleted)| <= |ts|
    ensures forall k :: 0 <= k < |Canon(ts, hideCompleted)| ==>
              Canon(ts, hideCompleted)[k] < |ts| && Visible(ts[Canon(ts, hideCompleted)[k]], hideCompleted)
    ensures forall p, q :: 0 <= p < q < |Canon(ts, hideCompleted)| ==> Canon(ts, hideCompleted)[p] < Canon(ts, hideCompleted)[q]
    ensures forall i :: 0 <= i < |ts| && Visible(ts[i], hideCompleted) ==> i in Canon(ts, hideCompleted)
  {
    CanonUpToShape(ts, hideCompleted, |ts|);
  }

  lemma {:induction false} ProjectUpToRows(ts: seq<Task>, hideCompleted: bool, n: nat)
    requires n <= |ts|
    ensures |ProjectUpTo(ts, hideCompleted, n)| == |CanonUpTo(ts, hideCompleted, n)|
    ensures forall k :: 0 <= k < |ProjectUpTo(ts, hideCompleted, n)| ==>
              CanonUpTo(ts, hideCompleted, n)[k] < n &&
              ProjectUpTo(ts, hideCompleted, n)[k] ==
                MakeRow(CanonUpTo(ts, hideCompleted, n)[k], ts[CanonUpTo(ts, hideCompleted, n)[k]])
  {
    if n > 0 {
      ProjectUpToRows(ts, hideCompleted, n - 1);
      var prevRows, prevIdx := ProjectUpTo(ts, hideCompleted, n - 1), CanonUpTo(ts, hideCompleted, n - 1);
      var rows, idx := ProjectUpTo(ts, hideCompleted, n), CanonUpTo(ts, hideCompleted, n);
      forall k | 0 <= k < |prevRows|
        ensures idx[k] < n && rows[k] == MakeRow(idx[k], ts[idx[k]])
      {
        assert rows[k] == prevRows[k] && idx[k] == prevIdx[k];
      }
    }
  }

  /** Row `k` of the table shows the task at the `k`-th shown canonical index. */
  lemma ProjectRows(ts: seq<Task>, hideCompleted: bool)
    ensures |Project(ts, hideCompleted)| == |Canon(ts, hideCompleted)|
    ensures forall k :: 0 <= k < |Project(ts, hideCompleted)| ==>
              Canon(ts, hideCompleted)[k] < |ts| &&
              Project(ts, hideCompleted)[k] == MakeRow(Canon(ts, hideCompleted)[k], ts[Canon(ts, hideCompleted)[k]])
  {
    ProjectUpToRows(ts, hideCompleted, |ts|);
  }

  lemma {:induction false} CanonUpToAll(ts: seq<Task>, n: nat)
    requires n <= |ts|
    ensures |CanonUpTo(ts, false, n)| == n
    ensures forall k :: 0 <= k < n ==> CanonUpTo(ts, false, n)[k] == k
  {
    if n > 0 {
      CanonUpToAll(ts, n - 1);
    }
  }

  /** With nothing hidden there is exactly one row per task, in list order. */
  lemma ProjectShowsAll(ts: seq<Task>)
    ensures |Canon(ts, false)| == |ts|
    ensures forall k :: 0 <= k < |ts| ==> Canon(ts, false)[k] == k
    ensures |Project(ts, false)| == |ts|
    ensures forall k :: 0 <= k < |ts| ==> Project(ts, false)[k] == MakeRow(k, ts[k])
  {
    CanonUpToAll(ts, |ts|);
    ProjectRows(ts, false);
  }

  /**
   * With completed tasks hidden, every row shows an open task: its Done
   * column is the open mark and, in a well-formed list, it has no completion date.
   */
  lemma ProjectHidesCompleted(ts: seq<Task>)
    ensures forall k :: 0 <= k < |Project(ts, true)| ==> Project(ts, true)[k].done == OpenMark
    ensures AllWellFormed(ts) ==>
              forall k :: 0 <= k < |Project(ts, true)| ==> Project(ts, true)[k].completedAt == Text(NoDate)
  {
    ProjectRows(ts, true);
    CanonShape(ts, true);
  }

  /** Each row's key parses back to its task's canonical index, so keys are distinct and increasing. */
  lemma RowKeys(ts: seq<Task>, hideCompleted: bool)
    ensures |Project(ts, hideCompleted)| == |Canon(ts, hideCompleted)|
    ensures forall k :: 0 <= k < |Project(ts, hideCompleted)| ==>
              Atoi(Project(ts, hideCompleted)[k].key) == Some(Canon(ts, hideCompleted)[k] as int)
    ensures forall p, q ::
              (0 <= p < |Project(ts, hideCompleted)| && 0 <= q < |Project(ts, hideCompleted)| &&
               Project(ts, hideCompleted)[p].key == Project(ts, hideCompleted)[q].key) ==> p == q
  {
    ProjectRows(ts, hideCompleted);
    CanonShape(ts, hideCompleted);
    var rows, c := Project(ts, hideCompleted), Canon(ts, hideCompleted);
    forall p, q | 0 <= p < |rows| && 0 <= q < |rows| && rows[p].key == rows[q].key
      ensures p == q
    {
      assert Atoi(rows[p].key) == Some(c[p] as int);
      assert Atoi(rows[q].key) == Some(c[q] as int);
    }
  }

  /** Three tasks with the middle one completed and hidden give the keys "0" and "2". */
  lemma HiddenKeysSkip(a: Task, b: Task, c: Task)
    requires !a.completed && b.completed && !c.completed
    ensures |Project([a, b, c], true)| == 2
    ensures Project([a, b, c], true)[0].key == "0" && Project([a, b, c], true)[1].key == "2"
  {
    var ts := [a, b, c];
    assert ProjectUpTo(ts, true, 1) == [MakeRow(0, a)];
    assert ProjectUpTo(ts, true, 2) == [MakeRow(0, a)];
    assert Project(ts, true) == [MakeRow(0, a), MakeRow(2, c)];
    assert Itoa(0) == "0" && Itoa(2) == "2";
  }

  /**
   * `newTable`'s loop: walk the list once, skip hidden tasks, and append a
   * row keyed by the task's canonical index.
   */
  method NewTable(ts: seq<Task>, hideCompleted: bool) returns (rows: seq<Row>)
    ensures rows == Project(ts, hideCompleted)
  {
    rows := [];
    for idx := 0 to |ts|
      invariant rows == ProjectUpTo(ts, hideCompleted, idx)
    {
      var t := ts[idx];
      if hideCompleted && t.completed {
        continue;
      }
      var completed := OpenMark;
      if t.completed {
        completed := DoneMark;
      }
      var completedAt := Text(NoDate);
      if t.completedAt.Some? {
        completedAt := Date(t.completedAt.value);
      }
      rows := rows + [Row(Itoa(idx), completed, t.title, Date(t.createdAt), completedAt)];
    }
  }

  /** The position of the first row with this key, or the row count when there is none. */
  function Position(rows: seq<Row>, key: string): (p: nat)
    ensures p <= |rows|
    ensures forall j :: 0 <= j < p ==> rows[j].key != key
    ensures p < |rows| ==> rows[p].key == key
  {
    if rows == [] then 0
    else if rows[0].key == key then 0
    else 1 + Position(rows[1..], key)
  }

  /** What `getRowIndex` answers: the first row with the key, or 0 when no row has it. */
  function RowIndexOf(rows: seq<Row>, key: string): (i: int)
    ensures 0 <= i && (rows != [] ==> i < |rows|)
    ensures (exists j :: 0 <= j < |rows| && rows[j].key == key) ==>
              rows[i].key == key && forall j :: 0 <= j < i ==> rows[j].key != key
    ensures (forall j :: 0 <= j < |rows| ==> rows[j].key != key) ==> i == 0
  {
    var p := Position(rows, key);
    if p < |rows| then p else 0
  }

  /** Looking up the key of any row of the table finds that very row. */
  lemma RowIndexRoundTrip(ts: seq<Task>, hideCompleted: bool, k: int)
    requires 0 <= k < |Project(ts, hideCompleted)|
    ensures RowIndexOf(Project(ts, hideCompleted), Project(ts, hideCompleted)[k].key) == k
  {
    RowKeys(ts, hideCompleted);
  }

  /** Which task one row of the table shows. */
  lemma RowAt(ts: seq<Task>, hideCompleted: bool, c: int)
    requires 0 <= c < |Project(ts, hideCompleted)|
    ensures |Project(ts, hideCompleted)| == |Canon(ts, hideCompleted)| <= |ts|
    ensures Canon(ts, hideCompleted)[c] < |ts|
    ensures Project(ts, hideCompleted)[c] == MakeRow(Canon(ts, hideCompleted)[c], ts[Canon(ts, hideCompleted)[c]])
  {
    ProjectRows(ts, hideCompleted);
    CanonShape(ts, hideCompleted);
  }

  /**
   * The table widget's cursor clamp (`SetCursor`): into the rows when there
   * are any, and -1 on an empty table.
   */
  function ClampCursor(n: int, count: nat): (c: int)
    ensures count == 0 ==> c == -1
    ensures count > 0 ==> 0 <= c < count
    ensures 0 <= n < count ==> c == n
    ensures count > 0 && n >= count ==> c == count - 1
    ensures count > 0 && n < 0 ==> c == 0
  {
    var low := if n < 0 then 0 else n;
    if low > count - 1 then count - 1 else low
  }
}

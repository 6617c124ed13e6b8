/**
 * The task store: the ordered list of tasks the view mutates by index.
 * The slice-backed store the view calls is not part of this model; these
 * definitions follow the SQL-backed store of todo/todo.go: a new task is
 * not completed, `edit` changes only the text, `toggle` flips completion and
 * stamps the completion time, `delete` removes the task, and the list is
 * newest first. An index outside the list leaves it unchanged.
 */
module Tasks {
  import opened Wrappers

  /** A point in time; reading the clock and formatting dates are outside the model. */
  datatype Timestamp = Timestamp(ticks: int)

  datatype Task = Task(title: string, createdAt: Timestamp, completed: bool, completedAt: Option<Timestamp>)

  /** A task carries a completion time exactly when it is completed. */
  predicate WellFormed(t: Task) { t.completed <==> t.completedAt.Some? }

  predicate AllWellFormed(ts: seq<Task>) { forall i :: 0 <= i < |ts| ==> WellFormed(ts[i]) }

  predicate ValidIndex(ts: seq<Task>, i: int) { 0 <= i < |ts| }

  /** Creates a task that is not completed and puts it first. */
  function Add(ts: seq<Task>, title: string, now: Timestamp): (r: seq<Task>)
    ensures |r| == |ts| + 1
    ensures r[0].title == title && r[0].createdAt == now && !r[0].completed
    ensures r[1..] == ts
    ensures AllWellFormed(ts) ==> AllWellFormed(r)
  {
    [Task(title, now, false, None)] + ts
  }

  /** Flips the completion of task `i`, stamping `now` when it becomes completed. */
  function Toggle(ts: seq<Task>, i: int, now: Timestamp): (r: seq<Task>)
    ensures |r| == |ts|
    ensures ValidIndex(ts, i) ==>
              && r == ts[i := r[i]]
              && r[i].title == ts[i].title
              && r[i].createdAt == ts[i].createdAt
              && r[i].completed == !ts[i].completed
              && r[i].completedAt == (if r[i].completed then Some(now) else None)
    ensures !ValidIndex(ts, i) ==> r == ts
    ensures AllWellFormed(ts) ==> AllWellFormed(r)
  {
    if ValidIndex(ts, i) then
      var t := ts[i];
      ts[i := t.(completed := !t.completed, completedAt := if t.completed then None else Some(now))]
    else ts
  }

  /** Replaces the text of task `i` and nothing else. */
  function Edit(ts: seq<Task>, i: int, title: string): (r: seq<Task>)
    ensures |r| == |ts|
    ensures ValidIndex(ts, i) ==>
              && r == ts[i := r[i]]
              && r[i].title == title
              && r[i].createdAt == ts[i].createdAt
              && r[i].completed == ts[i].completed
              && r[i].completedAt == ts[i].completedAt
    ensures !ValidIndex(ts, i) ==> r == ts
    ensures AllWellFormed(ts) ==> AllWellFormed(r)
  {
    if ValidIndex(ts, i) then ts[i := ts[i].(title := title)] else ts
  }

  /** Removes task `i`; the tasks after it move up by one place. */
  function Delete(ts: seq<Task>, i: int): (r: seq<Task>)
    ensures ValidIndex(ts, i) ==>
              && |r| == |ts| - 1
              && r[..i] == ts[..i]
              && r[i..] == ts[i + 1..]
    ensures !ValidIndex(ts, i) ==> r == ts
    ensures AllWellFormed(ts) ==> AllWellFormed(r)
  {
    if ValidIndex(ts, i) then
      assert ts == ts[..i] + [ts[i]] + ts[i + 1..];
      ts[..i] + ts[i + 1..]
    else ts
  }

  /** Deleting takes out exactly one copy of the deleted task and keeps every other task. */
  lemma DeleteRemovesOne(ts: seq<Task>, i: int)
    requires ValidIndex(ts, i)
    ensures multiset(Delete(ts, i)) + multiset{ts[i]} == multiset(ts)
  {
    assert ts == ts[..i] + [ts[i]] + ts[i + 1..];
  }

  /** Adds the titles one after another, as successive calls to `Add` do. */
  function AddAll(ts: seq<Task>, titles: seq<string>, now: Timestamp): seq<Task>
    decreases |titles|
  {
    if titles == [] then ts else AddAll(Add(ts, titles[0], now), titles[1..], now)
  }

  /** The tasks a series of adds creates, newest first. */
  function Created(titles: seq<string>, now: Timestamp): seq<Task>
    decreases |titles|
  {
    if titles == [] then [] else Created(titles[1..], now) + [Task(titles[0], now, false, None)]
  }

  /** After a series of adds the new tasks come first, the last one added at the front, ahead of the old list. */
  lemma {:induction false} AddAllNewestFirst(ts: seq<Task>, titles: seq<string>, now: Timestamp)
    decreases |titles|
    ensures AddAll(ts, titles, now) == Created(titles, now) + ts
  {
    if titles != [] {
      var t := Task(titles[0], now, false, None);
      assert AddAll(ts, titles, now) == AddAll([t] + ts, titles[1..], now);
      AddAllNewestFirst([t] + ts, titles[1..], now);
      assert Created(titles[1..], now) + ([t] + ts) == Created(titles, now) + ts;
    }
  }

  /** The created tasks are open and carry the titles in reverse order. */
  lemma {:induction false} CreatedReversed(titles: seq<string>, now: Timestamp)
    decreases |titles|
    ensures |Created(titles, now)| == |titles|
    ensures forall k :: 0 <= k < |titles| ==> Created(titles, now)[k] == Task(titles[|titles| - 1 - k], now, false, None)
  {
    if titles != [] {
      CreatedReversed(titles[1..], now);
      var c := Created(titles, now);
      var prev := Created(titles[1..], now);
      forall k | 0 <= k < |prev|
        ensures c[k] == Task(titles[|titles| - 1 - k], now, false, None)
      {
        assert c[k] == prev[k];
        assert titles[1..][|prev| - 1 - k] == titles[|titles| - 1 - k];
      }
    }
  }

  /**
   * Toggling twice restores the task, provided the second toggle happens at
   * the time the task was completed (or the task started out not completed).
   */
  lemma ToggleTwice(ts: seq<Task>, i: int, now1: Timestamp, now2: Timestamp)
    requires ValidIndex(ts, i) && WellFormed(ts[i])
    requires ts[i].completed ==> ts[i].completedAt == Some(now2)
    ensures Toggle(Toggle(ts, i, now1), i, now2) == ts
  {
  }

  /** Two adds, a toggle of the older task and a delete of the newer one leave the older task, completed. */
  lemma StoreScenario(t1: Timestamp, t2: Timestamp, t3: Timestamp)
    ensures Delete(Toggle(Add(Add([], "Buy milk", t1), "Buy bread", t2), 1, t3), 0) ==
            [Task("Buy milk", t1, true, Some(t3))]
  {
    var s2 := Add(Add([], "Buy milk", t1), "Buy bread", t2);
    assert s2 == [Task("Buy bread", t2, false, None), Task("Buy milk", t1, false, None)];
  }
}

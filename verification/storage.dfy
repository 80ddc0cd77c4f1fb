/** The storage helpers over the `tasks` key and the validation step of
    `addTask`. The stored list is `None` when the key has never been written. */
module Storage {
  import opened Wrappers
  import opened Tasks
  import opened Text

  /** `saveLocalTasks(task)`: reads the list (an absent one as empty), appends
      `task` and writes the list back; the old list is a prefix of the new. */
  function SaveLocalTasks(stored: Option<seq<Task>>, task: Task): (r: seq<Task>)
    ensures var ts := stored.GetOr([]);
      |r| == |ts| + 1 && r[..|ts|] == ts && r[|ts|] == task
  {
    stored.GetOr([]) + [task]
  }

  /** Sets `completed` to `status` on every task whose identifier is `id`;
      every other field and every other task stays as it was. */
  function SetStatus(ts: seq<Task>, id: TaskId, status: bool): (r: seq<Task>)
    ensures |r| == |ts|
    ensures forall i :: 0 <= i < |ts| ==> SameIdentity(r[i], ts[i]) && r[i].lastNotified == ts[i].lastNotified
    ensures forall i :: 0 <= i < |ts| ==> r[i].completed == if ts[i].id == id then status else ts[i].completed
  {
    if ts == [] then []
    else
      var t := ts[0];
      [if t.id == id then t.(completed := status) else t] + SetStatus(ts[1..], id, status)
  }

  /** Setting the status of an identifier no task carries changes nothing. */
  lemma {:induction false} SetStatusAbsent(ts: seq<Task>, id: TaskId, status: bool)
    requires !HasId(ts, id)
    ensures SetStatus(ts, id, status) == ts
  {
    if ts != [] {
      assert !HasId(ts[1..], id);
      SetStatusAbsent(ts[1..], id, status);
      assert ts == [ts[0]] + ts[1..];
    }
  }

  /** Only the last of two status updates of one identifier shows. */
  lemma SetStatusTwice(ts: seq<Task>, id: TaskId, a: bool, b: bool)
    ensures SetStatus(SetStatus(ts, id, a), id, b) == SetStatus(ts, id, b)
  {
    var l, r := SetStatus(SetStatus(ts, id, a), id, b), SetStatus(ts, id, b);
    assert forall i :: 0 <= i < |ts| ==> l[i] == r[i];
  }

  /** `updateTaskStatus(id, status)`: nothing happens when no list is stored. */
  function UpdateTaskStatus(stored: Option<seq<Task>>, id: TaskId, status: bool): (r: Option<seq<Task>>)
    ensures r.None? <==> stored.None?
    ensures r.Some? ==> r.value == SetStatus(stored.value, id, status)
  {
    match stored
    case None => None
    case Some(ts) => Some(SetStatus(ts, id, status))
  }

  /** The tasks whose identifier is not `id`, in their original order:
      a task is kept exactly when it does not carry `id`, and the list
      shrinks by the number of tasks that carry it. */
  function Without(ts: seq<Task>, id: TaskId): (r: seq<Task>)
    ensures forall t :: t in r <==> t in ts && t.id != id
    ensures |r| == |ts| - CountId(ts, id)
  {
    if ts == [] then []
    else if ts[0].id == id then Without(ts[1..], id)
    else [ts[0]] + Without(ts[1..], id)
  }

  /** `removeLocalTask(id)`: nothing happens when no list is stored. */
  function RemoveLocalTask(stored: Option<seq<Task>>, id: TaskId): (r: Option<seq<Task>>)
    ensures r.None? <==> stored.None?
    ensures r.Some? ==> r.value == Without(stored.value, id)
  {
    match stored
    case None => None
    case Some(ts) => Some(Without(ts, id))
  }

  /** Removing an identifier no task carries changes nothing. */
  lemma {:induction false} WithoutAbsent(ts: seq<Task>, id: TaskId)
    requires !HasId(ts, id)
    ensures Without(ts, id) == ts
  {
    if ts != [] {
      assert !HasId(ts[1..], id);
      assert ts[0].id != id;
      WithoutAbsent(ts[1..], id);
      assert ts == [ts[0]] + ts[1..];
    }
  }

  /** Removal keeps the relative order: it works piecewise on a concatenation. */
  lemma {:induction false} WithoutConcat(a: seq<Task>, b: seq<Task>, id: TaskId)
    ensures Without(a + b, id) == Without(a, id) + Without(b, id)
  {
    if a != [] {
      assert (a + b)[1..] == a[1..] + b;
      WithoutConcat(a[1..], b, id);
    } else {
      assert a + b == b;
    }
  }

  /** Removing twice removes nothing more. */
  lemma WithoutIdempotent(ts: seq<Task>, id: TaskId)
    ensures Without(Without(ts, id), id) == Without(ts, id)
  {
    var r := Without(ts, id);
    assert !HasId(r, id);
    WithoutAbsent(r, id);
  }

  /** Removal keeps identifiers unique. */
  lemma {:induction false} WithoutKeepsUniqueIds(ts: seq<Task>, id: TaskId)
    requires UniqueIds(ts)
    ensures UniqueIds(Without(ts, id))
  {
    if ts != [] {
      var rest := Without(ts[1..], id);
      WithoutKeepsUniqueIds(ts[1..], id);
      if ts[0].id != id {
        forall j | 0 < j < |[ts[0]] + rest|
          ensures ([ts[0]] + rest)[j].id != ts[0].id
        {
          var t := rest[j - 1];
          assert t in rest;
          var k :| 0 <= k < |ts[1..]| && ts[1..][k] == t;
          assert ts[k + 1] == t;
        }
      }
    }
  }

  /** Updating the status by identifier keeps identifiers unique. */
  lemma SetStatusKeepsUniqueIds(ts: seq<Task>, id: TaskId, status: bool)
    requires UniqueIds(ts)
    ensures UniqueIds(SetStatus(ts, id, status))
  {
  }

  /** The toast shown when the new task's text is blank. */
  const EmptyTextMessage := "Pehle task likhein!"

  /** What `addTask` does with the input: show a toast and change nothing, or
      store the extended list. */
  datatype AddOutcome = Rejected(message: string) | Added(stored: seq<Task>)

  /** The record `addTask` builds: trimmed text, not completed, never notified. */
  function NewTask(id: TaskId, input: string, time: string, isDaily: bool): Task {
    Task(id, Trim(input), time, isDaily, false, None)
  }

  /** `addTask`: text that is blank after trimming is refused with a toast and
      nothing is stored; otherwise exactly one fresh record is appended after
      the unchanged existing tasks. The identifier (`Date.now()`), the time
      field and the daily flag are inputs. */
  function AddTask(stored: Option<seq<Task>>, input: string, time: string, isDaily: bool, id: TaskId): (r: AddOutcome)
    ensures r.Rejected? <==> AllWhitespace(input)
    ensures r.Rejected? ==> r.message == EmptyTextMessage
    ensures r.Added? ==>
      var ts := stored.GetOr([]);
      && |r.stored| == |ts| + 1
      && r.stored[..|ts|] == ts
      && r.stored[|ts|] == Task(id, Trim(input), time, isDaily, false, None)
      && r.stored[|ts|].text != []
  {
    var text := Trim(input);
    if text == [] then Rejected(EmptyTextMessage)
    else Added(SaveLocalTasks(stored, NewTask(id, input, time, isDaily)))
  }

  /** Adding with an identifier not yet in use keeps identifiers unique. */
  lemma AddKeepsUniqueIds(stored: Option<seq<Task>>, input: string, time: string, isDaily: bool, id: TaskId)
    requires UniqueIds(stored.GetOr([])) && !HasId(stored.GetOr([]), id)
    ensures var r := AddTask(stored, input, time, isDaily, id);
      r.Added? ==> UniqueIds(r.stored)
  {
    var ts := stored.GetOr([]);
    var r := AddTask(stored, input, time, isDaily, id);
    if r.Added? {
      forall i, j | 0 <= i < j < |r.stored| ensures r.stored[i].id != r.stored[j].id {
        if j == |ts| {
          assert r.stored[i] == ts[i];
        } else {
          assert r.stored[i] == ts[i] && r.stored[j] == ts[j];
        }
      }
    }
  }
}

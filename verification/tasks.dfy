/** The task record kept in the `tasks` list of the store. */
module Tasks {
  import opened Wrappers

  /** A task identifier: the creation timestamp in milliseconds. */
  type TaskId = int

  /** One task. `time` is the value of the time-of-day input (`HH:MM`, or empty
      when no reminder is set); `lastNotified` is the `HH:MM` stamp of the last
      reminder shown for it, or `None` (`null`). */
  datatype Task = Task(
    id: TaskId,
    text: string,
    time: string,
    isDaily: bool,
    completed: bool,
    lastNotified: Option<string>)

  /** `a` and `b` are the same task in possibly different progress states:
      only `completed` and `lastNotified` may differ. */
  predicate SameIdentity(a: Task, b: Task) {
    a.id == b.id && a.text == b.text && a.time == b.time && a.isDaily == b.isDaily
  }

  /** No two tasks of the list share an identifier. */
  predicate UniqueIds(ts: seq<Task>) {
    forall i, j :: 0 <= i < j < |ts| ==> ts[i].id != ts[j].id
  }

  /** Some task of the list carries identifier `id`. */
  predicate HasId(ts: seq<Task>, id: TaskId) {
    exists i :: 0 <= i < |ts| && ts[i].id == id
  }

  /** How many tasks of the list carry identifier `id`. */
  function CountId(ts: seq<Task>, id: TaskId): nat {
    if ts == [] then 0
    else (if ts[0].id == id then 1 else 0) + CountId(ts[1..], id)
  }
}

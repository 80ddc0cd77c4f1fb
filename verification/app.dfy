/** The script's event handlers over the whole persisted state: page load
    (daily reset), add, toggle, delete and the reminder poll. Each handler
    reads the store, computes, and writes back, so each is a function from
    state to state. */
module App {
  import opened Wrappers
  import opened Tasks
  import opened Text
  import opened Rewards
  import opened Storage
  import opened DailyReset
  import opened Reminder

  /** The three persisted records: `tasks`, `xp_points`, `last_login_date`. */
  datatype State = State(tasks: Option<seq<Task>>, points: nat, lastLogin: Option<string>)

  /** A task as `addTask` creates it: its text is non-empty and trimmed. */
  predicate WellFormedTask(t: Task) {
    t.text != [] && Trim(t.text) == t.text
  }

  /** What every handler keeps: identifiers unique, every text well formed. */
  predicate Valid(s: State) {
    var ts := s.tasks.GetOr([]);
    UniqueIds(ts) && forall i :: 0 <= i < |ts| ==> WellFormedTask(ts[i])
  }

  /** A list with the same identities, element by element. */
  predicate SameIdentities(a: seq<Task>, b: seq<Task>) {
    |a| == |b| && forall i :: 0 <= i < |a| ==> SameIdentity(a[i], b[i])
  }

  /** Changing only progress fields keeps the invariant. */
  lemma SameIdentitiesKeepValid(s: State, r: State)
    requires Valid(s)
    requires SameIdentities(r.tasks.GetOr([]), s.tasks.GetOr([]))
    ensures Valid(r)
  {
    var a, b := r.tasks.GetOr([]), s.tasks.GetOr([]);
    assert forall i :: 0 <= i < |a| ==> a[i].id == b[i].id && a[i].text == b[i].text;
  }

  /** Page load (`DOMContentLoaded`): the daily reset sweep. */
  function Load(s: State, today: string): (r: State)
    ensures r.points == s.points && r.lastLogin == Some(today)
    ensures s.lastLogin == Some(today) ==> r == s
    // On a new day the list is present and keeps every identity; that follows
    // from the next clause and the contract of `CheckDailyReset`.
    ensures DayState(r.tasks, r.lastLogin) == CheckDailyReset(DayState(s.tasks, s.lastLogin), today)
  {
    var d := CheckDailyReset(DayState(s.tasks, s.lastLogin), today);
    State(d.stored, s.points, d.lastLogin)
  }

  lemma LoadKeepsValid(s: State, today: string)
    requires Valid(s)
    ensures Valid(Load(s, today))
  {
    var d := CheckDailyReset(DayState(s.tasks, s.lastLogin), today);
    assert d.stored.GetOr([]) == Load(s, today).tasks.GetOr([]);
    assert SameIdentities(d.stored.GetOr([]), s.tasks.GetOr([]));
    SameIdentitiesKeepValid(s, Load(s, today));
  }

  /** The state after an add, and the toast shown when it was refused. */
  datatype AddResult = AddResult(state: State, toast: Option<string>)

  /** `addTask`: a blank text shows a toast and changes nothing; otherwise the
      new task is stored. Points and the login marker never change. */
  function Add(s: State, input: string, time: string, isDaily: bool, id: TaskId): (r: AddResult)
    ensures r.toast.Some? <==> AllWhitespace(input)
    ensures r.toast.Some? ==> r.state == s
    ensures r.state.points == s.points && r.state.lastLogin == s.lastLogin
    ensures r.toast.None? ==>
      var ts := s.tasks.GetOr([]);
      && r.state.tasks.Some?
      && r.state.tasks.value == ts + [Task(id, Trim(input), time, isDaily, false, None)]
  {
    match AddTask(s.tasks, input, time, isDaily, id)
    case Rejected(msg) => AddResult(s, Some(msg))
    case Added(ts) => AddResult(s.(tasks := Some(ts)), None)
  }

  /** Adding with an identifier not yet in use keeps the invariant. */
  lemma AddKeepsValid(s: State, input: string, time: string, isDaily: bool, id: TaskId)
    requires Valid(s) && !HasId(s.tasks.GetOr([]), id)
    ensures Valid(Add(s, input, time, isDaily, id).state)
  {
    var r := Add(s, input, time, isDaily, id);
    if r.toast.None? {
      AddKeepsUniqueIds(s.tasks, input, time, isDaily, id);
      TrimIdempotent(input);
      var ts, us := s.tasks.GetOr([]), r.state.tasks.value;
      forall i | 0 <= i < |us| ensures WellFormedTask(us[i]) {
        if i < |ts| {
          assert us[i] == ts[i];
        }
      }
    }
  }

  /** The state after a toggle, and the level announced when it went up. */
  datatype ToggleResult = ToggleResult(state: State, levelUp: Option<nat>)

  /** A click on a task row: the reward engine runs on the new completion
      state, then the task's `completed` flag is stored. */
  function Toggle(s: State, id: TaskId, isDone: bool): (r: ToggleResult)
    ensures r.state.points == HandleRewards(s.points, isDone).points
    ensures r.levelUp == HandleRewards(s.points, isDone).levelUp
    ensures r.state.tasks == UpdateTaskStatus(s.tasks, id, isDone)
    ensures r.state.lastLogin == s.lastLogin
  {
    var reward := HandleRewards(s.points, isDone);
    ToggleResult(State(UpdateTaskStatus(s.tasks, id, isDone), reward.points, s.lastLogin), reward.levelUp)
  }

  lemma ToggleKeepsValid(s: State, id: TaskId, isDone: bool)
    requires Valid(s)
    ensures Valid(Toggle(s, id, isDone).state)
  {
    SameIdentitiesKeepValid(s, Toggle(s, id, isDone).state);
  }

  /** The delete button: the task's record is removed from the store. */
  function Delete(s: State, id: TaskId): (r: State)
    ensures r.points == s.points && r.lastLogin == s.lastLogin
    ensures r.tasks == RemoveLocalTask(s.tasks, id)
    ensures !HasId(r.tasks.GetOr([]), id)
  {
    s.(tasks := RemoveLocalTask(s.tasks, id))
  }

  lemma DeleteKeepsValid(s: State, id: TaskId)
    requires Valid(s)
    ensures Valid(Delete(s, id))
  {
    if s.tasks.Some? {
      var ts := s.tasks.value;
      var r := Without(ts, id);
      WithoutKeepsUniqueIds(ts, id);
      forall i | 0 <= i < |r| ensures WellFormedTask(r[i]) {
        assert r[i] in r;
      }
    }
  }

  /** One reminder poll at wall-clock reading `now`. */
  function OnPoll(s: State, now: Clock): (r: (State, seq<string>))
    ensures r.0.points == s.points && r.0.lastLogin == s.lastLogin
    ensures TickResult(r.0.tasks, r.1) == Poll(s.tasks, now)
  {
    var t := Poll(s.tasks, now);
    (s.(tasks := t.stored), t.alerts)
  }

  /** A reminder tick at any formatted time keeps the invariant. */
  lemma TickKeepsValid(s: State, current: string)
    requires Valid(s)
    ensures Valid(s.(tasks := TickAt(s.tasks, current).stored))
  {
    var r := s.(tasks := TickAt(s.tasks, current).stored);
    if r.tasks != s.tasks {
      assert SameIdentities(r.tasks.value, s.tasks.GetOr([]));
    }
    SameIdentitiesKeepValid(s, r);
  }

  lemma OnPollKeepsValid(s: State, now: Clock)
    requires Valid(s)
    ensures Valid(OnPoll(s, now).0)
  {
    TickKeepsValid(s, ClockText(now));
  }

  /** One add as the form submits it. */
  datatype AddRequest = AddRequest(input: string, time: string, isDaily: bool, id: TaskId)

  /** A session of adds, one after the other. */
  function AddEach(s: State, reqs: seq<AddRequest>): State
    decreases |reqs|
  {
    if reqs == [] then s
    else
      var q := reqs[0];
      AddEach(Add(s, q.input, q.time, q.isDaily, q.id).state, reqs[1..])
  }

  predicate NonBlank(reqs: seq<AddRequest>) {
    forall k :: 0 <= k < |reqs| ==> !AllWhitespace(reqs[k].input)
  }

  /** After adds with non-blank text, the stored list has grown by exactly
      the number of adds, and the tasks there before are still its prefix. */
  lemma {:induction false} AddEachCount(s: State, reqs: seq<AddRequest>)
    requires NonBlank(reqs)
    ensures var ts, us := s.tasks.GetOr([]), AddEach(s, reqs).tasks.GetOr([]);
      |us| == |ts| + |reqs| && us[..|ts|] == ts
    decreases |reqs|
  {
    if reqs != [] {
      var q := reqs[0];
      var s' := Add(s, q.input, q.time, q.isDaily, q.id).state;
      assert NonBlank(reqs[1..]) by {
        forall k | 0 <= k < |reqs[1..]| ensures !AllWhitespace(reqs[1..][k].input) {
          assert reqs[1..][k] == reqs[k + 1];
        }
      }
      AddEachCount(s', reqs[1..]);
      var ts, ms := s.tasks.GetOr([]), s'.tasks.GetOr([]);
      var us := AddEach(s', reqs[1..]).tasks.GetOr([]);
      assert us[..|ts|] == us[..|ms|][..|ts|];
    }
  }

  /** Identifiers that are distinct and not yet in use. */
  predicate FreshIds(s: State, reqs: seq<AddRequest>) {
    && (forall k :: 0 <= k < |reqs| ==> !HasId(s.tasks.GetOr([]), reqs[k].id))
    && (forall k, l :: 0 <= k < l < |reqs| ==> reqs[k].id != reqs[l].id)
  }

  /** An add stores no identifier but its own. */
  lemma AddKeepsAbsent(s: State, input: string, time: string, isDaily: bool, id: TaskId, other: TaskId)
    requires !HasId(s.tasks.GetOr([]), other) && other != id
    ensures !HasId(Add(s, input, time, isDaily, id).state.tasks.GetOr([]), other)
  {
    var ts := s.tasks.GetOr([]);
    var us := Add(s, input, time, isDaily, id).state.tasks.GetOr([]);
    assert forall i :: 0 <= i < |ts| ==> us[i] == ts[i];
  }

  /** A session of adds with fresh, distinct identifiers keeps the invariant. */
  lemma {:induction false} AddEachKeepsValid(s: State, reqs: seq<AddRequest>)
    requires Valid(s) && FreshIds(s, reqs)
    ensures Valid(AddEach(s, reqs))
    decreases |reqs|
  {
    if reqs != [] {
      var q := reqs[0];
      var r := Add(s, q.input, q.time, q.isDaily, q.id);
      AddKeepsValid(s, q.input, q.time, q.isDaily, q.id);
      var rest := reqs[1..];
      forall k | 0 <= k < |rest| ensures !HasId(r.state.tasks.GetOr([]), rest[k].id) {
        assert rest[k] == reqs[k + 1];
        AddKeepsAbsent(s, q.input, q.time, q.isDaily, q.id, rest[k].id);
      }
      assert forall k, l :: 0 <= k < l < |rest| ==> rest[k] == reqs[k + 1] && rest[l] == reqs[l + 1];
      assert FreshIds(r.state, rest);
      AddEachKeepsValid(r.state, rest);
    }
  }
}

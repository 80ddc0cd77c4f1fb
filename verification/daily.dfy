/** The daily reset sweep run once per page load: on the first load of a new
    calendar day, every recurring task becomes open again. A day is the opaque
    string the browser's `toDateString()` produces. */
module DailyReset {
  import opened Wrappers
  import opened Tasks

  /** A recurring task made open and un-notified; other tasks as they are. */
  function ResetTask(t: Task): (r: Task)
    ensures SameIdentity(r, t)
    ensures t.isDaily ==> !r.completed && r.lastNotified == None
    ensures !t.isDaily ==> r == t
  {
    if t.isDaily then t.(completed := false, lastNotified := None) else t
  }

  /** The sweep over the list: same length and order, every recurring task
      reset, every other task untouched. */
  function Sweep(ts: seq<Task>): (r: seq<Task>)
    ensures |r| == |ts|
    ensures forall i :: 0 <= i < |ts| ==> SameIdentity(r[i], ts[i])
    ensures forall i :: 0 <= i < |ts| && ts[i].isDaily ==> !r[i].completed && r[i].lastNotified == None
    ensures forall i :: 0 <= i < |ts| && !ts[i].isDaily ==> r[i] == ts[i]
  {
    if ts == [] then [] else [ResetTask(ts[0])] + Sweep(ts[1..])
  }

  /** Sweeping an already swept list changes nothing. */
  lemma SweepIdempotent(ts: seq<Task>)
    ensures Sweep(Sweep(ts)) == Sweep(ts)
  {
  }

  /** The stored list and the last-login marker. */
  datatype DayState = DayState(stored: Option<seq<Task>>, lastLogin: Option<string>)

  /** `checkDailyReset()`: when the marker differs from `today` (or is
      missing), the list read as empty when absent is swept and written back,
      and the marker becomes `today`; on the same day nothing changes. */
  function CheckDailyReset(s: DayState, today: string): (r: DayState)
    ensures r.lastLogin == Some(today)
    ensures s.lastLogin == Some(today) ==> r == s
    ensures s.lastLogin != Some(today) ==>
      && r.stored.Some?
      && var ts := s.stored.GetOr([]);
      && |r.stored.value| == |ts|
      && (forall i :: 0 <= i < |ts| ==> SameIdentity(r.stored.value[i], ts[i]))
      && (forall i :: 0 <= i < |ts| && ts[i].isDaily ==>
            !r.stored.value[i].completed && r.stored.value[i].lastNotified == None)
      && (forall i :: 0 <= i < |ts| && !ts[i].isDaily ==> r.stored.value[i] == ts[i])
  {
    if s.lastLogin != Some(today) then
      DayState(Some(Sweep(s.stored.GetOr([]))), Some(today))
    else
      s
  }

  /** Running the sweep twice on the same day is the same as running it once. */
  lemma CheckDailyResetIdempotent(s: DayState, today: string)
    ensures CheckDailyReset(CheckDailyReset(s, today), today) == CheckDailyReset(s, today)
  {
  }

  /** After a reset on a new day, another new day resets nothing more:
      the list is already swept. */
  lemma NewDayAfterNewDay(s: DayState, today: string, tomorrow: string)
    requires s.lastLogin != Some(today) && today != tomorrow
    ensures CheckDailyReset(CheckDailyReset(s, today), tomorrow).stored
            == CheckDailyReset(s, today).stored
  {
    SweepIdempotent(s.stored.GetOr([]));
  }
}

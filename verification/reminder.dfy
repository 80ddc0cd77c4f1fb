/** One tick of the reminder poll: the clock is formatted as `HH:MM`, every
    open task due at that minute and not yet reminded for it raises an alert,
    and each such task is stamped with the minute so it does not fire again
    while the clock still reads the same. */
module Reminder {
  import opened Wrappers
  import opened Tasks
  import opened Text

  type Hour = h: nat | h < 24
  type Minute = m: nat | m < 60

  /** The local wall-clock reading the tick sees (`getHours`, `getMinutes`). */
  datatype Clock = Clock(hour: Hour, minute: Minute)

  /** `String(n).padStart(2, '0')` for a clock field. */
  function TwoDigits(n: nat): (r: string)
    requires n < 100
    ensures r == [DigitChar(n / 10), DigitChar(n % 10)]
  {
    PadTwoDigits(n);
    PadStart(DecimalString(n), 2, '0')
  }

  /** The current time as the tick writes it: zero-padded hour, a colon,
      zero-padded minute, five characters in all. */
  function FormatTime(c: Clock): (r: string)
    ensures r == ClockText(c)
  {
    TwoDigits(c.hour) + [':'] + TwoDigits(c.minute)
  }

  /** The five characters `HH:MM` of a clock reading, digit by digit. */
  function ClockText(c: Clock): (r: string)
    ensures |r| == 5 && r[2] == ':'
  {
    [DigitChar(c.hour / 10), DigitChar(c.hour % 10), ':', DigitChar(c.minute / 10), DigitChar(c.minute % 10)]
  }

  /** Reads an `HH:MM` time of day; anything else is `None`. */
  function ParseTime(s: string): Option<Clock> {
    if |s| == 5 && IsDigit(s[0]) && IsDigit(s[1]) && s[2] == ':' && IsDigit(s[3]) && IsDigit(s[4]) then
      var h := DigitValue(s[0]) * 10 + DigitValue(s[1]);
      var m := DigitValue(s[3]) * 10 + DigitValue(s[4]);
      if h < 24 && m < 60 then Some(Clock(h, m)) else None
    else
      None
  }

  lemma DigitRoundTrip(c: char)
    requires IsDigit(c)
    ensures DigitChar(DigitValue(c)) == c
  {
  }

  /** Formatting is undone by parsing. */
  lemma ParseFormatted(c: Clock)
    ensures ParseTime(ClockText(c)) == Some(c)
  {
    var s := ClockText(c);
    var h: nat, m: nat := c.hour, c.minute;
    assert DigitValue(s[0]) == h / 10 && DigitValue(s[1]) == h % 10;
    assert DigitValue(s[3]) == m / 10 && DigitValue(s[4]) == m % 10;
  }

  /** Every well-formed time of day is the format of the clock it denotes. */
  lemma FormatParsed(s: string)
    requires ParseTime(s).Some?
    ensures ClockText(ParseTime(s).value) == s
  {
    DigitRoundTrip(s[0]);
    DigitRoundTrip(s[1]);
    DigitRoundTrip(s[3]);
    DigitRoundTrip(s[4]);
  }

  /** Distinct clock readings give distinct strings, so comparing strings
      compares minutes of the day. */
  lemma ClockTextInjective(a: Clock, b: Clock)
    requires ClockText(a) == ClockText(b)
    ensures a == b
  {
    ParseFormatted(a);
    ParseFormatted(b);
  }

  /** The reminder condition: due at this minute, still open, and not
      already reminded at this minute. */
  predicate Fires(t: Task, current: string) {
    t.time == current && !t.completed && t.lastNotified != Some(current)
  }

  /** Every firing task stamped with `current`; nothing else changes. */
  function Stamp(ts: seq<Task>, current: string): (r: seq<Task>)
    ensures |r| == |ts|
    ensures forall i :: 0 <= i < |ts| && Fires(ts[i], current) ==>
      r[i] == ts[i].(lastNotified := Some(current))
    ensures forall i :: 0 <= i < |ts| && !Fires(ts[i], current) ==> r[i] == ts[i]
    ensures forall i :: 0 <= i < |ts| ==> !Fires(r[i], current)
  {
    if ts == [] then []
    else
      var t := ts[0];
      [if Fires(t, current) then t.(lastNotified := Some(current)) else t] + Stamp(ts[1..], current)
  }

  /** The firing tasks, in list order. */
  function Firing(ts: seq<Task>, current: string): (r: seq<Task>)
    ensures forall t :: t in r <==> t in ts && Fires(t, current)
    ensures |r| <= |ts|
  {
    if ts == [] then []
    else if Fires(ts[0], current) then [ts[0]] + Firing(ts[1..], current)
    else Firing(ts[1..], current)
  }

  /** Selection keeps list order and multiplicity: it works piecewise on a
      concatenation, so a list splits into one-task pieces each alerted at
      most once, in place. */
  lemma {:induction false} FiringConcat(a: seq<Task>, b: seq<Task>, current: string)
    ensures Firing(a + b, current) == Firing(a, current) + Firing(b, current)
  {
    if a != [] {
      assert (a + b)[1..] == a[1..] + b;
      FiringConcat(a[1..], b, current);
    } else {
      assert a + b == b;
    }
  }

  /** A one-task list alerts that task exactly when it meets the condition. */
  lemma FiringSingle(t: Task, current: string)
    ensures Firing([t], current) == if Fires(t, current) then [t] else []
  {
  }

  /** Nothing fires in a list where no task meets the condition. */
  lemma FiringEmpty(ts: seq<Task>, current: string)
    ensures Firing(ts, current) == [] <==> forall i :: 0 <= i < |ts| ==> !Fires(ts[i], current)
  {
    if Firing(ts, current) != [] {
      var t := Firing(ts, current)[0];
      assert t in Firing(ts, current);
    }
  }

  /** Stamping a list with no firing task leaves it as it is. */
  lemma StampQuiet(ts: seq<Task>, current: string)
    requires forall i :: 0 <= i < |ts| ==> !Fires(ts[i], current)
    ensures Stamp(ts, current) == ts
  {
  }

  /** The text of the blocking alert shown for task text `text`. */
  function AlertMessage(text: string): string {
    "\U{23F0} REMINDER: " + text
  }

  /** The state a tick leaves and the alerts it shows, in order. */
  datatype TickResult = TickResult(stored: Option<seq<Task>>, alerts: seq<string>)

  /** The scan of one tick at formatted time `current`: the list (an absent
      one read as empty) yields one alert per firing task, in list order; the
      store is written only when something fired, and then holds the stamped
      list. */
  function TickAt(stored: Option<seq<Task>>, current: string): (r: TickResult)
    ensures var ts := stored.GetOr([]);
      && |r.alerts| == |Firing(ts, current)|
      && (forall k :: 0 <= k < |r.alerts| ==> r.alerts[k] == AlertMessage(Firing(ts, current)[k].text))
      && (r.alerts == [] ==> r.stored == stored)
      && (r.alerts != [] ==> r.stored == Some(Stamp(ts, current)))
  {
    var ts := stored.GetOr([]);
    var fired := Firing(ts, current);
    var alerts := seq(|fired|, k requires 0 <= k < |fired| => AlertMessage(fired[k].text));
    if alerts == [] then TickResult(stored, []) else TickResult(Some(Stamp(ts, current)), alerts)
  }

  /** A task fires at a tick exactly when it is due at that minute, open and
      not yet stamped with it; a firing task ends stamped, every other task
      unchanged, and the stored list keeps its length and order. */
  lemma {:induction false} TickAtEffect(stored: Option<seq<Task>>, current: string, i: nat)
    requires stored.Some? && i < |stored.value|
    ensures var t, r := stored.value[i], TickAt(stored, current);
      && r.stored.Some? && |r.stored.value| == |stored.value|
      && (Fires(t, current) ==> AlertMessage(t.text) in r.alerts)
      && (Fires(t, current) ==> r.stored.value[i] == t.(lastNotified := Some(current)))
      && (!Fires(t, current) ==> r.stored.value[i] == t)
  {
    var ts := stored.value;
    var t := ts[i];
    var r := TickAt(stored, current);
    FiringEmpty(ts, current);
    if r.alerts == [] {
      StampQuiet(ts, current);
    }
    if Fires(t, current) {
      var f := Firing(ts, current);
      assert t in f;
      var k :| 0 <= k < |f| && f[k] == t;
      assert r.alerts[k] == AlertMessage(t.text);
    }
  }

  /** A second tick at the same minute fires nothing and writes nothing. */
  lemma SecondTickQuiet(stored: Option<seq<Task>>, current: string)
    ensures var once := TickAt(stored, current);
      TickAt(once.stored, current) == TickResult(once.stored, [])
  {
    var once := TickAt(stored, current);
    if once.alerts == [] {
      FiringEmpty(stored.GetOr([]), current);
    }
    FiringEmpty(once.stored.GetOr([]), current);
  }

  /** The body of the 30-second poll: the tick at the wall-clock reading
      `now`, written as `HH:MM`. */
  function Poll(stored: Option<seq<Task>>, now: Clock): (r: TickResult)
    ensures r == TickAt(stored, ClockText(now))
  {
    TickAt(stored, FormatTime(now))
  }

  /** A task due at 09:00, open and never reminded fires once when the clock
      reads 09:00 and is stamped; the next poll in the same minute is silent. */
  lemma NineOClockExample(id: TaskId, text: string)
    ensures var t := Task(id, text, "09:00", false, false, None);
      var first := Poll(Some([t]), Clock(9, 0));
      && first == TickResult(Some([t.(lastNotified := Some("09:00"))]), [AlertMessage(text)])
      && Poll(first.stored, Clock(9, 0)).alerts == []
  {
    var t := Task(id, text, "09:00", false, false, None);
    assert ClockText(Clock(9, 0)) == "09:00";
    assert Fires(t, "09:00");
    assert Firing([t], "09:00") == [t];
    assert Stamp([t], "09:00") == [t.(lastNotified := Some("09:00"))];
    var first := TickAt(Some([t]), "09:00");
    assert |first.alerts| == 1 && first.alerts[0] == AlertMessage(text);
    SecondTickQuiet(Some([t]), "09:00");
  }
}

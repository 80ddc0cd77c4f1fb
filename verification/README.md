# Todolist state logic in Dafny

A model of the state logic of the to-do list page `Todolist/script.js`: a
browser script that keeps a task list, an experience-points counter and a
last-login date in local storage. The script gives 10 points per completed
task and shows a level derived from the points. On the first load of a new
day it re-opens recurring ("daily") tasks. A 30-second poll shows one alert
per open task due at the current `HH:MM` that has not already been reminded
in that minute.

Every task handler reads the stored list, computes, and writes the list back.
The points counter is different: the script reads `xp_points` into a page
variable once, at start-up, and from then on updates that variable and writes
it through to the store. While this page is the only writer of `xp_points`,
the variable and the stored value agree. The model therefore describes each
handler as a pure function from the persisted state, plus the handler's
input, to the new persisted state:

- `tasks` is modelled as `Option<seq<Task>>`, where `None` means the key was
  never written.
- `xp_points` is a `nat`.
- `last_login_date` is an `Option<string>`, where the day is the opaque
  string `toDateString()` gives.

Modules, one per component of the script:

| file | module | models |
|---|---|---|
| `wrappers.dfy` | `Wrappers` | the optional stored value |
| `tasks.dfy` | `Tasks` | the task record; unique identifiers |
| `text.dfy` | `Text` | `String.prototype.trim`, `String(n)`, `padStart` |
| `rewards.dfy` | `Rewards` | `handleRewards`, `updateLevelUI` |
| `storage.dfy` | `Storage` | `saveLocalTasks`, `updateTaskStatus`, `removeLocalTask`, the validation in `addTask` |
| `daily.dfy` | `DailyReset` | `checkDailyReset` |
| `reminder.dfy` | `Reminder` | the body of the `setInterval` poll |
| `app.dfy` | `App` | the event handlers over the whole state; the invariant they keep |

The model follows the script on these points:

- `updateTaskStatus` and `removeLocalTask` do nothing when no list is
  stored. They do not treat a missing list as an empty one.
- `saveLocalTasks`, and `checkDailyReset` on a new day, read a missing list
  as empty and then write it. After them, the key is present. On the same
  day `checkDailyReset` neither reads nor writes, so a missing list stays
  missing.
- The reminder poll writes the store only when some task fired.
- Unique identifiers are not guaranteed by the script, because `Date.now()`
  can repeat. The model keeps uniqueness only when each add uses an unused
  identifier (`App.AddKeepsValid`, `App.AddEachKeepsValid`).

## Model

| member | source | states |
|---|---|---|
| Rewards.Level | Todolist/script.js:12-14 | the level is at least 1, and level `l` covers exactly the points from `(l-1)*100` up to `l*100` |
| Rewards.LevelUnique | Todolist/script.js:13 | any `l` that brackets the points in that way is the level |
| Rewards.HandleRewards | Todolist/script.js:109-123 | completion adds exactly 10 points; un-completion gives `max(0, points-10)`; a level-up is signalled exactly when the new level exceeds the old; only a completion can cause one, by exactly one level, and the popup shows the new level |
| Rewards.LevelUpCharacterised | Todolist/script.js:110-122 | a toggle levels up if and only if it is a completion made with `points mod 100 >= 90` |
| Rewards.UncompleteLosesAtMostOneLevel | Todolist/script.js:111 | an un-completion never raises the level and lowers it by at most one |
| Rewards.CompleteThenUncomplete | Todolist/script.js:111 | completing and then un-completing a task restores the counter |
| Rewards.UncompleteThenComplete | Todolist/script.js:111 | un-completing then completing restores the counter from 10 points up; from below 10 points it ends at 10, because the floor at zero lost the difference |
| Rewards.LevelUpExample | Todolist/script.js:109-122 | 95 points plus a completion gives 105 points, level 1 to level 2, and a popup for level 2 |
| Text.LeadingWhitespace | Todolist/script.js:31 | the count of leading white-space characters: all of them white space, and the next character is not |
| Text.TrailingStart | Todolist/script.js:31 | where the trailing white space begins: everything after it is white space, and the character before it is not |
| Text.Trim | Todolist/script.js:31 | `trim()` returns the slice between the leading and the trailing white space; the slice neither starts nor ends with white space, and it is empty exactly when the input is all white space |
| Text.TrimIdempotent | Todolist/script.js:31 | trimming an already trimmed text changes nothing |
| Text.DecimalString | Todolist/script.js:168 | `String(n)` is non-empty, and it is one character long exactly when `n < 10` |
| Text.DecimalStringNumeral | Todolist/script.js:168 | `String(n)` is all digits, has no leading zero, and denotes `n` |
| Text.PadStart | Todolist/script.js:168 | `padStart` makes the string `max(len, width)` characters long |
| Text.PadStartShape | Todolist/script.js:168 | the padded string ends with the original and starts with nothing but the pad character |
| Text.PadTwoDigits | Todolist/script.js:168 | below 100, `String(n).padStart(2,'0')` is the tens digit followed by the units digit |
| Reminder.TwoDigits | Todolist/script.js:168 | a clock field padded to two places is its tens digit then its units digit |
| Reminder.FormatTime | Todolist/script.js:167-168 | the formatted time equals the five-character `HH:MM` reading of the clock |
| Reminder.ClockText | Todolist/script.js:168 | the `HH:MM` reading has length 5 with a colon in the middle |
| Reminder.ParseFormatted | Todolist/script.js:168 | parsing the `HH:MM` text of a clock gives that clock back |
| Reminder.FormatParsed | Todolist/script.js:168 | every well-formed `HH:MM` string is the text of the clock it denotes |
| Reminder.ClockTextInjective | Todolist/script.js:168-172 | distinct clock readings give distinct strings, so the string comparison at the tick compares minutes of the day |
| Reminder.Stamp | Todolist/script.js:171-177 | same length; each firing task gets `lastNotified = current` and nothing else changes; every other task is unchanged; no task of the result fires again at `current` |
| Reminder.Firing | Todolist/script.js:171-173 | a task is alerted if and only if it is in the list and meets the condition `time == current`, not completed, and `lastNotified != current` |
| Reminder.FiringConcat | Todolist/script.js:171-173 | alerts are selected piecewise over a concatenation, so they follow list order and each task is alerted once per occurrence |
| Reminder.FiringSingle | Todolist/script.js:172 | a one-task list alerts that task exactly when it meets the condition |
| Reminder.FiringEmpty | Todolist/script.js:172 | nothing is alerted if and only if no task meets the condition |
| Reminder.StampQuiet | Todolist/script.js:172-174 | a list where nothing fires is left as it is |
| Reminder.TickAt | Todolist/script.js:169-177 | one alert per selected firing task, in the selection's order (list order, by `FiringConcat`); the store is unchanged when nothing fires and otherwise holds the stamped list |
| Reminder.TickAtEffect | Todolist/script.js:171-177 | per task: it is alerted and stamped if it meets the condition, and is unchanged otherwise; the list keeps its length |
| Reminder.SecondTickQuiet | Todolist/script.js:172-174 | a second tick at the same minute alerts nothing and writes nothing |
| Reminder.Poll | Todolist/script.js:166-178 | the poll is the tick at the clock's `HH:MM` text |
| Reminder.NineOClockExample | Todolist/script.js:166-178 | a task due at 09:00 fires once at 09:00 and is stamped "09:00"; the next poll in that minute is silent |
| Storage.SaveLocalTasks | Todolist/script.js:181-185 | the list (empty if absent) grows by one: the old list is the prefix and the new task is last |
| Storage.SetStatus | Todolist/script.js:195 | same length; `completed` becomes `status` exactly on the tasks with the matching id; all other fields and tasks are unchanged |
| Storage.SetStatusAbsent | Todolist/script.js:195 | updating an identifier no task carries changes nothing |
| Storage.SetStatusTwice | Todolist/script.js:195 | of two updates of one identifier only the last shows |
| Storage.UpdateTaskStatus | Todolist/script.js:192-197 | nothing happens when no list is stored; otherwise the status is set by id |
| Storage.Without | Todolist/script.js:202 | a task is kept if and only if it does not carry the id; the list shrinks by the number of tasks that carry it |
| Storage.WithoutAbsent | Todolist/script.js:202 | removing an absent id changes nothing |
| Storage.WithoutConcat | Todolist/script.js:202 | removal works piecewise over a concatenation, so relative order is kept |
| Storage.WithoutIdempotent | Todolist/script.js:202 | removing the same id twice removes nothing more |
| Storage.WithoutKeepsUniqueIds | Todolist/script.js:202 | removal keeps identifiers unique |
| Storage.SetStatusKeepsUniqueIds | Todolist/script.js:195 | a status update keeps identifiers unique |
| Storage.RemoveLocalTask | Todolist/script.js:199-203 | nothing happens when no list is stored; otherwise the tasks with the id are removed |
| Storage.AddTask | Todolist/script.js:30-47 | blank text (after trimming) is refused with the toast text and stores nothing; otherwise exactly one record is appended after the unchanged list, with the trimmed non-empty text, `completed = false` and `lastNotified = null` |
| Storage.AddKeepsUniqueIds | Todolist/script.js:37-47 | adding with an identifier not in use keeps identifiers unique |
| DailyReset.ResetTask | Todolist/script.js:156-159 | a daily task becomes open and un-notified; any other task is returned as it is; the identity fields never change |
| DailyReset.Sweep | Todolist/script.js:155-160 | same length and order; every daily task is open and un-notified; every non-daily task is unchanged; identity fields are kept |
| DailyReset.SweepIdempotent | Todolist/script.js:155-160 | sweeping a swept list changes nothing |
| DailyReset.CheckDailyReset | Todolist/script.js:149-164 | afterwards the marker is today; on the same day nothing changes; on a new day the list (empty if absent) is stored swept |
| DailyReset.CheckDailyResetIdempotent | Todolist/script.js:153 | running the check twice with the same day is the same as running it once |
| DailyReset.NewDayAfterNewDay | Todolist/script.js:153-162 | a further reset on another new day leaves the swept list as it is |
| App.Load | Todolist/script.js:24-27 | page load runs the daily reset: the task list and marker are exactly those `checkDailyReset` leaves, the points are kept and the marker becomes today |
| App.LoadKeepsValid | Todolist/script.js:149-164 | page load keeps unique ids and trimmed non-empty texts |
| App.Add | Todolist/script.js:30-52 | a toast is shown exactly for blank input and then the state is unchanged; otherwise the new task is appended; points and marker are never touched |
| App.AddKeepsValid | Todolist/script.js:30-47 | an add with an unused id keeps the invariant |
| App.AddKeepsAbsent | Todolist/script.js:37-47 | an add stores no identifier but its own |
| App.AddEachCount | Todolist/script.js:29-55 | after a session of adds with non-blank text, the list has grown by exactly the number of adds, with the old list as its prefix |
| App.AddEachKeepsValid | Todolist/script.js:29-55 | a session of adds with fresh, distinct ids keeps identifiers unique and texts well formed |
| App.Toggle | Todolist/script.js:83-94 | a row click applies one reward step and sets the task's `completed` by id; the marker is untouched |
| App.ToggleKeepsValid | Todolist/script.js:92-93 | a toggle keeps the invariant |
| App.Delete | Todolist/script.js:96-103 | a delete removes the id's records, keeps points and marker, and leaves no task with that id |
| App.DeleteKeepsValid | Todolist/script.js:199-203 | a delete keeps the invariant |
| App.OnPoll | Todolist/script.js:166-178 | the poll changes only the task list, exactly as the tick does |
| App.TickKeepsValid | Todolist/script.js:171-177 | a reminder tick at any time keeps the invariant |
| App.OnPollKeepsValid | Todolist/script.js:166-178 | the poll keeps the invariant |

## Left out

- DOM rendering and wiring are left out: `createTaskElement`, `getTasks` (it only renders the stored list), class toggling, clearing the form after an add, `showNotification` (the toast is returned as a value), `showLevelPopup`, `closePopup` and `triggerConfetti`. They are presentation only.
- Audio is left out: `successSound.load()`/`play()` and the swallowed promise rejection are foreign media I/O with no effect on the state.
- Timers are left out: `setInterval` and the 300 ms `setTimeout` before a delete. One poll is a function of an injected `Clock`, and a delete happens when its timeout fires.
- The clock and the date are inputs: `Date.now()` (the new identifier), `getHours`/`getMinutes` (the `Clock`, constrained to 0..23 and 0..59) and `toDateString()` (an opaque day string).
- Storage encoding is left out: JSON encoding and decoding, and `parseInt` of `xp_points`, including NaN, malformed JSON and a stored negative number. Points are a `nat`, and a stored list is either present or absent.
- `alert` is modelled as the returned sequence of alert messages.
- Per-firing writes are not modelled separately. The poll writes the list after every firing, and the last write equals one write of the final stamped list, which is what the model stores.
- App.Toggle: assumes one open page. The counter is read from the store only at start-up, so with two pages open each keeps its own copy and overwrites the other's total, and stored points can lose completions; the model adds them all. The script is single-tab by design and gives no cross-tab consistency.
- App.Toggle: the new completion state `isDone` is an input. The script derives it from the row's CSS class, which is DOM state that is not modelled.
- Text.DecimalString: agrees with JavaScript's `String(n)` only for integers below 10^21 (JavaScript then writes exponent notation) that a JavaScript number holds exactly (below 2^53). The script applies it only to clock fields below 60.
- Text.PadStart: counts characters and takes a one-character filler. JavaScript counts UTF-16 code units and takes a filler string, so the two agree on text in the Basic Multilingual Plane with a one-character filler. The script pads digits with '0'.
- Rewards.HandleRewards: `points` is a `nat` without bound. A JavaScript number holds integers exactly only below 2^53, and the model does not carry that limit. The limit is out of reach at 10 points per click.

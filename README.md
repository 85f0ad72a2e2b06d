# Pomodoro timer: a verified model

This project models the Pomodoro timer window of `Pomodoro/pomodoro_gui.py`
without its widgets. The class `PomodoroApp` keeps five pieces of state:

- whether the timer is running;
- the seconds left in the current session;
- whether the session is a work session or a break;
- how many work sessions have been completed;
- the work and break durations, in minutes (25 and 5 by default).

Three operations act on that state:

- The start button begins a work session, but only when the timer is idle.
- The reset button stops the timer and clears the countdown.
- A callback scheduled once a second counts down one second. When the count
  reaches zero, it ends the session, shows a dialog and switches between work
  and break. The session is reloaded through `_run_session`.

The label shows the time left as `mm:ss`, built from `divmod(remaining, 60)`.

Modules:

- `Clock` (`clock.dfy`): the `mm:ss` text. It has decimal digits, the `02d`
  padding, a parser for the label text, and the round trip between them.
- `Pomodoro` (`pomodoro.dfy`): the timer as a pure state machine. The value
  `Timer` holds the fields and the texts of the two labels. `Tick`,
  `RunSession`, `Start`, `Reset` and `EditDurations` give the effect of each
  operation. `Run` and `Ticks` give the effect of a sequence of them. The
  lemmas state what the timer promises, and `Valid` is the invariant every
  operation keeps.
- `PomodoroGui` (`pomodoro_app.dfy`): the class `PomodoroApp`. Its methods
  `StartTimer`, `ResetTimer`, `RunSession` and `Tick` update the fields in
  place and are proved to follow the functions of `Pomodoro`.
  `Tick` and `RunSession` call each other, as `_update_timer` and
  `_run_session` do in the source.

Three points about the model's shape:

- `_run_session` calls `_update_timer` at once, so loading a session also
  counts down its first second. After a press of start, `remaining` is
  `work_duration*60 - 1` and the label shows `work_duration*60`. The same
  holds when a session ends and the next one loads.
- The collaborators are modelled as values or as calls the caller makes:
  - The `root.after(1000, ...)` reschedule is not modelled as a timer. The
    caller calls `Tick` once for each callback that fires.
  - The `messagebox.showinfo` dialogs are returned as `Notice` values
    (`WorkDone`, `BreakDone`).
  - The status label's three texts are the `Status` values `Waiting`,
    `Working` and `OnBreak`.
- The two `IntVar` entry fields are read each time a session loads. The user
  can edit them at any moment, so `EditDurations` (event `DurationsEdited`)
  models an edit. It requires positive values.

## Model

| member | source | states |
|---|---|---|
| `Clock.DivMod` | Pomodoro/pomodoro_gui.py:60 | minutes times 60 plus seconds gives back the remaining seconds, and the seconds part is below 60 |
| `Clock.DivModUnique` | Pomodoro/pomodoro_gui.py:60 | no other pair of minutes and seconds below 60 adds up to the same count, so `DivMod` is the only split |
| `Clock.Digits` | Pomodoro/pomodoro_gui.py:61 | the decimal text of a number; its contract is carried by `Clock.DigitsSpec` |
| `Clock.Pad2` | Pomodoro/pomodoro_gui.py:61 | the `02d` conversion; its contract is carried by `Clock.Pad2Spec` |
| `Clock.Format` | Pomodoro/pomodoro_gui.py:60-61 | the `mm:ss` label for a number of seconds; its contract is carried by `Clock.FormatShape`, `Clock.FormatRoundTrip` and `Clock.FormatInjective` |
| `Clock.DigitsSpec` | Pomodoro/pomodoro_gui.py:61 | the decimal text of a number contains only digits, denotes that number, and has no leading zero |
| `Clock.Pad2Spec` | Pomodoro/pomodoro_gui.py:61 | the `02d` conversion denotes the number, has at least two digits, has exactly two below 100, and has a leading zero only below 10 (so 100 is written `100`) |
| `Clock.FormatShape` | Pomodoro/pomodoro_gui.py:60-61 | the label text always has at least two minute digits, a colon, then exactly two second digits |
| `Clock.FormatRoundTrip` | Pomodoro/pomodoro_gui.py:60-61 | parsing the `mm:ss` label gives back the number of seconds it was made from |
| `Clock.FormatInjective` | Pomodoro/pomodoro_gui.py:60-61 | two different second counts never produce the same label |
| `Clock.FormatZero` | Pomodoro/pomodoro_gui.py:50 | the idle text `00:00` that reset writes is the label for zero seconds |
| `Pomodoro.Valid` | Pomodoro/pomodoro_gui.py:41-72 | the state invariant: positive durations, no negative count, and labels matching the state; it is kept by `Pomodoro.TickValid`, `Pomodoro.StartValid`, `Pomodoro.EditDurationsValid` and `Pomodoro.ApplyValid` |
| `Pomodoro.Init` | Pomodoro/pomodoro_gui.py:13-18 | the state of a new window, with the idle label texts; its contract is carried by `Pomodoro.InitState` |
| `Pomodoro.Start` | Pomodoro/pomodoro_gui.py:41-45 | the effect of the start button; its contract is carried by `Pomodoro.StartEffect` and `Pomodoro.StartValid` |
| `Pomodoro.Reset` | Pomodoro/pomodoro_gui.py:47-51 | the effect of the reset button; its contract is carried by `Pomodoro.ResetEffect` |
| `Pomodoro.EditDurations` | Pomodoro/pomodoro_gui.py:13-14 | the effect of typing new durations into the two entry fields; its contract is carried by `Pomodoro.EditDurationsValid` |
| `Pomodoro.Tick` | Pomodoro/pomodoro_gui.py:58-72 | a callback never changes the two durations |
| `Pomodoro.RunSession` | Pomodoro/pomodoro_gui.py:53-56 | loading a session never changes the two durations |
| `Pomodoro.InitState` | Pomodoro/pomodoro_gui.py:13-18 | a new window is idle with no countdown, in a work session, with no cycles, has durations 25 and 5, and satisfies the invariant |
| `Pomodoro.RunSessionEffect` | Pomodoro/pomodoro_gui.py:53-56 | while running, loading a session shows its full length in seconds, leaves one second less in `remaining`, and shows no dialog |
| `Pomodoro.StartEffect` | Pomodoro/pomodoro_gui.py:41-45 | start while running changes nothing; start while idle begins a work session loaded with `work_duration*60` seconds, one of them counted off, keeping cycles and durations, with no dialog; a second start changes nothing |
| `Pomodoro.ResetEffect` | Pomodoro/pomodoro_gui.py:47-51 | reset stops the timer, zeroes `remaining`, shows the idle labels, and keeps the session kind, the cycle count and the durations; a second reset changes nothing |
| `Pomodoro.TickIdle` | Pomodoro/pomodoro_gui.py:58-72 | a callback while not running changes no state and shows no dialog |
| `Pomodoro.TickCountdown` | Pomodoro/pomodoro_gui.py:59-64 | a callback while running with seconds left shows that second, sets the status to the current session's, and lowers `remaining` by exactly one; the session kind and cycle count stay the same, and no dialog is shown |
| `Pomodoro.TickSessionEnd` | Pomodoro/pomodoro_gui.py:65-72 | a callback at zero shows one dialog for the finished session and flips the session kind; the cycle count rises by one exactly when a work session ended; the new session's length is loaded and counted down once |
| `Pomodoro.TickCounts` | Pomodoro/pomodoro_gui.py:58-72 | a callback shows at most one dialog, and the cycle count rises by exactly the number of work dialogs shown |
| `Pomodoro.TickValid` | Pomodoro/pomodoro_gui.py:58-72 | a callback keeps the invariant: positive durations, no negative count, and labels matching the state (while running, the label shows `remaining + 1`) |
| `Pomodoro.StartValid` | Pomodoro/pomodoro_gui.py:41-45 | start keeps the invariant |
| `Pomodoro.EditDurationsValid` | Pomodoro/pomodoro_gui.py:13-14 | setting positive durations keeps the invariant and changes nothing but the two durations |
| `Pomodoro.ApplyValid` | Pomodoro/pomodoro_gui.py:41-72 | every button press, callback and duration edit keeps the invariant |
| `Pomodoro.RunCycles` | Pomodoro/pomodoro_gui.py:66-67 | over any sequence of events the invariant holds at the end, and the cycle count rises by exactly the number of completed work sessions, so it never decreases |
| `Pomodoro.Ticks` | Pomodoro/pomodoro_gui.py:64 | repeated callbacks never change the two durations |
| `Pomodoro.TicksAreCallbacks` | Pomodoro/pomodoro_gui.py:64 | `k` callbacks in a row are exactly the run of `k` callback events, so the lemmas about `Ticks` are lemmas about `Run` |
| `Pomodoro.CountdownTicks` | Pomodoro/pomodoro_gui.py:59-64 | while running, up to `remaining` callbacks just count down: no dialog, the same session, the same cycle count |
| `Pomodoro.SessionEndsOnTime` | Pomodoro/pomodoro_gui.py:58-72 | while running, the first dialog comes with callback number `remaining + 1`; it is this session's dialog, flips the session kind, counts a cycle after work, and loads the next session |
| `Pomodoro.WorkSessionLength` | Pomodoro/pomodoro_gui.py:41-72 | after start, the work dialog comes with callback number `work_duration*60` and not before; it counts one cycle and begins a break of `break_duration*60` seconds |
| `PomodoroGui.PomodoroApp.constructor` | Pomodoro/pomodoro_gui.py:8-18 | the fields start in the initial state: idle, no countdown, work session, no cycles, 25 and 5 minutes |
| `PomodoroGui.PomodoroApp.StartTimer` | Pomodoro/pomodoro_gui.py:41-45 | the new field values are what `Pomodoro.Start` gives for the old ones, no dialog is shown, and the invariant is kept |
| `PomodoroGui.PomodoroApp.ResetTimer` | Pomodoro/pomodoro_gui.py:47-51 | the new field values are what `Pomodoro.Reset` gives for the old ones, and the invariant is kept |
| `PomodoroGui.PomodoroApp.EditDurations` | Pomodoro/pomodoro_gui.py:13-14 | only the two durations change, to the values typed in, and the invariant is kept |
| `PomodoroGui.PomodoroApp.RunSession` | Pomodoro/pomodoro_gui.py:53-56 | the new fields and the dialogs shown are what `Pomodoro.RunSession` gives |
| `PomodoroGui.PomodoroApp.Tick` | Pomodoro/pomodoro_gui.py:58-72 | the new fields and the dialogs shown are what `Pomodoro.Tick` gives, and the invariant is kept |

## Left out

- Widget construction and layout (`create_widgets`, labels, entries, buttons, `pack`): this is UI. Only the texts of the two labels are kept, as state.
- The `messagebox.showinfo` dialogs: they are returned as `Notice` values. Their blocking and their wording are side effects with no effect on state.
- The `root.after` event loop: real time and scheduling are not modelled. The caller calls `Tick` once for each callback that fires.
- The race between reset and a pending callback: after a reset, a start within one second leaves the old callback pending, and it then runs a second countdown. Which callbacks are pending is event-loop timing, and the model does not track it.
- `IntVar.get()` failing on text that is not a number: the durations are integer fields.
- Durations of zero or less: `Pomodoro.Tick`, `Pomodoro.RunSession`, `Pomodoro.Start`, `Pomodoro.Apply`, `Pomodoro.Run`, `Pomodoro.Ticks` and the class methods `RunSession` and `Tick` require both durations positive. The other class methods get this through `Valid()`, and `EditDurations` requires the values typed in to be positive. `Pomodoro.Init`, `Pomodoro.Reset` and `Pomodoro.EditDurations` require nothing. With a zero duration, `_run_session` and `_update_timer` would recurse straight into the next session, and with both zero they would never stop.
- The unused `time`, `threading` and `datetime` imports.
- The chime, timetable and calendar-publishing scripts of the repository: their source is not part of this model.

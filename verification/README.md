# Tea timer — a Dafny model

`teatime.py` is a small PyQt tea timer. A combo box lists five cook types
(Black tea, Fruit tea, Pizza, Cake and Custom), each with an id and a
duration. A button starts a countdown for the selected type; "Custom" first
asks for a number of minutes. A one-second Qt timer moves a progress bar and a
label of the form `H:MM:SS / H:MM:SS`. Once the deadline has passed, a
message box reports `<name> -> Timer elapsed!` and the timer stops. Clicking
the button while the timer runs stops it, and so does changing the
selection.

The model follows the program's model-view-presenter split:

- `Catalog` holds the `cookTypes` table and the two lookups by id, which
  raise `ValueError("Unknown id: <id>")` for an id the table lacks.
- `Decimal` and `TimeFormat` model Python's `str(int)` and
  `str(datetime.timedelta(seconds=n))`, days prefix included. Each comes with
  an exact parser, and the formatter and parser are proved to be inverses.
- `View` holds the calls the presenter makes on the view (`ViewCall`), what
  they leave on screen (`ViewState`, `Apply`, `Render`), and the view's own
  logic: the prompt's minutes-to-seconds conversion, the clamp on the
  progress bar, the info label and the combo box item texts.
- `Presenter` is the timer's state machine. Each transition is a pure
  function that returns the new state and the view calls it made, in order.
  The timer's `isActive()` becomes the `active` flag.
  `datetime.datetime.now()` becomes a whole-second argument `now`. The
  prompt's answer is an `Option<int>` argument, `None` meaning cancelled.
- `App` wires the view to the presenter. `Startup` loads the combo box and
  selects its first item. `Handle` and `Run` react to button clicks,
  selection changes and timer timeouts.
- `Properties` and `AppProperties` hold the lemmas that relate several
  calls: prompt handling, the tick schedule, the completion message
  appearing at most once, the button label following the timer, and a whole
  preset run.

Some behaviour of the program worth knowing:

- The prompt is shown for id 0. In the table, id 0 is also the only entry
  whose duration is 0 (`Catalog.CustomIsTheOnlyZeroDuration`).
- The button reads "Start Timer" as constructed (line 44). The stop and
  start events set "Start timer" and "Stop timer" (lines 124 and 127).
- Zero custom minutes are accepted, so the deadline can equal the start
  (`Properties.CustomZeroMinutes`).
- The deadline test is `now > stopTime`. With the model's whole-second
  readings a tick can fall exactly on the deadline and show
  `Progress(T, T)`, with the completion one tick later
  (`Properties.Countdown`). The program reads the start time before it
  starts the timer, and Qt fires each timeout no earlier than it is due, so
  the k-th timeout reads the clock just after start + k seconds. `.seconds`
  drops the fraction, so timeouts 1 … T-1 show 1 … T-1 and the T-th
  timeout completes.
- The completion's message box (line 139) runs a nested event loop while
  the tick timer is still active. Qt does not deliver that timer's timeout
  again until `timerCountEvent` returns, and `timerStop` (line 234) stops
  the timer before it does. The box is modal, so no click or selection
  change arrives meanwhile. Each handler therefore runs to the end before
  the next event, and a completion shows one box.
- An id the table lacks raises `ValueError`, modelled as
  `Failure(ValueError(...))`. `App.Handle` proves that this cannot happen
  for any id the combo box stores.

## Model

| member | source | states |
|---|---|---|
| Catalog.FindId | teatime.py:168-171 | the scan stops at the first row carrying the id, and finds nothing exactly when no row carries it |
| Catalog.GetCookTypeNameById | teatime.py:167-171 | succeeds exactly when the table has the id, with the name of a row carrying it; otherwise fails with "Unknown id: " and the id |
| Catalog.GetCookTypeTimeById | teatime.py:173-177 | succeeds exactly when the table has the id, with the duration of a row carrying it; otherwise fails with "Unknown id: " and the id |
| Catalog.CookTypeIdsUnique | teatime.py:22-27 | no two rows of the table share an id |
| Catalog.FindIdOfEntry | teatime.py:168-170 | in a table with distinct ids, looking up row i's id finds row i |
| Catalog.LookupOfEntry | teatime.py:167-177 | both lookups of row i's id return row i's name and duration |
| Catalog.CustomIsTheOnlyZeroDuration | teatime.py:22-27 | a row has duration 0 exactly when it is the "Custom" row, id 0 |
| Decimal.NatToString | teatime.py:171 | the decimal text of a natural number is canonical (digits only, no leading zero) and is one digit exactly below 10 |
| Decimal.ReadIntOfIntToString | teatime.py:171 | the text `str(id)` of any integer, followed by anything that does not start with a digit, reads back as that integer and the rest |
| Decimal.ReadIntIsIntToString | teatime.py:171 | whatever reads as an integer is exactly that integer's text followed by the rest |
| TimeFormat.SecondsFormatTime | teatime.py:120-121 | within a day, the text is `H:MM:SS`: 7 or 8 characters with colons in the two fixed places |
| TimeFormat.ReadTimeOfFormat | teatime.py:120-121 | the duration text of any whole number of seconds, days prefix included, parses back to that number |
| TimeFormat.FormatOfReadTime | teatime.py:120-121 | any text the parser accepts is exactly the duration text of the seconds it reads |
| TimeFormat.FormatInjective | teatime.py:120-121 | different second counts always give different duration texts |
| View.AskUserForCookTime | teatime.py:100-108 | a cancelled prompt gives no duration; m minutes, with m in the prompt's range 0 to 300, give m * 60 seconds |
| View.ReadInfoOfInfoText | teatime.py:118 | the info label `<elapsed> / <total>` reads back as the two times it was built from |
| View.UpdateCookTimeProgressBar | teatime.py:113-118 | the bar's maximum becomes the total; its value becomes the elapsed time exactly when that lies in [0, total], and stays otherwise; the label reads back as (elapsed, total); nothing else changes |
| View.EntryText | teatime.py:141-146 | a zero duration shows the bare name; any other shows the name, " - " and a duration text that parses back to the duration |
| View.InitialView | teatime.py:41-47 | the window as built: an info label that reads as no times, the button offering "Start Timer", an empty combo box, no messages, and the bar as Qt creates it |
| View.ApplyEffects | teatime.py:113-147 | one call relabels the button only if it is a start or stop event, adds a message only if it is the completion box, adds a combo box item only if it is `addCookTypeEntry`, and moves the bar and label only if it is a progress update; `RenderButton`, `RenderMessages` and `RenderKeepsEntries` lift these to a run of calls |
| View.AddCookTypeEntry | teatime.py:141-147 | exactly one item is appended to the combo box, with the entry text and the id, and nothing else changes |
| View.RenderKeepsEntries | teatime.py:141-147 | calls with no `addCookTypeEntry` among them leave the combo box as it was |
| View.RenderButton | teatime.py:123-127 | the button's label after a run of calls is decided by the last start or stop event among them, and is unchanged without one |
| View.RenderMessages | teatime.py:129-139 | the messages seen after a run of calls are the earlier ones followed by the texts of the message calls, in order |
| Presenter.TimedeltaSeconds | teatime.py:236 | `.seconds` of a whole-second duration lies in [0, 86400) and differs from the duration by whole days |
| Presenter.LoadCookTypeFromView | teatime.py:179-194 | id 0 asks the user: cancel gives no selection, m minutes give ("Custom", m * 60); any other id succeeds exactly when the table has it, with that row's name and duration; otherwise "Unknown id" |
| Presenter.LoadedSelectionValid | teatime.py:179-194 | whatever is selected carries a table name and a duration between 0 and 300 minutes |
| Presenter.TimerStart | teatime.py:196-209 | fails exactly for an id the table lacks; a cancelled prompt changes nothing and makes only the prompt call; otherwise the prompt (for id 0 only) then one start event, the timer active and deadline = now + duration, with a preset's name and duration those of its table row |
| Presenter.TimerStartKeepsValid | teatime.py:196-206 | a start keeps the presenter's invariant (an active timer has a session whose deadline is start + duration) and never touches the combo box |
| Presenter.TimerStop | teatime.py:211-215 | the timer stops with the session fields kept; the view gets the bar reset to (total, 0) and then the stop event |
| Presenter.CookTypeUserControlEvent | teatime.py:217-219 | a selection change stops a running timer (bar reset, then stop event) and makes no call at all on an idle one |
| Presenter.TimerUserControlEvent | teatime.py:221-225 | a click stops a running timer; on an idle one it is exactly `timerStart`, failing exactly for an unknown id, and is running afterwards unless the "Custom" prompt was cancelled |
| Presenter.TimerCountEvent | teatime.py:227-237 | no session: nothing happens. Past the deadline: the message "<name> -> Timer elapsed!", the bar reset, the stop event, and the timer stopped. Otherwise: one progress call with the total and the seconds elapsed since the start |
| Presenter.Tick | teatime.py:163-164 | a timeout reaches the handler only while the timer runs, and keeps the invariant |
| Presenter.LoadCookTypes | teatime.py:239-241 | one `addCookTypeEntry` call per table row, in table order, with the row's id, name and duration |
| App.RenderEntries | teatime.py:239-241 | applying only `addCookTypeEntry` calls appends one item per call, in order, and changes nothing else on screen |
| App.Startup | teatime.py:57-70 | after construction the combo box shows the whole table in order, the first row's id is selected, the timer is idle and the button reads "Start Timer" |
| App.Handle | teatime.py:87-97 | every click, selection change or timeout keeps the application valid; the screen is what its calls render; the combo box is untouched |
| App.HandleDispatch | teatime.py:87-97 | a click runs `timerUserControlEvent`, which succeeds; a selection change stores the chosen row's id and runs `cookTypeUserControlEvent`; a timeout is a tick; clicks and timeouts keep the selection |
| App.Run | teatime.py:87-97 | the same holds for any sequence of events |
| Properties.PresetIgnoresPrompt | teatime.py:191-194 | a preset start never asks and does not depend on the prompt's answer: it starts the row's name and duration at now, with the start event as its only call |
| Properties.CustomStart | teatime.py:183-190 | a "Custom" start asks exactly once; cancel leaves the presenter as it was with no start event; m minutes start ("Custom", m * 60) at now |
| Properties.StartSignalledOnce | teatime.py:205-206 | a start that goes ahead emits exactly one start event, as its last call |
| Properties.CustomZeroMinutes | teatime.py:200-203 | zero custom minutes put the deadline at the start, so the tick one second later already shows the completion |
| Properties.ProgressWithinBounds | teatime.py:235-237 | between start and deadline a tick reports now - start, which lies in [0, total], and the bar shows it |
| Properties.ClockSetBack | teatime.py:236-237 | a clock set back before the start by less than 19 hours (68400 s) reports a day minus the setback as elapsed, and the bar keeps its value |
| Properties.TicksAppend | teatime.py:227-237 | ticks at two runs of readings, one after the other, act as the ticks at their concatenation |
| Properties.ProgressEverySecond | teatime.py:227-237 | ticks every second up to the deadline report 1, 2, … seconds in order and change no state |
| Properties.Countdown | teatime.py:227-237 | ticks at start + 1 … start + total + 1 report every second up to the total, then the message, the reset and the stop, and leave the timer stopped |
| Properties.AtMostOneCompletion | teatime.py:231-234 | with each timeout handled to the end before the next, a running timer shows the completion message at most once, and an idle presenter ignores every timeout |
| AppProperties.ClickKeepsButtonInSync | teatime.py:221-225 | after a click the button offers "Stop timer" exactly while the timer runs |
| AppProperties.SelectKeepsButtonInSync | teatime.py:217-219 | after a selection change the button offers "Stop timer" exactly while the timer runs |
| AppProperties.TimeoutKeepsButtonInSync | teatime.py:227-237 | after a timeout the button offers "Stop timer" exactly while the timer runs |
| AppProperties.HandleKeepsButtonInSync | teatime.py:123-127 | every event keeps the button's label in step with the timer |
| AppProperties.RunKeepsButtonInSync | teatime.py:123-127 | any sequence of events keeps the button's label in step with the timer |
| AppProperties.StopResetsView | teatime.py:211-215 | clicking a running timer stops it, shows zero of the total on the bar and in the label, and the button offers to start |
| AppProperties.RunOfTimeouts | teatime.py:163-164 | timeout events drive the presenter exactly as its ticks do, and keep the selection |
| AppProperties.RenderEndsStopped | teatime.py:211-213 | calls ending in the reset and the stop event leave the bar at (total, 0), the label at 0 of total, and the button offering to start |
| AppProperties.ClickStartsPreset | teatime.py:221-223 | a click on an idle timer with a preset selected starts that row's duration from now, with the start event as its only call |
| AppProperties.RunCountdown | teatime.py:227-237 | timeout events every second until one past the deadline produce the whole countdown and stop the timer |
| AppProperties.MessagesOfPresetRun | teatime.py:233 | the only message in a preset run is the completion's |
| AppProperties.RenderPresetRun | teatime.py:113-139 | a start, bar updates and the completion leave one more message, the bar reset and the button offering to start |
| AppProperties.RunCons | teatime.py:87-97 | one event followed by the rest reacts as that event and then the rest |
| AppProperties.PresetRun | teatime.py:196-237 | a preset run from the click to one second past the deadline ends stopped, with the bar reset, the button offering to start, and exactly one message naming the preset |
| AppProperties.FruitTeaRun | teatime.py:23 | Fruit tea, started and ticked for 481 seconds, shows "Fruit tea -> Timer elapsed!" once and leaves the bar at (480, 0) |

## Left out

- Qt widgets, layout, size policies, icons, the tea cup image, the window's title and flags, the message box's font and palette: appearance only.
- The Qt event loop and the `QTimer` schedule: timeouts are events given explicitly, at the clock readings given as their arguments. The 1000 ms interval is not modelled.
- The real clock: `now` is a whole-second argument, so sub-second `datetime` precision is not modelled. Timestamps are whole seconds.
- The modal prompt itself (its title, its default of 5 and its step): its answer is an argument, `None` for cancel or an integer in 0..300 as the dialog's range forces.
- Qt's own handling of progress-bar values: setting the maximum below the current value, and the bar's initial range, are not modelled. The bar starts as whatever `ProgressBar` the caller passes to `Startup`.
- `print` and logging output: the model has no console.
- What Qt does with an exception escaping a slot: a failed start is returned as `Failure` and the state is left as it was.
- `getSelectedCookTypeId`'s `int(...)` conversion: the combo box stores integer ids, so it is the identity here.
- A selection index of -1: Qt reports it only for an empty combo box, and this one is filled before its signal is connected and never emptied. `App.EventValid` admits the indices 0..4.
- The combo box's `currentText`, stored by `_currentIndexChanged` but never read by the presenter.
- Presenter.TimerStop: the reset call uses `.seconds` of the total, which is the total itself below a day. The contract states the calls only for totals under a day, which is every total a start can set.
- Properties.Countdown: its T + 1 whole-second readings include one exactly on the deadline, which the program's timer never produces. The program shows one progress call fewer and completes at the T-th timeout rather than the (T + 1)-th.
- AppProperties.RunCountdown: the same T + 1 readings, one of them exactly on the deadline. The program shows one progress call fewer and completes one timeout earlier.
- AppProperties.PresetRun: the same T + 1 readings, one of them exactly on the deadline. The program completes one timeout earlier, with the same end state and the same single message.
- AppProperties.FruitTeaRun: the 481 readings include start + 480, exactly on the deadline. The program completes Fruit tea at its 480th timeout, with the same single message and the bar at (480, 0).

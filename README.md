# chrono-zen: the timer and task state machine, in Dafny

ChronoZen is a single-page focus timer. It has:

- a Pomodoro timer that alternates work sessions and breaks;
- a stopwatch;
- a to-do list, whose pending tasks the Pomodoro can cycle through and mark done when a work session ends;
- a session count and a day streak.

The state shown in the URL fragment can be used to resume a running timer. This project models the logic of the page component (`Home`) and of the Pomodoro and to-do panels. It proves what that logic promises.

Modules, each in its own file:

- `Types` (`types.dfy`): the shared values. These are a to-do item `{id, text, completed}`, the Pomodoro mode, the tab and an `Option`.
- `JsRuntime` (`js_runtime.dfy`): the JavaScript built-ins the logic depends on, stated exactly. These are:
  - `String.prototype.trim`, with the ECMAScript white-space and line-terminator set;
  - `parseInt(s, 10)`: leading spaces, an optional sign, the longest digit prefix, and NaN as `None`;
  - the decimal text `${n}` of an integer;
  - `split` on one character;
  - the truncating remainder `%`.
- `Todos` (`todos.dfy`): `addTodo`, `deleteTodo`, `editTodo`, `toggleTodo` and the pending/completed views, as pure functions on a sequence of items, with the lemmas about them.
- `Streak` (`streak.dfy`): the streak update run when a work session ends. Calendar dates are whole day numbers.
- `TaskIndex` (`task_index.dfy`): the selected-task index, which is a position in the pending list. The module covers the lookup, the circular step and the re-clamp.
- `Fragment` (`fragment.dfy`): the URL fragment `pomodoro/<work|break>/<seconds>` or `stopwatch/<seconds>`, as written and as parsed at start-up.
- `PomodoroView` (`pomodoro_view.dfy`): the settings dialog's minute inputs and save clamp, the displayed title, and `canCycle`.
- `TodoListView` (`todo_list_view.dfy`): the pending/completed partition loop, and the guards of the add, edit and delete dialogs.
- `Page` (`page.dfy`): class `Home`. It has one field per `useState` of the page and one method per handler, timer tick or effect. Each method states the whole new state as an update of the old one (`State() == old(State()).(...)`). Each method also keeps the invariant `Valid()`: ids are distinct and the selected index is at least -1.

Decisions where the code leaves room (the model follows the code):

- **End of a break.** When the last second of a break ticks, the tick's updater does two things. It calls `setPomodoroTime(workMins * 60)` from inside itself, and it returns 0 as its own result. React computes a state eagerly only when neither the component's fiber nor its alternate has an update pending. While a timer runs, every tick leaves its update's lane on the fiber that was current. So at the last tick the updater runs during the re-render. The nested call is then a render-phase update, and it is applied after the updater's 0. The model follows that order. After a break, mode is `Work`, the clock shows a full work session (`workMins * 60`) and the timer is stopped (`Page.Home.FinishBreak`).
- **Skipping the break.** `handleSkipBreak` leaves `running` as it was. After a finished work session the timer is already stopped.
- **Where clamping happens.** The one-minute minimum is applied by the Pomodoro settings dialog (`PomodoroView.SaveSettings`), not by `handleSettingsChange`. `Page.Home.SaveSettings` is the two composed.
- **Re-clamp on an empty list.** On an empty pending list, the re-clamp moves any index other than -1 to 0, not to -1.
- **Tab title during a break.** The tab title uses the selected task's text in both modes. The Pomodoro panel shows the break title during a break.
- **Ticks while stopped.** A tick arrives only while its timer runs. A tick in any other state is modelled as changing nothing.
- **Re-clamp timing.** The re-clamp effect is its own step (`Page.Home.ReclampTaskIndex`). The page runs it after a render in which the pending list's length or the index changed. The to-do methods therefore do not re-clamp on their own.
- **Start-up values.** The start-up effect reads the mode and running flag of the first render, which are work and stopped. `Page.Home.LoadStoredDurations` takes them as parameters. `Page.Home.Mount` shows the consequences: a timer resumed from the URL keeps its time, and a stored break length never resets the clock.

## Model

| member | source | states |
|---|---|---|
| `JsRuntime.Trim` | src/components/todo-list.tsx:88-89 | the result is the slice of the input left after its leading spaces and before its trailing spaces; a non-empty result neither starts nor ends with a space; it is empty exactly when the input is all spaces |
| `JsRuntime.TrimIdempotent` | src/components/todo-list.tsx:88-89 | trimming a trimmed text changes nothing |
| `JsRuntime.ParseInt` | src/app/page.tsx:144-145 | text containing no digit at all parses to NaN (`None`) |
| `JsRuntime.IntToString` | src/app/page.tsx:326 | the decimal text of an integer is non-empty, starts with `-` or a digit, and is all digits for a non-negative number |
| `JsRuntime.NatToString` | src/app/page.tsx:326 | the text is non-empty, all decimal digits, has no leading zero, and its digit value is the number |
| `JsRuntime.ParseIntToString` | src/app/page.tsx:144-145 | `parseInt` of the decimal text of any integer gives back that integer |
| `JsRuntime.Split` | src/app/page.tsx:140 | splitting gives one more piece than there are separators, and no piece contains the separator |
| `JsRuntime.SplitFirstPiece` | src/app/page.tsx:140 | a separator-free prefix followed by the separator splits off as the first piece |
| `JsRuntime.Remainder` | src/app/page.tsx:390-392 | JavaScript `%` for a positive divisor: the magnitude is the magnitude of the dividend mod the divisor, and the sign is the dividend's |
| `Todos.Pending` | src/app/page.tsx:84 | the pending view is no longer than the list, and none of its items is done |
| `Todos.Completed` | src/components/todo-list.tsx:76-85 | the completed view is no longer than the list, and all of its items are done |
| `Todos.PartitionMembers` | src/app/page.tsx:84 | an item is in the pending view exactly when it is in the list and not done, and in the completed view exactly when it is in the list and done |
| `Todos.PartitionSizes` | src/components/todo-list.tsx:76-85 | every item is in exactly one view: the two lengths add up to the list's |
| `Todos.PartitionAppend` | src/components/todo-list.tsx:76-85 | both views distribute over concatenation, so each keeps the list's relative order |
| `Todos.PendingKeepsIdsUnique` | src/app/page.tsx:84 | the pending view of a list with distinct ids has distinct ids |
| `Todos.AddTodo` | src/app/page.tsx:112-115 | one more item; the old items are an unchanged prefix; the new last item has the given id and text and is not done |
| `Todos.AddTodoViews` | src/app/page.tsx:112-115 | the new item joins the end of the pending view; the completed view is unchanged |
| `Todos.AddTodoKeepsIdsUnique` | src/app/page.tsx:112-115 | adding under a fresh id keeps ids distinct |
| `Todos.DeleteTodo` | src/app/page.tsx:117-119 | the list gets no longer, and no remaining item carries the deleted id |
| `Todos.DeleteMembers` | src/app/page.tsx:117-119 | an item survives a delete exactly when it is in the list and does not carry the id |
| `Todos.DeleteAppend` | src/app/page.tsx:117-119 | deleting distributes over concatenation, so the survivors keep their order |
| `Todos.DeleteAbsent` | src/app/page.tsx:117-119 | deleting an id that no item carries leaves the list unchanged |
| `Todos.DeleteOne` | src/app/page.tsx:117-119 | with distinct ids, deleting item k's id removes exactly item k and keeps the rest in order |
| `Todos.DeleteKeepsIdsUnique` | src/app/page.tsx:117-119 | deleting keeps ids distinct |
| `Todos.EditTodo` | src/app/page.tsx:121-125 | same length; at every position the id and done flag are unchanged, and the text is the new text exactly where the id matches |
| `Todos.EditTwice` | src/app/page.tsx:121-125 | of two edits of the same id, the last one wins |
| `Todos.EditPending` | src/app/page.tsx:121-125 | editing commutes with taking the pending view, so an edit never moves an item |
| `Todos.EditKeepsIdsUnique` | src/app/page.tsx:121-125 | editing keeps ids distinct |
| `Todos.ToggleTodo` | src/app/page.tsx:88-96 | same length; at every position the id and text are unchanged, and the done flag is flipped exactly where the id matches |
| `Todos.ToggleTwice` | src/app/page.tsx:88-96 | toggling the same id twice restores the list |
| `Todos.ToggleKeepsIdsUnique` | src/app/page.tsx:88-96 | toggling keeps ids distinct |
| `Todos.TogglePending` | src/app/page.tsx:88-96 | with distinct ids, toggling a pending item takes exactly that item out of the pending view |
| `Todos.ToggleCompletes` | src/app/page.tsx:88-96 | toggling a pending item puts it, now done, among the completed items |
| `Streak.UpdateStreak` | src/app/page.tsx:261-278 | the last day becomes today; with no last day the streak is 1; a difference of one day adds 1; a difference of more than one day restarts at 1; the same day keeps it |
| `Streak.StepKeepsRun` | src/app/page.tsx:264-278 | a session no earlier than the last one extends the run of consecutive session days, or starts a new run of one day |
| `Streak.StreakCountsConsecutiveDays` | src/app/page.tsx:261-278 | for a history that never goes back in time, the streak is exactly the run of consecutive calendar days with a session, ending with the last session day, and the last day recorded is that day |
| `TaskIndex.SelectedTask` | src/app/page.tsx:281 | a task is selected exactly when the index is a position of the pending list, and it is the item at that position |
| `TaskIndex.CycleTask` | src/app/page.tsx:386-394 | with no pending task the index is unchanged; otherwise Next moves from -1 or a position to the next position, wrapping from the last to 0, and Prev moves from a position to the previous one, wrapping from 0 to the last; Prev from -1 lands on `n - 2`, or 0 when `n` is 1 |
| `TaskIndex.RemainderOfStep` | src/app/page.tsx:390-392 | JavaScript `%` on a dividend from -1 up to twice the divisor subtracts the divisor at most once, and `-1 % 1` is 0 |
| `TaskIndex.CycleInRange` | src/app/page.tsx:386-394 | from -1 or any position, a step over a non-empty pending list lands on a position of it |
| `TaskIndex.NextThenPrev` | src/app/page.tsx:386-394 | stepping forward and then back returns to the same task |
| `TaskIndex.PrevThenNext` | src/app/page.tsx:386-394 | stepping back and then forward returns to the same task |
| `TaskIndex.Reclamp` | src/app/page.tsx:106-110 | an index at or past the end moves to the last position, `max(0, n - 1)`, so to 0 and not -1 on an empty list; an index already in range is kept; afterwards it is before the end, or 0 on an empty list; -1 stays at least -1 |
| `TaskIndex.ReclampIdempotent` | src/app/page.tsx:106-110 | a second re-clamp changes nothing, so the effect settles after one run |
| `Fragment.ModeName` | src/app/page.tsx:326 | the mode is written as `work` or `break`, and as `work` exactly for the work mode |
| `Fragment.ParseMode` | src/app/page.tsx:143-145 | a recognised mode word is that mode's name |
| `Fragment.ModeRoundTrip` | src/app/page.tsx:143-145 | each mode's name reads back as that mode |
| `Fragment.BuildFragment` | src/app/page.tsx:324-333 | the fragment is empty exactly when neither the Pomodoro runs on the Pomodoro tab nor the stopwatch runs on the stopwatch tab |
| `Fragment.LocationHash` | src/app/page.tsx:337-344 | the location hash is empty exactly when the fragment is |
| `Fragment.ParseFragment` | src/app/page.tsx:139-161 | an empty hash resumes nothing |
| `Fragment.ParseParts` | src/app/page.tsx:141-160 | a Pomodoro resume comes only from exactly three parts starting with `pomodoro`, a mode word and a number; a stopwatch resume only from exactly two parts starting with `stopwatch` and a number; a first part naming neither timer resumes nothing |
| `Fragment.PomodoroRoundTrip` | src/app/page.tsx:139-151 | the hash written for a running Pomodoro reads back as that mode and remaining time |
| `Fragment.StopwatchRoundTrip` | src/app/page.tsx:152-159 | the hash written for a running stopwatch reads back as that elapsed time |
| `Fragment.PomodoroWrongPartCount` | src/app/page.tsx:142 | `#pomodoro/` followed by text with any number of `/` other than one is ignored |
| `Fragment.StopwatchWrongPartCount` | src/app/page.tsx:152 | `#stopwatch/` followed by text containing a `/` is ignored |
| `Fragment.PomodoroUnknownMode` | src/app/page.tsx:143-145 | a Pomodoro fragment whose mode is neither `work` nor `break` is ignored |
| `Fragment.NonNumericTime` | src/app/page.tsx:144-154 | a Pomodoro or stopwatch fragment whose number part has no digit where parseInt needs one is ignored |
| `Fragment.UnknownTimer` | src/app/page.tsx:141-152 | a fragment whose first part names neither timer is ignored |
| `PomodoroView.ClampMinutes` | src/components/pomodoro.tsx:53-54 | a saved duration is at least 1; a positive duration is kept as is |
| `PomodoroView.ClampIdempotent` | src/components/pomodoro.tsx:53-54 | clamping a saved duration again changes nothing |
| `PomodoroView.SaveSettings` | src/components/pomodoro.tsx:52-57 | both forwarded durations are at least 1, positive ones are kept and others become 1; both titles are forwarded unchanged |
| `PomodoroView.MinutesInput` | src/components/pomodoro.tsx:96 | text parseInt cannot read is held as 0; otherwise the parsed number is held |
| `PomodoroView.NonNumericSavesAsOne` | src/components/pomodoro.tsx:52-96 | unreadable text in the work-minutes field is saved as one minute |
| `PomodoroView.TypedMinutesSaved` | src/components/pomodoro.tsx:52-96 | a positive number typed into the field is saved as exactly that many minutes |
| `PomodoroView.CanCycle` | src/components/pomodoro.tsx:70 | the arrows are enabled exactly in work mode when there is a first pending task to show |
| `PomodoroView.CurrentTitle` | src/components/pomodoro.tsx:59-68 | during a break it is the break title; during work it is the selected task's text when the index is a position of the pending list, else the work title |
| `PomodoroView.CycleShowsTask` | src/components/pomodoro.tsx:70 | whenever cycling is enabled (work mode, some task pending), one step from any index makes the panel show a pending task's text |
| `PomodoroView.DisabledTitleFixed` | src/components/pomodoro.tsx:70 | whenever cycling is disabled, the displayed title does not depend on the index |
| `TodoListView.Partition` | src/components/todo-list.tsx:76-85 | the pending accumulator ends as the list's pending view and the completed accumulator as its completed view, each in list order, and together they hold every item |
| `TodoListView.HandleAdd` | src/components/todo-list.tsx:87-94 | a task is added exactly when the trimmed text is not empty, and then with the trimmed text, clearing the input and closing the dialog; otherwise the input and dialog are unchanged |
| `TodoListView.AddedTextTrimmed` | src/components/todo-list.tsx:87-94 | an added task's text is non-empty, has no space at either end, and is its own trim |
| `TodoListView.AddTwiceAddsOnce` | src/components/todo-list.tsx:87-94 | submitting again right after a task was added adds nothing |
| `TodoListView.HandleEdit` | src/components/todo-list.tsx:96-102 | an edit is saved exactly when an item is being edited and its trimmed text is not empty, and then under the same id with the trimmed text, ending the edit; otherwise the edit state is unchanged |
| `TodoListView.EditSaved` | src/components/todo-list.tsx:96-102 | after a saved edit, the items carrying the edited id have the trimmed text and all other items are unchanged |
| `TodoListView.HandleDelete` | src/components/todo-list.tsx:104-110 | a delete happens exactly when an item is marked, and then for its id; the mark is cleared either way |
| `TodoListView.DeleteConfirmed` | src/components/todo-list.tsx:104-110 | with distinct ids, confirming deletion of item k removes exactly that item and keeps the rest in order |
| `Page.CompleteSelected` | src/app/page.tsx:281-283 | same length; with no selected pending task the list is unchanged |
| `Page.CompleteSelectedRemovesTask` | src/app/page.tsx:281-283 | with distinct ids and a selected pending task, the pending list loses exactly that task, the others keep their order, and that item appears done among the completed items |
| `Page.CompleteSelectedKeepsIdsUnique` | src/app/page.tsx:281-283 | marking the selected task done keeps ids distinct |
| `Page.DocumentTaskTitle` | src/app/page.tsx:322 | it is the selected task's text whenever the index is a position of the pending list, in either mode; otherwise it is the current mode's title |
| `Page.DocumentTitleMatchesPanelInWork` | src/app/page.tsx:322 | during work, the tab title names what the Pomodoro panel shows |
| `Page.DocumentTitleInBreak` | src/app/page.tsx:322 | during a break, the panel shows the break title while the tab title shows the selected task's text if there is one |
| `Page.LowerAscii` | src/app/page.tsx:498 | capital ASCII letters map to their lower case, and every other character maps to itself |
| `Page.KeyActionOf` | src/app/page.tsx:491-517 | no action while typing in an input or text area; otherwise toggle exactly for space, and reset, switch tab, add task and fullscreen exactly for `r`, `s`, `t` and `f` in either case |
| `Page.Home.constructor` | src/app/page.tsx:53-75 | the fresh page: no tasks, no selection, 25/5 minutes titled Work/Break, 25:00 on a stopped work clock, no sessions, streak 0, stopwatch at 0, Pomodoro tab |
| `Page.Home.PendingTodos` | src/app/page.tsx:84 | a task is among the pending ones exactly when it is in the list and not done |
| `Page.Home.CurrentFragment` | src/app/page.tsx:324-333 | the fragment is empty exactly when the timer of the selected tab is not running |
| `Page.Home.ToggleTodo` | src/app/page.tsx:86-96 | only the list changes, by `toggleTodo`; ids stay distinct |
| `Page.Home.AddTodo` | src/app/page.tsx:112-115 | only the list changes, by `addTodo` under a fresh id; the new item ends the pending list |
| `Page.Home.DeleteTodo` | src/app/page.tsx:117-119 | only the list changes, by `deleteTodo`; ids stay distinct |
| `Page.Home.EditTodo` | src/app/page.tsx:121-125 | only the list changes, by `editTodo`; the pending list is edited the same way |
| `Page.Home.ReclampTaskIndex` | src/app/page.tsx:106-110 | only the index changes, to its re-clamp; an index at or past the end of the pending list moves to its last position, or to 0 on an empty list; afterwards it is before the end, or 0 on an empty list; -1 stays -1 |
| `Page.Home.Tick` | src/app/page.tsx:250-300 | not running: nothing changes; more than one second left: only the clock counts down; otherwise it does what the finishing work session or break does |
| `Page.Home.FinishWorkSession` | src/app/page.tsx:253-287 | the clock stops at 0; sessions go up by exactly 1; the streak and last day are updated for today; the selected task is marked done; the break dialog opens; nothing else changes |
| `Page.Home.FinishBreak` | src/app/page.tsx:253-297 | the timer stops and the mode returns to work with a full work session on the clock (the nested render-phase update is applied after the updater's 0); nothing else changes |
| `Page.Home.TogglePomodoro` | src/app/page.tsx:349-359 | only the running flag flips |
| `Page.Home.ResetPomodoro` | src/app/page.tsx:361-367 | stopped, work mode, a full work session on the clock; nothing else changes |
| `Page.Home.HandleSettingsChange` | src/app/page.tsx:369-384 | all four settings are stored; a stopped clock is set to the new length of the current mode, a running one is left alone |
| `Page.Home.SaveSettings` | src/components/pomodoro.tsx:52-57 | saving the dialog stores clamped durations of at least 1, and a stopped clock then shows a whole positive number of minutes |
| `Page.Home.HandleCycleTask` | src/app/page.tsx:386-394 | only the index changes, by one circular step over the pending list; with a task pending it lands on a position of the list |
| `Page.Home.HandleStartBreak` | src/app/page.tsx:450-461 | break mode, a full break on the clock, running, dialog closed; nothing else changes |
| `Page.Home.HandleSkipBreak` | src/app/page.tsx:463-471 | work mode, a full work session on the clock, dialog closed; running untouched |
| `Page.Home.ToggleStopwatch` | src/app/page.tsx:397-407 | only the stopwatch's running flag flips |
| `Page.Home.ResetStopwatch` | src/app/page.tsx:409-413 | the stopwatch stops at 0; nothing else changes |
| `Page.Home.StopwatchTick` | src/app/page.tsx:307-315 | a running stopwatch gains one second; a stopped one is unchanged |
| `Page.Home.SelectTab` | src/app/page.tsx:539 | only the selected tab changes |
| `Page.Home.Resume` | src/app/page.tsx:142-159 | a Pomodoro resume selects its tab and runs the clock in the given mode from the given time; a stopwatch resume does the same for the stopwatch; no resume changes nothing |
| `Page.Home.LoadFragment` | src/app/page.tsx:137-161 | reports whether the hash was a well-formed fragment, and applies exactly the resume it asks for |
| `Page.Home.LoadStoredDurations` | src/app/page.tsx:167-182 | stored durations replace the settings; the clock is reset from one only when the state did not come from the URL and the first render's mode matches and its clock was stopped |
| `Page.Home.Mount` | src/app/page.tsx:128-182 | on a fresh page, a resumed Pomodoro selects its tab and runs in the fragment's mode from its time; a resumed stopwatch selects its tab and runs from its time, leaving the Pomodoro at 25:00 and stopped; without a fragment the clock is reset only from a stored work length; in every case the stored durations apply and everything else keeps its start-up value |
| `Page.Home.HandleKeyDown` | src/app/page.tsx:491-517 | each shortcut does exactly the handler it names on the current tab's timer; switch-tab flips the tab; add-task opens the dialog; fullscreen and other keys change no state |

## Left out

- Rendering, animation, dialogs' own open/close wiring, toasts and tooltips: presentation only.
- Notifications, sounds, the fullscreen API, the `isFullscreen` flag, `document.title` assignment and `history.replaceState`. These are browser calls. Only their inputs are modelled: `Fragment.BuildFragment`, `Fragment.LocationHash` and `Page.DocumentTaskTitle`.
- The rest of the tab-title text is left out: the `formatTime` clock text, which is not part of this model, and the pending-count title. These are string formatting.
- The congratulation message: the remote, asynchronous `getCongratsMessage` call and the closure-captured `isCompleted` flag of `toggleTodo`. Both depend on that call and on React's updater timing.
- Id generation: `uuidv4` is a foreign call. `Page.Home.AddTodo` requires an id no item carries instead.
- The timers themselves: `setInterval`, `clearInterval` and React's effect scheduling and update batching. Each tick is one method call. The re-clamp effect is a method the environment calls after the pending list's length or the index changes.
- Page.Home.FinishBreak: the clock after a break depends on React's update path. The model takes the render-phase order, which a running timer's tick takes. On the eager path, taken only when no update is pending on either fiber, the updater's 0 would be applied last and the clock would show 0. That order is not modelled.
- localStorage and JSON beyond the two stored durations. The stored tasks, titles, session count, streak and last day only overwrite fields, and the save effects only write. The stored durations arrive already parsed. A stored text that parses to NaN is not modelled.
- Dates: `Date`, ISO date strings and `Math.ceil` over milliseconds are replaced by whole day numbers. The difference of two days is the absolute difference of their numbers.
- `JsRuntime.ParseInt`: only integer-valued results are modelled. The limits of double-precision numbers (digits beyond 2^53, Infinity) are not.
- Numbers are unbounded integers. The model assumes every value the page computes (seconds, minutes × 60, counters) stays below 2^53, where JavaScript's doubles are exact. The minute fields have no upper bound, so a duration large enough that minutes × 60 passes 2^53 is not modelled: past that point the countdown `prevTime - 1` is no longer exact.
- The onboarding flow: the username dialog and its trim guard, the notification-permission dialog and the welcome tour. These are not part of the timer and task core.
- `Page.KeyActionOf` lower-cases ASCII letters only. No other character lower-cases to one of the shortcut letters or to a space, so the shortcuts are the same as with full `toLowerCase`.
- The tab is either the Pomodoro or the stopwatch tab. The page stores it as a string, which its tab control only ever sets to those two values.

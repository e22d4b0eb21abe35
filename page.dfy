/** The page component: it owns every piece of state of the app (the to-do list, the selected
    task, the Pomodoro and stopwatch timers, the session counters and the streak) and the
    handlers that change it. `Home` holds that state as fields, one per `useState` of the
    page, with one method per handler, timer tick or effect. */
module Page {
  import opened Types
  import Todos
  import Streak
  import TaskIndex
  import Fragment
  import PomodoroView

  /** What a finished work session does to the list: the selected pending task, if the
      index picks one, is toggled (that is, marked done); otherwise the list is unchanged. */
  function CompleteSelected(todos: seq<Todo>, i: int): (r: seq<Todo>)
    ensures |r| == |todos|
    ensures TaskIndex.SelectedTask(Todos.Pending(todos), i).None? ==> r == todos
  {
    match TaskIndex.SelectedTask(Todos.Pending(todos), i)
    case Some(t) => Todos.ToggleTodo(todos, t.id)
    case None => todos
  }

  /** With unique ids, finishing a work session on a selected task takes exactly that task
      out of the pending list (the others keep their order) and puts it among the done ones. */
  lemma CompleteSelectedRemovesTask(todos: seq<Todo>, i: int)
    requires Todos.UniqueIds(todos) && 0 <= i < |Todos.Pending(todos)|
    ensures var p := Todos.Pending(todos);
            Todos.Pending(CompleteSelected(todos, i)) == p[..i] + p[i + 1..]
            && p[i].(completed := true) in Todos.Completed(CompleteSelected(todos, i))
  {
    var p := Todos.Pending(todos);
    var t := p[i];
    Todos.PartitionMembers(todos);
    assert t in p;
    Todos.TogglePending(todos, t);
    Todos.PendingKeepsIdsUnique(todos);
    Todos.DeleteOne(p, i);
    Todos.ToggleCompletes(todos, t);
  }

  lemma CompleteSelectedKeepsIdsUnique(todos: seq<Todo>, i: int)
    requires Todos.UniqueIds(todos)
    ensures Todos.UniqueIds(CompleteSelected(todos, i))
  {
    match TaskIndex.SelectedTask(Todos.Pending(todos), i)
    case Some(t) => Todos.ToggleKeepsIdsUnique(todos, t.id);
    case None =>
  }

  /** The timer name the page puts into the tab title while the Pomodoro runs: the selected
      task's text whenever the index picks a pending task, in either mode, else the title of
      the current mode. */
  function DocumentTaskTitle(mode: Mode, tasks: seq<Todo>, i: int, workTitle: string, breakTitle: string): (r: string)
    ensures 0 <= i < |tasks| ==> r == tasks[i].text
    ensures !(0 <= i < |tasks|) ==> r == (if mode == Work then workTitle else breakTitle)
  {
    match TaskIndex.SelectedTask(tasks, i)
    case Some(t) => t.text
    case None => if mode == Work then workTitle else breakTitle
  }

  /** During work the tab title names what the Pomodoro panel shows. */
  lemma DocumentTitleMatchesPanelInWork(tasks: seq<Todo>, i: int, workTitle: string, breakTitle: string)
    ensures DocumentTaskTitle(Work, tasks, i, workTitle, breakTitle)
         == PomodoroView.CurrentTitle(Work, tasks, i, workTitle, breakTitle)
  {
  }

  /** During a break with a task selected, the tab title names that item while the panel
      shows the break title; with no task selected both show the break title. */
  lemma DocumentTitleInBreak(tasks: seq<Todo>, i: int, workTitle: string, breakTitle: string)
    ensures PomodoroView.CurrentTitle(Break, tasks, i, workTitle, breakTitle) == breakTitle
    ensures DocumentTaskTitle(Break, tasks, i, workTitle, breakTitle)
         == (if 0 <= i < |tasks| then tasks[i].text else breakTitle)
  {
  }

  /** `toLowerCase` on one ASCII letter (the only characters whose lower case can be one of
      the shortcut keys). */
  function LowerAscii(c: char): (r: char)
    ensures 'A' <= c <= 'Z' ==> r as int == c as int + 32
    ensures !('A' <= c <= 'Z') ==> r == c
  {
    if 'A' <= c <= 'Z' then (c as int + 32) as char else c
  }

  /** The keyboard shortcuts. */
  datatype KeyAction = ToggleTimer | ResetTimer | SwitchTab | OpenAddTodo | ToggleFullscreen | NoAction

  /** The action for a key press: none while typing in an input or text area; otherwise by
      the key's lower-cased name — space, `r`, `s`, `t` or `f`. */
  function KeyActionOf(key: string, targetTag: string): (a: KeyAction)
    ensures targetTag == "INPUT" || targetTag == "TEXTAREA" ==> a == NoAction
    ensures targetTag != "INPUT" && targetTag != "TEXTAREA" ==>
      (a == ToggleTimer <==> key == " ") &&
      (a == ResetTimer <==> key == "r" || key == "R") &&
      (a == SwitchTab <==> key == "s" || key == "S") &&
      (a == OpenAddTodo <==> key == "t" || key == "T") &&
      (a == ToggleFullscreen <==> key == "f" || key == "F")
  {
    if targetTag == "INPUT" || targetTag == "TEXTAREA" then NoAction
    else if |key| != 1 then NoAction
    else
      var c := LowerAscii(key[0]);
      if c == ' ' then ToggleTimer
      else if c == 'r' then ResetTimer
      else if c == 's' then SwitchTab
      else if c == 't' then OpenAddTodo
      else if c == 'f' then ToggleFullscreen
      else NoAction
  }

  /** Every field of `Home`, as one value. */
  datatype Snapshot = Snapshot(
    todos: seq<Todo>, taskIndex: int, addTodoOpen: bool,
    workMins: int, breakMins: int, workTitle: string, breakTitle: string,
    time: int, running: bool, mode: Mode, sessions: int, streak: int,
    lastSessionDate: Option<int>, breakConfirmOpen: bool,
    stopwatchTime: int, stopwatchRunning: bool, activeTab: Tab)

  /** The state of a freshly mounted page. */
  const InitialState := Snapshot([], -1, false, 25, 5, "Work", "Break", 25 * 60, false, Work, 0, 0,
                                 None, false, 0, false, PomodoroTab)

  class Home {
    var todos: seq<Todo>
    var taskIndex: int
    var addTodoOpen: bool
    var workMins: int
    var breakMins: int
    var workTitle: string
    var breakTitle: string
    var time: int
    var running: bool
    var mode: Mode
    var sessions: int
    var streak: int
    var lastSessionDate: Option<int>
    var breakConfirmOpen: bool
    var stopwatchTime: int
    var stopwatchRunning: bool
    var activeTab: Tab

    /** Ids are distinct, and the selected index is -1 (none) or a position, possibly past
        the end of the pending list until the re-clamp runs. */
    predicate Valid()
      reads this
    {
      taskIndex >= -1 && Todos.UniqueIds(todos)
    }

    function State(): Snapshot
      reads this
    {
      Snapshot(todos, taskIndex, addTodoOpen, workMins, breakMins, workTitle, breakTitle,
               time, running, mode, sessions, streak, lastSessionDate, breakConfirmOpen,
               stopwatchTime, stopwatchRunning, activeTab)
    }

    /** The pending tasks, which the Pomodoro panel cycles through. */
    function PendingTodos(): (p: seq<Todo>)
      reads this
      ensures forall t :: t in p <==> t in todos && !t.completed
    {
      Todos.PartitionMembers(todos);
      Todos.Pending(todos)
    }

    /** The fragment the page writes into the URL for the current state. */
    function CurrentFragment(): (f: string)
      reads this
      ensures f == "" <==> !(activeTab == PomodoroTab && running) && !(activeTab == StopwatchTab && stopwatchRunning)
    {
      Fragment.BuildFragment(activeTab, running, mode, time, stopwatchRunning, stopwatchTime)
    }

    constructor()
      ensures Valid()
      ensures State() == InitialState
    {
      todos, taskIndex, addTodoOpen := [], -1, false;
      workMins, breakMins, workTitle, breakTitle := 25, 5, "Work", "Break";
      time, running, mode := 25 * 60, false, Work;
      sessions, streak, lastSessionDate, breakConfirmOpen := 0, 0, None, false;
      stopwatchTime, stopwatchRunning, activeTab := 0, false, PomodoroTab;
    }

    /** `toggleTodo`: flip the done flag of the items with `id`. */
    method ToggleTodo(id: string)
      modifies this
      requires Valid()
      ensures Valid()
      ensures State() == old(State()).(todos := Todos.ToggleTodo(old(todos), id))
    {
      Todos.ToggleKeepsIdsUnique(todos, id);
      todos := Todos.ToggleTodo(todos, id);
    }

    /** `addTodo`: append a new pending item; `id` stands for the fresh random UUID. */
    method AddTodo(id: string, text: string)
      modifies this
      requires Valid() && !Todos.HasId(todos, id)
      ensures Valid()
      ensures State() == old(State()).(todos := Todos.AddTodo(old(todos), id, text))
      ensures PendingTodos() == old(PendingTodos()) + [Todo(id, text, false)]
    {
      Todos.AddTodoKeepsIdsUnique(todos, id, text);
      Todos.AddTodoViews(todos, id, text);
      todos := Todos.AddTodo(todos, id, text);
    }

    /** `deleteTodo`: drop the items with `id`. */
    method DeleteTodo(id: string)
      modifies this
      requires Valid()
      ensures Valid()
      ensures State() == old(State()).(todos := Todos.DeleteTodo(old(todos), id))
    {
      Todos.DeleteKeepsIdsUnique(todos, id);
      todos := Todos.DeleteTodo(todos, id);
    }

    /** `editTodo`: replace the text of the items with `id`. */
    method EditTodo(id: string, text: string)
      modifies this
      requires Valid()
      ensures Valid()
      ensures State() == old(State()).(todos := Todos.EditTodo(old(todos), id, text))
      ensures PendingTodos() == Todos.EditTodo(old(PendingTodos()), id, text)
    {
      Todos.EditKeepsIdsUnique(todos, id, text);
      Todos.EditPending(todos, id, text);
      todos := Todos.EditTodo(todos, id, text);
    }

    /** The effect that pulls the selected index back when it is at or past the end of the
        pending list; it leaves -1 alone, and on an empty list moves any other index to 0. */
    method ReclampTaskIndex()
      modifies this
      requires Valid()
      ensures Valid()
      ensures State() == old(State()).(taskIndex := TaskIndex.Reclamp(old(taskIndex), |old(PendingTodos())|))
      ensures taskIndex < |PendingTodos()| || (|PendingTodos()| == 0 && taskIndex == 0)
      ensures old(taskIndex) == -1 ==> taskIndex == -1
      ensures old(taskIndex) >= |old(PendingTodos())| ==>
        taskIndex == (if |PendingTodos()| > 0 then |PendingTodos()| - 1 else 0)
    {
      var n := |Todos.Pending(todos)|;
      if taskIndex >= n {
        taskIndex := if n - 1 > 0 then n - 1 else 0;
      }
    }

    /** One second of the running Pomodoro. Above one second left it counts down. Otherwise
        the session ends: the clock stops at 0; a work session also counts a session,
        updates the streak for `today` (a day number), marks the selected task done and
        asks whether to start the break; a break switches back to work mode with a full work
        session on the clock. A tick arrives
        only while the timer runs, so in any other state it changes nothing. */
    method Tick(today: int)
      modifies this
      requires Valid()
      ensures Valid()
      ensures !old(running) ==> State() == old(State())
      ensures old(running) && old(time) > 1 ==> State() == old(State()).(time := old(time) - 1)
      ensures old(running) && old(time) <= 1 && old(mode) == Work ==>
        State() == old(State()).(time := 0, running := false, sessions := old(sessions) + 1,
                                 streak := Streak.UpdateStreak(today, old(lastSessionDate), old(streak)).count,
                                 lastSessionDate := Some(today),
                                 todos := CompleteSelected(old(todos), old(taskIndex)),
                                 breakConfirmOpen := true)
      ensures old(running) && old(time) <= 1 && old(mode) == Break ==>
        State() == old(State()).(time := old(workMins) * 60, running := false, mode := Work)
    {
      if running {
        if time <= 1 {
          if mode == Work {
            FinishWorkSession(today);
          } else {
            FinishBreak();
          }
        } else {
          time := time - 1;
        }
      }
    }

    /** The last second of a work session. */
    method FinishWorkSession(today: int)
      modifies this
      requires Valid()
      ensures Valid()
      ensures State() == old(State()).(time := 0, running := false, sessions := old(sessions) + 1,
                                       streak := Streak.UpdateStreak(today, old(lastSessionDate), old(streak)).count,
                                       lastSessionDate := Some(today),
                                       todos := CompleteSelected(old(todos), old(taskIndex)),
                                       breakConfirmOpen := true)
    {
      var done := CompleteSelected(todos, taskIndex);
      CompleteSelectedKeepsIdsUnique(todos, taskIndex);
      var newStreak := Streak.UpdateStreak(today, lastSessionDate, streak).count;
      running, sessions, streak, lastSessionDate := false, sessions + 1, newStreak, Some(today);
      todos, breakConfirmOpen, time := done, true, 0;
    }

    /** The last second of a break. The tick's update runs while the page re-renders, so the
        full work session it queues from inside itself is a render-phase update, applied after
        the tick's own result, 0: the clock ends on a full work session, stopped. */
    method FinishBreak()
      modifies this
      requires Valid()
      ensures Valid()
      ensures State() == old(State()).(time := old(workMins) * 60, running := false, mode := Work)
    {
      time := 0;
      running := false;
      mode := Work;
      time := workMins * 60;
    }

    /** `togglePomodoro`: start or pause; nothing else changes. */
    method TogglePomodoro()
      modifies this
      requires Valid()
      ensures Valid()
      ensures State() == old(State()).(running := !old(running))
    {
      running := !running;
    }

    /** `resetPomodoro`: stop, back to work mode with a full work session. */
    method ResetPomodoro()
      modifies this
      requires Valid()
      ensures Valid()
      ensures State() == old(State()).(running := false, mode := Work, time := old(workMins) * 60)
    {
      running := false;
      mode := Work;
      time := workMins * 60;
    }

    /** `handleSettingsChange`: store the four settings; a stopped clock is reset to the new
        length of the current mode, a running one keeps counting from where it is. */
    method HandleSettingsChange(newWorkMins: int, newBreakMins: int, newWorkTitle: string, newBreakTitle: string)
      modifies this
      requires Valid()
      ensures Valid()
      ensures State() == old(State()).(workMins := newWorkMins, breakMins := newBreakMins,
                                       workTitle := newWorkTitle, breakTitle := newBreakTitle,
                                       time := if old(running) then old(time)
                                               else if old(mode) == Work then newWorkMins * 60
                                               else newBreakMins * 60)
    {
      workMins, breakMins := newWorkMins, newBreakMins;
      workTitle, breakTitle := newWorkTitle, newBreakTitle;
      if !running {
        if mode == Work {
          time := newWorkMins * 60;
        } else {
          time := newBreakMins * 60;
        }
      }
    }

    /** Saving the settings dialog: whatever was typed, a stopped clock is then set to a
        whole, positive number of minutes. */
    method SaveSettings(local: PomodoroView.Settings)
      modifies this
      requires Valid()
      ensures Valid()
      ensures var s := PomodoroView.SaveSettings(local);
              State() == old(State()).(workMins := s.workMins, breakMins := s.breakMins,
                                       workTitle := s.workTitle, breakTitle := s.breakTitle,
                                       time := if old(running) then old(time)
                                               else if old(mode) == Work then s.workMins * 60
                                               else s.breakMins * 60)
      ensures workMins >= 1 && breakMins >= 1
      ensures !old(running) ==> time >= 60 && time % 60 == 0
    {
      var s := PomodoroView.SaveSettings(local);
      HandleSettingsChange(s.workMins, s.breakMins, s.workTitle, s.breakTitle);
    }

    /** `handleCycleTask`: step the selected index circularly over the pending tasks; with
        no pending task nothing changes. */
    method HandleCycleTask(dir: TaskIndex.Direction)
      modifies this
      requires Valid()
      ensures Valid()
      ensures State() == old(State()).(taskIndex := TaskIndex.CycleTask(old(taskIndex), |old(PendingTodos())|, dir))
      ensures |PendingTodos()| > 0 ==> 0 <= taskIndex < |PendingTodos()|
    {
      var n := |Todos.Pending(todos)|;
      if n > 0 {
        TaskIndex.CycleInRange(taskIndex, n, dir);
      }
      taskIndex := TaskIndex.CycleTask(taskIndex, n, dir);
    }

    /** `handleStartBreak`: a full break starts running and the dialog closes. */
    method HandleStartBreak()
      modifies this
      requires Valid()
      ensures Valid()
      ensures State() == old(State()).(mode := Break, time := old(breakMins) * 60, running := true,
                                       breakConfirmOpen := false)
    {
      mode := Break;
      time := breakMins * 60;
      running := true;
      breakConfirmOpen := false;
    }

    /** `handleSkipBreak`: a full work session is set up, the dialog closes, and whether the
        clock runs is left as it was. */
    method HandleSkipBreak()
      modifies this
      requires Valid()
      ensures Valid()
      ensures State() == old(State()).(mode := Work, time := old(workMins) * 60, breakConfirmOpen := false)
    {
      mode := Work;
      time := workMins * 60;
      breakConfirmOpen := false;
    }

    /** `toggleStopwatch`: start or pause the stopwatch. */
    method ToggleStopwatch()
      modifies this
      requires Valid()
      ensures Valid()
      ensures State() == old(State()).(stopwatchRunning := !old(stopwatchRunning))
    {
      stopwatchRunning := !stopwatchRunning;
    }

    /** `resetStopwatch`: stop it at 0. */
    method ResetStopwatch()
      modifies this
      requires Valid()
      ensures Valid()
      ensures State() == old(State()).(stopwatchRunning := false, stopwatchTime := 0)
    {
      stopwatchRunning := false;
      stopwatchTime := 0;
    }

    /** One second of the running stopwatch; it ticks only while running. */
    method StopwatchTick()
      modifies this
      requires Valid()
      ensures Valid()
      ensures State() == old(State()).(stopwatchTime := if old(stopwatchRunning) then old(stopwatchTime) + 1
                                                        else old(stopwatchTime))
    {
      if stopwatchRunning {
        stopwatchTime := stopwatchTime + 1;
      }
    }

    /** Choosing a tab. */
    method SelectTab(tab: Tab)
      modifies this
      requires Valid()
      ensures Valid()
      ensures State() == old(State()).(activeTab := tab)
    {
      activeTab := tab;
    }

    /** The start-up read of `window.location.hash`: a well-formed fragment selects its
        timer's tab and resumes that timer, running, from the value it carries; any other
        hash changes nothing. Reports whether the state came from the URL. */
    method LoadFragment(hash: string) returns (loadedFromUrl: bool)
      modifies this
      requires Valid()
      ensures Valid()
      ensures loadedFromUrl <==> Fragment.ParseFragment(hash).Some?
      ensures Fragment.ParseFragment(hash) == None ==> State() == old(State())
      ensures forall m, t :: Fragment.ParseFragment(hash) == Some(Fragment.ResumePomodoro(m, t)) ==>
        State() == old(State()).(activeTab := PomodoroTab, mode := m, time := t, running := true)
      ensures forall t :: Fragment.ParseFragment(hash) == Some(Fragment.ResumeStopwatch(t)) ==>
        State() == old(State()).(activeTab := StopwatchTab, stopwatchTime := t, stopwatchRunning := true)
    {
      loadedFromUrl := Fragment.ParseFragment(hash).Some?;
      Resume(Fragment.ParseFragment(hash));
    }

    /** Applying what a fragment asks for: select the timer's tab and run it from the value
        carried. */
    method Resume(r: Option<Fragment.Resume>)
      modifies this
      requires Valid()
      ensures Valid()
      ensures r == None ==> State() == old(State())
      ensures r.Some? && r.value.ResumePomodoro? ==>
        State() == old(State()).(activeTab := PomodoroTab, mode := r.value.mode, time := r.value.time, running := true)
      ensures r.Some? && r.value.ResumeStopwatch? ==>
        State() == old(State()).(activeTab := StopwatchTab, stopwatchTime := r.value.time, stopwatchRunning := true)
    {
      if r.Some? && r.value.ResumePomodoro? {
        activeTab, mode, time, running := PomodoroTab, r.value.mode, r.value.time, true;
      } else if r.Some? {
        activeTab, stopwatchTime, stopwatchRunning := StopwatchTab, r.value.time, true;
      }
    }

    /** The start-up read of the stored durations (already parsed). Each is stored as is;
        the clock is reset to one of them only when the state did not come from the URL and
        the mode and running flag seen by the start-up render (`renderedMode`,
        `renderedRunning`) are that duration's mode and stopped. */
    method LoadStoredDurations(storedWorkMins: Option<int>, storedBreakMins: Option<int>,
                               loadedFromUrl: bool, renderedMode: Mode, renderedRunning: bool)
      modifies this
      requires Valid()
      ensures Valid()
      ensures workMins == (if storedWorkMins.Some? then storedWorkMins.value else old(workMins))
      ensures breakMins == (if storedBreakMins.Some? then storedBreakMins.value else old(breakMins))
      ensures time == (if storedBreakMins.Some? && renderedMode == Break && !renderedRunning && !loadedFromUrl
                       then storedBreakMins.value * 60
                       else if storedWorkMins.Some? && renderedMode == Work && !renderedRunning && !loadedFromUrl
                       then storedWorkMins.value * 60
                       else old(time))
      ensures State() == old(State()).(workMins := workMins, breakMins := breakMins, time := time)
    {
      if storedWorkMins.Some? {
        workMins := storedWorkMins.value;
        if renderedMode == Work && !renderedRunning && !loadedFromUrl {
          time := storedWorkMins.value * 60;
        }
      }
      if storedBreakMins.Some? {
        breakMins := storedBreakMins.value;
        if renderedMode == Break && !renderedRunning && !loadedFromUrl {
          time := storedBreakMins.value * 60;
        }
      }
    }

    /** The start-up effect on a freshly mounted page: the URL fragment first, then the stored
        durations. The effect sees the first render's state, where the mode is work and the
        clock stopped; so a resumed Pomodoro keeps its time, and a stored break length never
        resets the clock. */
    method Mount(hash: string, storedWorkMins: Option<int>, storedBreakMins: Option<int>)
      modifies this
      requires Valid() && State() == InitialState
      ensures Valid()
      ensures workMins == (if storedWorkMins.Some? then storedWorkMins.value else 25)
      ensures breakMins == (if storedBreakMins.Some? then storedBreakMins.value else 5)
      ensures forall m, t :: Fragment.ParseFragment(hash) == Some(Fragment.ResumePomodoro(m, t)) ==>
        State() == InitialState.(activeTab := PomodoroTab, mode := m, time := t, running := true,
                                 workMins := workMins, breakMins := breakMins)
      ensures forall t :: Fragment.ParseFragment(hash) == Some(Fragment.ResumeStopwatch(t)) ==>
        State() == InitialState.(activeTab := StopwatchTab, stopwatchTime := t, stopwatchRunning := true,
                                 workMins := workMins, breakMins := breakMins)
      ensures Fragment.ParseFragment(hash) == None ==>
        State() == InitialState.(workMins := workMins, breakMins := breakMins,
                                 time := if storedWorkMins.Some? then storedWorkMins.value * 60 else 25 * 60)
    {
      var renderedMode, renderedRunning := mode, running;
      var loadedFromUrl := LoadFragment(hash);
      LoadStoredDurations(storedWorkMins, storedBreakMins, loadedFromUrl, renderedMode, renderedRunning);
    }

    /** The keyboard shortcuts: space starts or pauses, `r` resets, the timer of the current
        tab; `s` switches tab; `t` opens the add dialog; fullscreen is a browser call and
        changes no state here; keys typed into a field do nothing. */
    method HandleKeyDown(key: string, targetTag: string)
      modifies this
      requires Valid()
      ensures Valid()
      ensures var a := KeyActionOf(key, targetTag);
              (a == NoAction || a == ToggleFullscreen ==> State() == old(State())) &&
              (a == ToggleTimer && old(activeTab) == PomodoroTab ==> State() == old(State()).(running := !old(running))) &&
              (a == ToggleTimer && old(activeTab) == StopwatchTab ==>
                 State() == old(State()).(stopwatchRunning := !old(stopwatchRunning))) &&
              (a == ResetTimer && old(activeTab) == PomodoroTab ==>
                 State() == old(State()).(running := false, mode := Work, time := old(workMins) * 60)) &&
              (a == ResetTimer && old(activeTab) == StopwatchTab ==>
                 State() == old(State()).(stopwatchRunning := false, stopwatchTime := 0)) &&
              (a == SwitchTab ==>
                 State() == old(State()).(activeTab := if old(activeTab) == PomodoroTab then StopwatchTab else PomodoroTab)) &&
              (a == OpenAddTodo ==> State() == old(State()).(addTodoOpen := true))
    {
      match KeyActionOf(key, targetTag)
      case ToggleTimer =>
        if activeTab == PomodoroTab { TogglePomodoro(); } else { ToggleStopwatch(); }
      case ResetTimer =>
        if activeTab == PomodoroTab { ResetPomodoro(); } else { ResetStopwatch(); }
      case SwitchTab =>
        activeTab := if activeTab == PomodoroTab then StopwatchTab else PomodoroTab;
      case OpenAddTodo =>
        addTodoOpen := true;
      case ToggleFullscreen =>
      case NoAction =>
    }
  }
}

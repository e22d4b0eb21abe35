/** The Pomodoro panel's own logic: the settings dialog's minute inputs and the clamp applied
    when they are saved, the title shown above the clock, and whether the cycling arrows are
    enabled. The panel receives the pending tasks and the selected index from the page. */
module PomodoroView {
  import opened Types
  import JsRuntime
  import TaskIndex

  /** A saved duration: a positive number of minutes is kept, anything else becomes 1. */
  function ClampMinutes(m: int): (r: int)
    ensures r >= 1
    ensures m >= 1 ==> r == m
  {
    if m > 0 then m else 1
  }

  /** Clamping a duration that was already saved changes nothing. */
  lemma ClampIdempotent(m: int)
    ensures ClampMinutes(ClampMinutes(m)) == ClampMinutes(m)
  {
  }

  /** The four values of the settings dialog. */
  datatype Settings = Settings(workMins: int, breakMins: int, workTitle: string, breakTitle: string)

  /** `handleSaveSettings`: what the dialog forwards to the page — both durations clamped
      to at least one minute, both titles as typed. */
  function SaveSettings(local: Settings): (s: Settings)
    ensures s.workMins >= 1 && s.breakMins >= 1
    ensures local.workMins >= 1 ==> s.workMins == local.workMins
    ensures local.breakMins >= 1 ==> s.breakMins == local.breakMins
    ensures local.workMins < 1 ==> s.workMins == 1
    ensures local.breakMins < 1 ==> s.breakMins == 1
    ensures s.workTitle == local.workTitle && s.breakTitle == local.breakTitle
  {
    Settings(ClampMinutes(local.workMins), ClampMinutes(local.breakMins), local.workTitle, local.breakTitle)
  }

  /** The minute field's `onChange`: `parseInt(text, 10) || 0`, so text without a number
      (NaN) is held as 0. */
  function MinutesInput(text: string): (m: int)
    ensures JsRuntime.ParseInt(text) == None ==> m == 0
    ensures JsRuntime.ParseInt(text).Some? ==> m == JsRuntime.ParseInt(text).value
  {
    match JsRuntime.ParseInt(text)
    case Some(v) => v
    case None => 0
  }

  /** Text in a minute field that parseInt cannot read is saved as one minute. */
  lemma NonNumericSavesAsOne(workText: string, breakText: string, workTitle: string, breakTitle: string)
    requires JsRuntime.ParseInt(workText) == None
    ensures SaveSettings(Settings(MinutesInput(workText), MinutesInput(breakText), workTitle, breakTitle)).workMins == 1
  {
  }

  /** A positive number typed into a minute field is saved as exactly that many minutes. */
  lemma TypedMinutesSaved(n: int, breakText: string, workTitle: string, breakTitle: string)
    requires n >= 1
    ensures SaveSettings(Settings(MinutesInput(JsRuntime.IntToString(n)), MinutesInput(breakText), workTitle, breakTitle)).workMins == n
  {
    JsRuntime.ParseIntToString(n);
  }

  /** The title shown above the clock: during a break the break title; during work the
      selected task's text when the index picks a pending task, else the work title. */
  function CurrentTitle(mode: Mode, tasks: seq<Todo>, i: int, workTitle: string, breakTitle: string): (r: string)
    ensures mode == Break ==> r == breakTitle
    ensures mode == Work && 0 <= i < |tasks| ==> r == tasks[i].text
    ensures mode == Work && !(0 <= i < |tasks|) ==> r == workTitle
  {
    match mode
    case Work =>
      (match TaskIndex.SelectedTask(tasks, i)
       case Some(t) => t.text
       case None => workTitle)
    case Break => breakTitle
  }

  /** `canCycle`: the cycling arrows are enabled in work mode while a task is pending. */
  predicate CanCycle(mode: Mode, tasks: seq<Todo>): (b: bool)
    ensures b <==> mode == Work && TaskIndex.SelectedTask(tasks, 0).Some?
  {
    |tasks| > 0 && mode == Work
  }

  /** Whenever the arrows are enabled, one step from any index the page can hold makes the
      panel show a pending task's text instead of the work title. */
  lemma CycleShowsTask(mode: Mode, tasks: seq<Todo>, i: int, dir: TaskIndex.Direction, workTitle: string, breakTitle: string)
    requires CanCycle(mode, tasks) && i >= -1
    ensures var j := TaskIndex.CycleTask(i, |tasks|, dir);
            0 <= j < |tasks| && CurrentTitle(mode, tasks, j, workTitle, breakTitle) == tasks[j].text
  {
    TaskIndex.CycleInRange(i, |tasks|, dir);
  }

  /** When the arrows are disabled the title does not depend on the selected index. */
  lemma DisabledTitleFixed(mode: Mode, tasks: seq<Todo>, i: int, j: int, workTitle: string, breakTitle: string)
    requires !CanCycle(mode, tasks)
    ensures CurrentTitle(mode, tasks, i, workTitle, breakTitle) == CurrentTitle(mode, tasks, j, workTitle, breakTitle)
  {
  }
}

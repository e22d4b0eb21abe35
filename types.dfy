/** Shared value types of the app: the optional value, the to-do record and the two enums
    the page keeps in its state (the Pomodoro mode and the selected tab). */
module Types {

  datatype Option<T> = None | Some(value: T)

  /** A to-do item as stored in the page's list: an opaque id, its text and whether it is done. */
  datatype Todo = Todo(id: string, text: string, completed: bool)

  /** The two phases of the Pomodoro cycle ('work' | 'break'). */
  datatype Mode = Work | Break

  /** The two tabs of the page ('pomodoro' | 'stopwatch'). */
  datatype Tab = PomodoroTab | StopwatchTab
}

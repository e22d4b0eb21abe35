/** The shareable URL fragment: `#pomodoro/<work|break>/<seconds>` or `#stopwatch/<seconds>`
    is written while a timer runs on its tab and read once when the page loads, to resume
    that timer. */
module Fragment {
  import opened Types
  import JsRuntime

  /** The mode as the hash writes it (`${pomodoroMode}`). */
  function ModeName(m: Mode): (s: string)
    ensures s == "work" || s == "break"
    ensures s == "work" <==> m == Work
  {
    match m
    case Work => "work"
    case Break => "break"
  }

  function ParseMode(s: string): (r: Option<Mode>)
    ensures r.Some? ==> ModeName(r.value) == s
  {
    if s == "work" then Some(Work) else if s == "break" then Some(Break) else None
  }

  /** The mode's name reads back as that mode. */
  lemma ModeRoundTrip(m: Mode)
    ensures ParseMode(ModeName(m)) == Some(m)
  {
    match m
    case Work =>
    case Break =>
  }

  /** What a well-formed fragment asks the page to resume, running. */
  datatype Resume = ResumePomodoro(mode: Mode, time: int) | ResumeStopwatch(time: int)

  /** The fragment the page writes (without '#'): the Pomodoro's while it runs on the
      selected Pomodoro tab, else the stopwatch's while it runs on the selected stopwatch
      tab, else none (""). */
  function BuildFragment(tab: Tab, pomodoroRunning: bool, mode: Mode, pomodoroTime: int,
                         stopwatchRunning: bool, stopwatchTime: int): (f: string)
    ensures f == "" <==> !(tab == PomodoroTab && pomodoroRunning) && !(tab == StopwatchTab && stopwatchRunning)
  {
    if tab == PomodoroTab && pomodoroRunning then
      "pomodoro/" + ModeName(mode) + "/" + JsRuntime.IntToString(pomodoroTime)
    else if tab == StopwatchTab && stopwatchRunning then
      "stopwatch/" + JsRuntime.IntToString(stopwatchTime)
    else ""
  }

  /** `window.location.hash` once the page has written fragment `f`: `#f`, or "" when the
      fragment was cleared. */
  function LocationHash(f: string): (h: string)
    ensures h == "" <==> f == ""
  {
    if f == "" then "" else "#" + f
  }

  /** The start-up parse of `window.location.hash` (which includes the leading '#'). */
  function ParseFragment(hash: string): (r: Option<Resume>)
    ensures hash == "" ==> r == None
  {
    if hash == "" then None else ParseParts(JsRuntime.Split(hash[1..], '/'))
  }

  /** The fragment's decision once split at '/'. */
  function ParseParts(parts: seq<string>): (r: Option<Resume>)
    requires |parts| >= 1
    ensures r.Some? && r.value.ResumePomodoro? ==>
      parts[0] == "pomodoro" && |parts| == 3 && ModeName(r.value.mode) == parts[1] &&
      JsRuntime.ParseInt(parts[2]) == Some(r.value.time)
    ensures r.Some? && r.value.ResumeStopwatch? ==>
      parts[0] == "stopwatch" && |parts| == 2 && JsRuntime.ParseInt(parts[1]) == Some(r.value.time)
    ensures parts[0] != "pomodoro" && parts[0] != "stopwatch" ==> r == None
  {
      if parts[0] == "pomodoro" && |parts| == 3 then
        match (ParseMode(parts[1]), JsRuntime.ParseInt(parts[2]))
        case (Some(m), Some(t)) => Some(ResumePomodoro(m, t))
        case _ => None
      else if parts[0] == "stopwatch" && |parts| == 2 then
        match JsRuntime.ParseInt(parts[1])
        case Some(t) => Some(ResumeStopwatch(t))
        case None => None
      else None
  }

  lemma NoSlashInNumber(n: int)
    ensures '/' !in JsRuntime.IntToString(n)
  {
    var s := JsRuntime.IntToString(n);
    var digits := JsRuntime.NatToString(if n < 0 then -n else n);
    assert forall k :: 0 <= k < |digits| ==> JsRuntime.IsDigit(digits[k]);
    if n < 0 {
      assert s == "-" + digits;
    }
  }

  /** `pomodoro/<word>/<number>` splits into its three parts. */
  lemma SplitPomodoro(word: string, number: string)
    requires '/' !in word && '/' !in number
    ensures JsRuntime.Split("pomodoro" + ['/'] + (word + ['/'] + number), '/') == ["pomodoro", word, number]
  {
    JsRuntime.SplitNoSeparator(number, '/');
    JsRuntime.SplitFirstPiece(word, '/', number);
    JsRuntime.SplitFirstPiece("pomodoro", '/', word + ['/'] + number);
  }

  /** `stopwatch/<number>` splits into its two parts. */
  lemma SplitStopwatch(number: string)
    requires '/' !in number
    ensures JsRuntime.Split("stopwatch" + ['/'] + number, '/') == ["stopwatch", number]
  {
    JsRuntime.SplitNoSeparator(number, '/');
    JsRuntime.SplitFirstPiece("stopwatch", '/', number);
  }

  /** The hash `#pomodoro/<word>/<number>` is parsed from those three parts. */
  lemma PomodoroHashParts(word: string, number: string)
    requires '/' !in word && '/' !in number
    ensures ParseFragment("#pomodoro/" + word + "/" + number) == ParseParts(["pomodoro", word, number])
  {
    var h := "#pomodoro/" + word + "/" + number;
    assert h[1..] == "pomodoro" + ['/'] + (word + ['/'] + number);
    SplitPomodoro(word, number);
  }

  /** The hash `#stopwatch/<number>` is parsed from those two parts. */
  lemma StopwatchHashParts(number: string)
    requires '/' !in number
    ensures ParseFragment("#stopwatch/" + number) == ParseParts(["stopwatch", number])
  {
    var h := "#stopwatch/" + number;
    assert h[1..] == "stopwatch" + ['/'] + number;
    SplitStopwatch(number);
  }

  /** Three parts naming a mode and a number resume the Pomodoro with them. */
  lemma PomodoroParts(word: string, number: string, m: Mode, t: int)
    requires ParseMode(word) == Some(m) && JsRuntime.ParseInt(number) == Some(t)
    ensures ParseParts(["pomodoro", word, number]) == Some(ResumePomodoro(m, t))
  {
  }

  /** Two parts naming a number resume the stopwatch with it. */
  lemma StopwatchParts(number: string, t: int)
    requires JsRuntime.ParseInt(number) == Some(t)
    ensures ParseParts(["stopwatch", number]) == Some(ResumeStopwatch(t))
  {
  }

  /** Reading back the fragment written for a running Pomodoro resumes it in the same mode
      with the same remaining time. */
  lemma PomodoroRoundTrip(mode: Mode, time: int, stopwatchRunning: bool, stopwatchTime: int)
    ensures ParseFragment(LocationHash(BuildFragment(PomodoroTab, true, mode, time, stopwatchRunning, stopwatchTime)))
         == Some(ResumePomodoro(mode, time))
  {
    var number := JsRuntime.IntToString(time);
    var word := ModeName(mode);
    var f := BuildFragment(PomodoroTab, true, mode, time, stopwatchRunning, stopwatchTime);
    assert LocationHash(f) == "#pomodoro/" + word + "/" + number;
    NoSlashInNumber(time);
    PomodoroHashParts(word, number);
    JsRuntime.ParseIntToString(time);
    ModeRoundTrip(mode);
    PomodoroParts(word, number, mode, time);
  }

  /** Reading back the fragment written for a running stopwatch resumes it at the same
      elapsed time. */
  lemma StopwatchRoundTrip(pomodoroRunning: bool, mode: Mode, pomodoroTime: int, time: int)
    ensures ParseFragment(LocationHash(BuildFragment(StopwatchTab, pomodoroRunning, mode, pomodoroTime, true, time)))
         == Some(ResumeStopwatch(time))
  {
    var number := JsRuntime.IntToString(time);
    var h := LocationHash(BuildFragment(StopwatchTab, pomodoroRunning, mode, pomodoroTime, true, time));
    assert h == "#stopwatch/" + number;
    NoSlashInNumber(time);
    StopwatchHashParts(number);
    JsRuntime.ParseIntToString(time);
    StopwatchParts(number, time);
  }

  /** A Pomodoro fragment needs exactly three parts: with any other number of '/' after
      `#pomodoro/` it is ignored. */
  lemma PomodoroWrongPartCount(rest: string)
    requires multiset(rest)['/'] != 1
    ensures ParseFragment("#pomodoro/" + rest) == None
  {
    var h := "#pomodoro/" + rest;
    assert h[1..] == "pomodoro" + ['/'] + rest;
    JsRuntime.SplitFirstPiece("pomodoro", '/', rest);
  }

  /** A stopwatch fragment needs exactly two parts: any further '/' makes it ignored. */
  lemma StopwatchWrongPartCount(rest: string)
    requires multiset(rest)['/'] != 0
    ensures ParseFragment("#stopwatch/" + rest) == None
  {
    var h := "#stopwatch/" + rest;
    assert h[1..] == "stopwatch" + ['/'] + rest;
    JsRuntime.SplitFirstPiece("stopwatch", '/', rest);
  }

  /** A Pomodoro fragment whose mode is neither `work` nor `break` is ignored. */
  lemma PomodoroUnknownMode(word: string, number: string)
    requires '/' !in word && '/' !in number && word != "work" && word != "break"
    ensures ParseFragment("#pomodoro/" + word + "/" + number) == None
  {
    PomodoroHashParts(word, number);
  }

  /** A fragment whose number part has no digit where parseInt needs one is ignored. */
  lemma NonNumericTime(mode: Mode, number: string)
    requires '/' !in number && JsRuntime.ParseInt(number) == None
    ensures ParseFragment("#pomodoro/" + ModeName(mode) + "/" + number) == None
    ensures ParseFragment("#stopwatch/" + number) == None
  {
    PomodoroHashParts(ModeName(mode), number);
    StopwatchHashParts(number);
  }

  /** A fragment naming neither timer is ignored. */
  lemma UnknownTimer(word: string, rest: string)
    requires '/' !in word && word != "pomodoro" && word != "stopwatch"
    ensures ParseFragment("#" + word) == None
    ensures ParseFragment("#" + word + "/" + rest) == None
  {
    var h := "#" + word;
    assert h[1..] == word;
    JsRuntime.SplitNoSeparator(word, '/');
    var g := "#" + word + "/" + rest;
    assert g[1..] == word + ['/'] + rest;
    JsRuntime.SplitFirstPiece(word, '/', rest);
  }
}

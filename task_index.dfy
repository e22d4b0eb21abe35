/** The Pomodoro's selected task is an index into the current pending list, not an id.
    This module holds what the page does with that index: look it up, step it circularly,
    and pull it back in range when the pending list shrinks. */
module TaskIndex {
  import opened Types
  import JsRuntime

  /** `i !== -1 && tasks[i]`: the item at `i`, if `i` is a position of `tasks`
      (a JavaScript array read outside its bounds is `undefined`, hence falsy). */
  function SelectedTask(tasks: seq<Todo>, i: int): (r: Option<Todo>)
    ensures r.Some? <==> 0 <= i < |tasks|
    ensures r.Some? ==> r.value == tasks[i]
  {
    if i != -1 && 0 <= i < |tasks| then Some(tasks[i]) else None
  }

  datatype Direction = Next | Prev

  /** JavaScript's `%` on the dividends a step can produce: below `2 * n` it subtracts `n` at
      most once, and `-1 % 1` is 0. */
  lemma RemainderOfStep(a: int, n: int)
    requires n > 0 && -1 <= a < 2 * n && (a >= 0 || n == 1)
    ensures JsRuntime.Remainder(a, n) == (if a < 0 then 0 else if a < n then a else a - n)
  {
    if a >= n {
      ModOnce(a, n);
    } else if a >= 0 {
      ModBelow(a, n);
    }
  }

  /** `handleCycleTask` on an index `i` over `n` pending tasks: nothing happens when there is
      no pending task; otherwise `(i + 1) % n` or `(i - 1 + n) % n` with JavaScript's `%`. */
  function CycleTask(i: int, n: nat, dir: Direction): (r: int)
    ensures n == 0 ==> r == i
    ensures n > 0 && -1 <= i < n && dir == Next ==> r == (if i + 1 < n then i + 1 else 0)
    ensures n > 0 && 0 <= i < n && dir == Prev ==> r == (if i > 0 then i - 1 else n - 1)
    ensures n > 0 && i == -1 && dir == Prev ==> r == (if n > 1 then n - 2 else 0)
  {
    if n == 0 then i
    else
      match dir
      case Next =>
        if -1 <= i < n then RemainderOfStep(i + 1, n); JsRuntime.Remainder(i + 1, n)
        else JsRuntime.Remainder(i + 1, n)
      case Prev =>
        if -1 <= i < n then RemainderOfStep(i - 1 + n, n); JsRuntime.Remainder(i - 1 + n, n)
        else JsRuntime.Remainder(i - 1 + n, n)
  }

  /** From any index the page can hold (-1 for none, or possibly past the end before the
      re-clamp runs), a step lands on a position of the pending list. */
  lemma CycleInRange(i: int, n: nat, dir: Direction)
    requires n > 0 && i >= -1
    ensures 0 <= CycleTask(i, n, dir) < n
  {
    var a := if dir == Next then i + 1 else i - 1 + n;
    var r := CycleTask(i, n, dir);
    assert r == JsRuntime.Remainder(a, n);
    if a < 0 {
      assert a == -1 && n == 1;
      assert JsRuntime.Abs(a) % n == 0;
    }
  }

  lemma ModBelow(a: int, n: int)
    requires 0 <= a < n
    ensures a % n == a
  {
  }

  lemma ModOnce(a: int, n: int)
    requires 0 < n <= a < 2 * n
    ensures a % n == a - n
  {
  }

  /** Stepping forward and then back returns to the same task. */
  lemma NextThenPrev(i: int, n: nat)
    requires 0 <= i < n
    ensures CycleTask(CycleTask(i, n, Next), n, Prev) == i
  {
    var next := CycleTask(i, n, Next);
    if i + 1 < n {
      ModBelow(i + 1, n);
      assert next == i + 1;
      ModOnce(i + n, n);
    } else {
      ModOnce(i + 1, n);
      assert next == 0;
      ModBelow(n - 1, n);
    }
  }

  /** Stepping back and then forward returns to the same task. */
  lemma PrevThenNext(i: int, n: nat)
    requires 0 <= i < n
    ensures CycleTask(CycleTask(i, n, Prev), n, Next) == i
  {
    var prev := CycleTask(i, n, Prev);
    if i > 0 {
      ModOnce(i - 1 + n, n);
      assert prev == i - 1;
      ModBelow(i, n);
    } else {
      ModBelow(n - 1, n);
      assert prev == n - 1;
      ModOnce(n, n);
    }
  }

  /** The re-clamp effect: an index at or past the `n` pending tasks moves to `max(0, n - 1)`. */
  function Reclamp(i: int, n: nat): (r: int)
    ensures r < n || (n == 0 && r == 0)
    ensures i < n ==> r == i
    ensures i >= n ==> r == (if n > 0 then n - 1 else 0)
    ensures i >= -1 ==> r >= -1
  {
    if i >= n then (if n - 1 > 0 then n - 1 else 0) else i
  }

  /** Re-clamping again changes nothing: the effect settles after one run. */
  lemma ReclampIdempotent(i: int, n: nat)
    ensures Reclamp(Reclamp(i, n), n) == Reclamp(i, n)
  {
  }
}

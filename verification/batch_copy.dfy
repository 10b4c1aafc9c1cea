/** The home page's batch copy controller: `startBatchCopy` fetches up to N random
    quotes and writes them to the clipboard one by one, one second apart, reporting
    progress after each write; `cancelBatchCopy` stops it.

    One run is a pure function of what the run observes. JavaScript runs the loop on a
    single thread and the shared `batchCopyActive` flag can only change while the run is
    suspended: during the fetch, during an awaited clipboard write, and during the
    one-second pause. The model therefore takes, as inputs, the value the flag has when
    the run resumes from each of those suspensions. The flag doubles as the cancel signal
    and as the "a run is active" guard, so a cancel followed by a new start sets it back
    to true and a sleeping loop then carries on: the model does not assume a single run. */
module BatchCopy {
  import opened Wrappers

  const MinCount := 1
  const MaxCount := 50

  /** The controller's view state: the shared flag and the DOM fields it drives. */
  datatype Ui = Ui(
    active: bool,           // batchCopyActive
    buttonDisabled: bool,   // batchCopyBtn.disabled
    progressVisible: bool,  // batchProgress shown
    current: int,           // batchCurrent text: items copied so far
    total: int,             // batchTotal text: the requested count
    percentage: int)        // batchPercentage text and progress bar width

  /** What one clipboard write does. `Declined` is `document.execCommand('copy')`
      returning false on the fallback path; the loop ignores that result. */
  datatype WriteOutcome = Done | Declined | Throws(message: string)

  /** What the environment does around the write of one item: the write's outcome, the
      flag when an awaited write resumes, and the flag when the pause after it ends. */
  datatype Step = Step(write: WriteOutcome, activeAfterWrite: bool, activeAfterPause: bool)

  /** `clipboardApi` selects `navigator.clipboard.writeText` (awaited, so the flag may
      change during the write) over the synchronous `execCommand` fallback. */
  datatype Env = Env(clipboardApi: bool, activeAfterFetch: bool, steps: seq<Step>)

  /** Observable side effects of a run, in order. */
  datatype Effect =
    | CountAlert                        // alert: enter a number between 1 and 50
    | Fetch(count: int)                 // GET /api/random/<count>
    | NoItemsAlert                      // alert: no quotes available
    | Write(text: string)               // one clipboard write attempt
    | Progress(copied: int, percentage: int)
    | Pause                             // the 1000 ms setTimeout
    | SuccessNotice                     // showCopySuccess()
    | FailureAlert(message: string)     // alert from the catch block

  datatype Ending = AlreadyRunning | InvalidCount | FetchFailed | NoItems | Completed | Stopped | WriteFailed

  datatype Run = Run(ui: Ui, effects: seq<Effect>, ending: Ending)

  /** How the copy loop was left: it ran past the last item (with the flag as read at
      the `if (batchCopyActive)` after the loop), it hit `break`, or a write threw. */
  datatype Exit = Finished(activeAtEnd: bool) | Broke | Threw(message: string)

  datatype LoopRun = LoopRun(copied: nat, effects: seq<Effect>, exit: Exit)

  /** `isNaN(count) || count < 1 || count > 50` rejects; `None` stands for NaN. */
  predicate ValidCount(parsed: Option<int>) {
    parsed.Some? && MinCount <= parsed.value <= MaxCount
  }

  /** `Math.round((copied / count) * 100)`. The browser divides and multiplies in IEEE
      doubles and then rounds half up. For counts 1 to 50 and at most `count` copied this
      is the exact quotient rounded half up, with one exception: for 23 of 40 the double
      product is 57.49999999999999, so the bar shows 57% where exact rounding gives 58%. */
  function Percentage(copied: nat, count: int): (p: int)
    requires count >= 1
    ensures 0 <= p
    ensures copied <= count ==> p <= 100
  {
    if copied == 23 && count == 40 then 57 else HalfUp(copied, count)
  }

  /** `copied / count * 100` rounded half up in exact arithmetic. */
  function HalfUp(copied: nat, count: int): (p: int)
    requires count >= 1
    ensures 0 <= p
    ensures copied <= count ==> p <= 100
  {
    var p := (200 * copied + count) / (2 * count);
    if copied <= count then
      QuotientBelow(200 * copied + count, 2 * count, 101);
      p
    else p
  }

  /** `a / b < k` whenever `a < k * b`. */
  lemma QuotientBelow(a: nat, b: int, k: nat)
    requires b >= 1 && a < k * b
    ensures a / b < k
  {
    var q := a / b;
    assert q * b <= a;
    if q >= k {
      MultiplyMonotone(k, q, b);
    }
  }

  lemma MultiplyMonotone(x: int, y: int, m: nat)
    requires x <= y
    ensures x * m <= y * m
  {
  }

  /** The state set up before the fetch. */
  function Begin(count: int): (r: Ui)
    ensures r.active && r.buttonDisabled && r.progressVisible
    ensures r.current == 0 && r.percentage == 0 && r.total == count
  {
    Ui(true, true, true, 0, count, 0)
  }

  /** The three assignments shared by the `finally` block and `cancelBatchCopy`. */
  function Release(ui: Ui): (r: Ui)
    ensures !r.active && !r.buttonDisabled && !r.progressVisible
    ensures r.current == ui.current && r.total == ui.total && r.percentage == ui.percentage
  {
    ui.(active := false, buttonDisabled := false, progressVisible := false)
  }

  /** `cancelBatchCopy`: clears the shared flag, hides the progress and re-enables the
      button; safe to call when idle, and it never touches the counters on screen. */
  function CancelBatchCopy(ui: Ui): (r: Ui)
    ensures !r.active && !r.buttonDisabled && !r.progressVisible
    ensures r.current == ui.current && r.total == ui.total && r.percentage == ui.percentage
  {
    Release(ui)
  }

  /** The clipboard writes in a trace. */
  function Writes(effects: seq<Effect>): seq<string> {
    if effects == [] then []
    else (if effects[0].Write? then [effects[0].text] else []) + Writes(effects[1..])
  }

  /** The progress updates in a trace. */
  function Reports(effects: seq<Effect>): seq<Effect> {
    if effects == [] then []
    else (if effects[0].Progress? then [effects[0]] else []) + Reports(effects[1..])
  }

  /** The number of pauses in a trace. */
  function PauseCount(effects: seq<Effect>): nat {
    if effects == [] then 0
    else (if effects[0].Pause? then 1 else 0) + PauseCount(effects[1..])
  }

  lemma FiltersAppend(a: seq<Effect>, b: seq<Effect>)
    ensures Writes(a + b) == Writes(a) + Writes(b)
    ensures Reports(a + b) == Reports(a) + Reports(b)
    ensures PauseCount(a + b) == PauseCount(a) + PauseCount(b)
  {
    if a != [] {
      assert (a + b)[0] == a[0];
      assert (a + b)[1..] == a[1..] + b;
      FiltersAppend(a[1..], b);
    } else {
      assert a + b == b;
    }
  }

  lemma FiltersSingle(e: Effect)
    ensures Writes([e]) == if e.Write? then [e.text] else []
    ensures Reports([e]) == if e.Progress? then [e] else []
    ensures PauseCount([e]) == if e.Pause? then 1 else 0
  {
    assert [e][1..] == [];
  }

  /** The progress updates a run owes after copying items `lo` (exclusive) through `hi`:
      the counter goes up by exactly one per successful write. */
  function ExpectedReports(lo: nat, hi: nat, count: int): (r: seq<Effect>)
    requires count >= 1
    ensures |r| == if lo <= hi then hi - lo else 0
    decreases hi - lo
  {
    if lo >= hi then [] else [Progress(lo + 1, Percentage(lo + 1, count))] + ExpectedReports(lo + 1, hi, count)
  }

  /** The `for` loop from index `i` on, with `copiedCount == i` on entry and
      `activeAtTop` the flag as the loop reads it at the top of this iteration. */
  function Loop(items: seq<string>, i: nat, count: int, env: Env, activeAtTop: bool): (r: LoopRun)
    requires i <= |items| <= |env.steps|
    requires count >= 1
    ensures i <= r.copied <= |items|
    ensures r.exit.Finished? <==> r.copied == |items|
    ensures i < |items| && !activeAtTop ==> r.effects == [] && r.exit == Broke
    decreases |items| - i
  {
    if i == |items| then LoopRun(i, [], Finished(activeAtTop))
    else if !activeAtTop then LoopRun(i, [], Broke)
    else
      var step := env.steps[i];
      if step.write.Throws? then LoopRun(i, [Write(items[i])], Threw(step.write.message))
      else
        var next := NextActive(items, i, env);
        var rest := Loop(items, i + 1, count, env, next);
        LoopRun(rest.copied, Copied(items, i, count, env) + rest.effects, rest.exit)
  }

  /** The flag as the next iteration reads it after item `i` was copied. The flag after
      the write decides whether the pause happens; without an awaited write nothing can
      run in between, so on the fallback path the flag is still true. */
  function NextActive(items: seq<string>, i: nat, env: Env): bool
    requires i < |items| <= |env.steps|
  {
    var active := if env.clipboardApi then env.steps[i].activeAfterWrite else true;
    if Paused(items, i, env) then env.steps[i].activeAfterPause else active
  }

  /** `i < sentences.length - 1 && batchCopyActive`, read after the write of item `i`. */
  predicate Paused(items: seq<string>, i: nat, env: Env)
    requires i < |items| <= |env.steps|
  {
    i < |items| - 1 && (!env.clipboardApi || env.steps[i].activeAfterWrite)
  }

  /** The effects of one iteration whose write did not throw. */
  function Copied(items: seq<string>, i: nat, count: int, env: Env): (e: seq<Effect>)
    requires i < |items| <= |env.steps|
    requires count >= 1
    ensures Writes(e) == [items[i]]
    ensures Reports(e) == [Progress(i + 1, Percentage(i + 1, count))]
    ensures PauseCount(e) == if Paused(items, i, env) then 1 else 0
  {
    var head := [Write(items[i]), Progress(i + 1, Percentage(i + 1, count))];
    FiltersAppend([Write(items[i])], [Progress(i + 1, Percentage(i + 1, count))]);
    assert head == [Write(items[i])] + [Progress(i + 1, Percentage(i + 1, count))];
    if Paused(items, i, env) then
      FiltersAppend(head, [Pause]);
      head + [Pause]
    else head
  }

  /** The number of writes a loop attempted: the copied items and the one that threw. */
  function Attempted(r: LoopRun): nat {
    if r.exit.Threw? then r.copied + 1 else r.copied
  }

  /** The loop writes the fetched items in order, starting at `i`, and stops after the
      one whose write threw. */
  lemma {:induction false} LoopWrites(items: seq<string>, i: nat, count: int, env: Env, activeAtTop: bool)
    requires i <= |items| <= |env.steps|
    requires count >= 1
    ensures var r := Loop(items, i, count, env, activeAtTop);
      && i <= Attempted(r) <= |items|
      && Writes(r.effects) == items[i..Attempted(r)]
    decreases |items| - i
  {
    if i < |items| && activeAtTop && !env.steps[i].write.Throws? {
      LoopWrites(items, i + 1, count, env, NextActive(items, i, env));
      WritesStep(items, i, count, env);
    } else {
      WritesStop(items, i, count, env, activeAtTop);
    }
  }

  /** A loop that stops at `i` wrote nothing, or only the item whose write threw. */
  lemma WritesStop(items: seq<string>, i: nat, count: int, env: Env, activeAtTop: bool)
    requires i <= |items| <= |env.steps| && count >= 1
    requires i < |items| && activeAtTop ==> env.steps[i].write.Throws?
    ensures var r := Loop(items, i, count, env, activeAtTop);
      && i <= Attempted(r) <= |items|
      && Writes(r.effects) == items[i..Attempted(r)]
  {
    var r := Loop(items, i, count, env, activeAtTop);
    if i < |items| && activeAtTop {
      assert r.effects == [Write(items[i])] && Attempted(r) == i + 1;
      FiltersSingle(Write(items[i]));
      assert items[i..i + 1] == [items[i]];
    } else {
      assert r.effects == [] && Attempted(r) == i;
    }
  }

  /** One copied item puts its own write in front of the rest of the loop's writes. */
  lemma WritesStep(items: seq<string>, i: nat, count: int, env: Env)
    requires i < |items| <= |env.steps| && count >= 1 && !env.steps[i].write.Throws?
    requires var rest := Loop(items, i + 1, count, env, NextActive(items, i, env));
      && i + 1 <= Attempted(rest) <= |items|
      && Writes(rest.effects) == items[i + 1..Attempted(rest)]
    ensures var r := Loop(items, i, count, env, true);
      && i <= Attempted(r) <= |items|
      && Writes(r.effects) == items[i..Attempted(r)]
  {
    var r := Loop(items, i, count, env, true);
    var rest := Loop(items, i + 1, count, env, NextActive(items, i, env));
    var head := Copied(items, i, count, env);
    var n := Attempted(rest);
    assert r.effects == head + rest.effects && Attempted(r) == n;
    FiltersAppend(head, rest.effects);
    assert Writes(r.effects) == [items[i]] + items[i + 1..n];
    SliceSplit(items, i, n);
  }

  /** A non-empty slice is its first element followed by the rest. */
  lemma SliceSplit<T>(s: seq<T>, i: nat, j: nat)
    requires i < j <= |s|
    ensures s[i..j] == [s[i]] + s[i + 1..j]
  {
  }

  /** Every copied item raises the counter by exactly one, in order. */
  lemma {:induction false} LoopReports(items: seq<string>, i: nat, count: int, env: Env, activeAtTop: bool)
    requires i <= |items| <= |env.steps|
    requires count >= 1
    ensures var r := Loop(items, i, count, env, activeAtTop);
      Reports(r.effects) == ExpectedReports(i, r.copied, count)
    decreases |items| - i
  {
    var r := Loop(items, i, count, env, activeAtTop);
    if i < |items| && activeAtTop && !env.steps[i].write.Throws? {
      LoopReports(items, i + 1, count, env, NextActive(items, i, env));
      ReportsStep(items, i, count, env);
    } else if i < |items| && activeAtTop {
      assert r.effects == [Write(items[i])] && r.copied == i;
      FiltersSingle(Write(items[i]));
    } else {
      assert r.effects == [] && r.copied == i;
    }
  }

  /** One copied item puts its own report in front of the rest of the loop's reports. */
  lemma ReportsStep(items: seq<string>, i: nat, count: int, env: Env)
    requires i < |items| <= |env.steps| && count >= 1 && !env.steps[i].write.Throws?
    requires var rest := Loop(items, i + 1, count, env, NextActive(items, i, env));
      Reports(rest.effects) == ExpectedReports(i + 1, rest.copied, count)
    ensures var r := Loop(items, i, count, env, true);
      Reports(r.effects) == ExpectedReports(i, r.copied, count)
  {
    var r := Loop(items, i, count, env, true);
    var rest := Loop(items, i + 1, count, env, NextActive(items, i, env));
    assert r.effects == Copied(items, i, count, env) + rest.effects && r.copied == rest.copied;
    FiltersAppend(Copied(items, i, count, env), rest.effects);
    assert ExpectedReports(i, r.copied, count)
        == [Progress(i + 1, Percentage(i + 1, count))] + ExpectedReports(i + 1, rest.copied, count);
  }

  /** Pauses only follow copied items and never follow the last item; a loop that
      reached the end paused after every item but the last. */
  lemma {:induction false} LoopPauses(items: seq<string>, i: nat, count: int, env: Env, activeAtTop: bool)
    requires i <= |items| <= |env.steps|
    requires count >= 1
    ensures var r := Loop(items, i, count, env, activeAtTop);
      && PauseCount(r.effects) <= r.copied - i
      && (i < |items| ==> PauseCount(r.effects) < |items| - i)
      && (r.exit.Finished? && i < |items| ==> PauseCount(r.effects) == |items| - 1 - i)
    decreases |items| - i
  {
    if i < |items| && activeAtTop && !env.steps[i].write.Throws? {
      var next := NextActive(items, i, env);
      var rest := Loop(items, i + 1, count, env, next);
      LoopPauses(items, i + 1, count, env, next);
      FiltersAppend(Copied(items, i, count, env), rest.effects);
      if !Paused(items, i, env) && i + 1 < |items| {
        // no pause means the flag was false after the write, so the next iteration breaks
        assert !next;
      }
    }
  }

  /** What the run does after the loop: the success notice only if the flag is still
      set, the alert from the catch block if a write threw. */
  function Closing(exit: Exit): seq<Effect> {
    match exit
    case Finished(active) => if active then [SuccessNotice] else []
    case Broke => []
    case Threw(m) => [FailureAlert(m)]
  }

  function EndingOf(exit: Exit): Ending {
    match exit
    case Finished(active) => if active then Completed else Stopped
    case Broke => Stopped
    case Threw(_) => WriteFailed
  }

  /** One invocation of `startBatchCopy` from the state `ui`, with the parsed count,
      the fetch's outcome and the environment's behaviour during the run. */
  function StartBatchCopy(ui: Ui, parsed: Option<int>, fetched: Result<seq<string>, string>, env: Env): (r: Run)
    requires fetched.Success? ==> |fetched.value| <= |env.steps|
    // a click while a run is active changes nothing and fetches nothing
    ensures ui.active ==> r.ui == ui && r.effects == [] && r.ending == AlreadyRunning
    // a bad count is refused before any state change or fetch
    ensures !ui.active && !ValidCount(parsed) ==> r.ui == ui && r.effects == [CountAlert] && r.ending == InvalidCount
    // otherwise the run fetches first and every exit path leaves the controller idle
    ensures !ui.active && ValidCount(parsed) ==>
      && r.effects != [] && r.effects[0] == Fetch(parsed.value)
      && !r.ui.active && !r.ui.buttonDisabled && !r.ui.progressVisible && r.ui.total == parsed.value
  {
    if ui.active then Run(ui, [], AlreadyRunning)
    else if !ValidCount(parsed) then Run(ui, [CountAlert], InvalidCount)
    else CopyRun(parsed.value, fetched, env)
  }

  /** Every alert a run shows says what went wrong: a failed fetch ends the trace with
      the fetch's error right after the fetch, an empty batch with the "no items" alert,
      and a throwing write with the alert carrying that write's message as the last
      effect. A run that fetched items pauses fewer times than it fetched items. */
  lemma RunEndsWithItsAlert(count: int, fetched: Result<seq<string>, string>, env: Env)
    requires MinCount <= count <= MaxCount
    requires fetched.Success? ==> |fetched.value| <= |env.steps|
    ensures var r := CopyRun(count, fetched, env);
      && (fetched.Success? && fetched.value != [] ==> PauseCount(r.effects) < |fetched.value|)
      && (r.ending == FetchFailed ==> r.effects == [Fetch(count), FailureAlert(fetched.error)])
      && (r.ending == NoItems ==> r.effects == [Fetch(count), NoItemsAlert])
      && (r.ending == WriteFailed ==>
            && fetched.Success? && r.ui.current < |fetched.value| && env.steps[r.ui.current].write.Throws?
            && r.effects[|r.effects| - 1] == FailureAlert(env.steps[r.ui.current].write.message))
  {
  }

  /** The `try`/`catch`/`finally` part of `startBatchCopy`, entered with a valid count. */
  function CopyRun(count: int, fetched: Result<seq<string>, string>, env: Env): (r: Run)
    requires MinCount <= count <= MaxCount
    requires fetched.Success? ==> |fetched.value| <= |env.steps|
    ensures r.effects != [] && r.effects[0] == Fetch(count)
    ensures !r.ui.active && !r.ui.buttonDisabled && !r.ui.progressVisible && r.ui.total == count
    ensures r.ending in {FetchFailed, NoItems, Completed, Stopped, WriteFailed}
    ensures r.ending == FetchFailed <==> fetched.Failure?
    ensures r.ending == NoItems <==> fetched == Success([])
    // items are written in fetch order, never more than were fetched
    ensures fetched.Success? ==> Writes(r.effects) <= fetched.value
    ensures fetched.Failure? ==> Writes(r.effects) == []
    // the success notice shows exactly on a completed run, which wrote every item
    // and paused between consecutive items
    ensures SuccessNotice in r.effects <==> r.ending == Completed
    ensures r.ending == Completed ==> Writes(r.effects) == fetched.value
    ensures r.ending == Completed ==> PauseCount(r.effects) == |fetched.value| - 1
    // a failed write is the last write, after one progress update per earlier write
    ensures r.ending == WriteFailed ==> |Reports(r.effects)| + 1 == |Writes(r.effects)|
    ensures r.ending != WriteFailed ==> |Reports(r.effects)| == |Writes(r.effects)|
    // the counter on screen counts the copied items; each raised it by exactly one
    ensures r.ui.current >= 0
    ensures Reports(r.effects) == ExpectedReports(0, r.ui.current, count)
    ensures r.ui.percentage == Percentage(r.ui.current, count)
    ensures PauseCount(r.effects) <= r.ui.current
  {
    match fetched
    case Failure(m) => AlertRun(count, FailureAlert(m), FetchFailed)
    case Success(items) =>
      if |items| == 0 then AlertRun(count, NoItemsAlert, NoItems)
      else CopyItems(count, items, env)
  }

  /** A run that stops right after the fetch with an alert: the `catch` block for a
      failed fetch, or the early `return` for an empty batch. Nothing is written, nothing
      is reported, and `finally` releases the controller. */
  function AlertRun(count: int, alert: Effect, ending: Ending): (r: Run)
    requires MinCount <= count <= MaxCount
    requires alert == NoItemsAlert || alert.FailureAlert?
    ensures r.effects == [Fetch(count), alert] && r.ending == ending
    ensures !r.ui.active && !r.ui.buttonDisabled && !r.ui.progressVisible && r.ui.total == count
    ensures r.ui.current == 0 && r.ui.percentage == 0 == Percentage(r.ui.current, count)
    ensures Writes(r.effects) == [] && Reports(r.effects) == [] && PauseCount(r.effects) == 0
    ensures SuccessNotice !in r.effects
  {
    AlertTrace(count, alert);
    PercentageOfNone(count);
    Run(Release(Begin(count)), [Fetch(count), alert], ending)
  }

  /** The fetch followed by an alert holds no write, report, pause or notice. */
  lemma AlertTrace(count: int, alert: Effect)
    requires alert == NoItemsAlert || alert.FailureAlert?
    ensures var e := [Fetch(count), alert];
      Writes(e) == [] && Reports(e) == [] && PauseCount(e) == 0 && SuccessNotice !in e
  {
    FiltersAppend([Fetch(count)], [alert]);
    FiltersSingle(Fetch(count));
    FiltersSingle(alert);
    assert [Fetch(count), alert] == [Fetch(count)] + [alert];
  }

  /** The fetch returned items: the copy loop, then the success check and `finally`. */
  function CopyItems(count: int, items: seq<string>, env: Env): (r: Run)
    requires MinCount <= count <= MaxCount
    requires 0 < |items| <= |env.steps|
    ensures r.effects != [] && r.effects[0] == Fetch(count)
    ensures !r.ui.active && !r.ui.buttonDisabled && !r.ui.progressVisible && r.ui.total == count
    ensures r.ending in {Completed, Stopped, WriteFailed}
    ensures Writes(r.effects) <= items
    ensures SuccessNotice in r.effects <==> r.ending == Completed
    ensures r.ending == Completed ==> Writes(r.effects) == items && PauseCount(r.effects) == |items| - 1
    ensures |Writes(r.effects)| == if r.ending == WriteFailed then r.ui.current + 1 else r.ui.current
    ensures r.ui.current >= 0
    ensures Reports(r.effects) == ExpectedReports(0, r.ui.current, count)
    ensures r.ui.percentage == Percentage(r.ui.current, count)
    ensures PauseCount(r.effects) <= r.ui.current
    ensures PauseCount(r.effects) < |items|
    // the catch block's alert carries the message of the write that threw
    ensures r.ending == WriteFailed ==>
      && r.ui.current < |items| && env.steps[r.ui.current].write.Throws?
      && r.effects[|r.effects| - 1] == FailureAlert(env.steps[r.ui.current].write.message)
  {
    var l := Loop(items, 0, count, env, env.activeAfterFetch);
    LoopFacts(items, count, env);
    LoopEnding(items, count, env);
    var shown := Begin(count).(current := l.copied, percentage := Percentage(l.copied, count));
    Run(Release(shown), [Fetch(count)] + l.effects + Closing(l.exit), EndingOf(l.exit))
  }

  /** A loop that ended in the `catch` block stopped at the item whose write threw, and
      the exception it carries is that write's. */
  lemma {:induction false} LoopThrowNamesStep(items: seq<string>, i: nat, count: int, env: Env, activeAtTop: bool)
    requires i <= |items| <= |env.steps|
    requires count >= 1
    ensures var r := Loop(items, i, count, env, activeAtTop);
      r.exit.Threw? ==> r.copied < |items| && env.steps[r.copied].write == Throws(r.exit.message)
    decreases |items| - i
  {
    if i < |items| && activeAtTop && !env.steps[i].write.Throws? {
      LoopThrowNamesStep(items, i + 1, count, env, NextActive(items, i, env));
    }
  }

  /** How the whole trace ends: never more pauses than gaps between fetched items, and
      after a throwing write, the alert with that write's message comes last. */
  lemma LoopEnding(items: seq<string>, count: int, env: Env)
    requires 0 < |items| <= |env.steps|
    requires count >= 1
    ensures var l := Loop(items, 0, count, env, env.activeAfterFetch);
      var e := [Fetch(count)] + l.effects + Closing(l.exit);
      && PauseCount(e) < |items|
      && (l.exit.Threw? ==>
            && l.copied < |items| && env.steps[l.copied].write == Throws(l.exit.message)
            && e[|e| - 1] == FailureAlert(l.exit.message))
  {
    var l := Loop(items, 0, count, env, env.activeAfterFetch);
    LoopPauses(items, 0, count, env, env.activeAfterFetch);
    LoopThrowNamesStep(items, 0, count, env, env.activeAfterFetch);
    FiltersAppend([Fetch(count)] + l.effects, Closing(l.exit));
    FiltersAppend([Fetch(count)], l.effects);
    FiltersSingle(Fetch(count));
    match l.exit
    case Finished(a) =>
      if a { FiltersSingle(SuccessNotice); }
    case Broke =>
    case Threw(m) => FiltersSingle(FailureAlert(m));
  }

  /** The trace facts about a whole loop that `CopyRun` needs, gathered in one place. */
  lemma LoopFacts(items: seq<string>, count: int, env: Env)
    requires 0 < |items| <= |env.steps|
    requires count >= 1
    ensures var l := Loop(items, 0, count, env, env.activeAfterFetch);
      var e := [Fetch(count)] + l.effects + Closing(l.exit);
      && e[0] == Fetch(count)
      && Writes(e) == items[..Attempted(l)]
      && Reports(e) == ExpectedReports(0, l.copied, count)
      && PauseCount(e) <= l.copied
      && (l.exit.Finished? ==> PauseCount(e) == |items| - 1)
      && (SuccessNotice in e <==> l.exit == Finished(true))
  {
    LoopFilters(items, count, env);
    LoopNotice(items, count, env);
  }

  /** The writes, reports and pauses of a whole run, fetch and closing included. */
  lemma LoopFilters(items: seq<string>, count: int, env: Env)
    requires 0 < |items| <= |env.steps|
    requires count >= 1
    ensures var l := Loop(items, 0, count, env, env.activeAfterFetch);
      var e := [Fetch(count)] + l.effects + Closing(l.exit);
      && Writes(e) == items[..Attempted(l)]
      && Reports(e) == ExpectedReports(0, l.copied, count)
      && PauseCount(e) <= l.copied
      && (l.exit.Finished? ==> PauseCount(e) == |items| - 1)
  {
    var l := Loop(items, 0, count, env, env.activeAfterFetch);
    LoopWrites(items, 0, count, env, env.activeAfterFetch);
    LoopReports(items, 0, count, env, env.activeAfterFetch);
    LoopPauses(items, 0, count, env, env.activeAfterFetch);
    FiltersAppend([Fetch(count)] + l.effects, Closing(l.exit));
    FiltersAppend([Fetch(count)], l.effects);
    FiltersSingle(Fetch(count));
    match l.exit
    case Finished(a) =>
      if a { FiltersSingle(SuccessNotice); }
    case Broke =>
    case Threw(m) => FiltersSingle(FailureAlert(m));
  }

  /** The success notice shows exactly when the loop ran to the end with the flag set. */
  lemma LoopNotice(items: seq<string>, count: int, env: Env)
    requires 0 < |items| <= |env.steps|
    requires count >= 1
    ensures var l := Loop(items, 0, count, env, env.activeAfterFetch);
      SuccessNotice in [Fetch(count)] + l.effects + Closing(l.exit) <==> l.exit == Finished(true)
  {
    NoNoticeInLoop(items, 0, count, env, env.activeAfterFetch);
  }

  lemma {:induction false} NoNoticeInLoop(items: seq<string>, i: nat, count: int, env: Env, activeAtTop: bool)
    requires i <= |items| <= |env.steps|
    requires count >= 1
    ensures SuccessNotice !in Loop(items, i, count, env, activeAtTop).effects
    decreases |items| - i
  {
    if i < |items| && activeAtTop && !env.steps[i].write.Throws? {
      NoNoticeInLoop(items, i + 1, count, env, NextActive(items, i, env));
    }
  }

  /** With at most 50 requested items the bar reads 100% exactly when every requested
      item was copied (with more than 200 it would round up early). */
  lemma PercentageFullIffAllCopied(copied: nat, count: int)
    requires MinCount <= count <= MaxCount && copied <= count
    ensures Percentage(copied, count) == 100 <==> copied == count
  {
    if copied < count {
      PercentageBelowFull(copied, count);
    } else {
      PercentageFull(count);
    }
  }

  lemma PercentageBelowFull(copied: nat, count: int)
    requires MinCount <= count <= MaxCount && copied < count
    ensures Percentage(copied, count) < 100
  {
    MultiplyMonotone(copied, count - 1, 200);
    QuotientBelow(200 * copied + count, 2 * count, 100);
  }

  lemma PercentageFull(count: int)
    requires count >= 1
    ensures Percentage(count, count) == 100
  {
    QuotientIs(200 * count + count, 2 * count, 100);
  }

  /** `a / b == q` whenever `q * b <= a < (q + 1) * b`. */
  lemma QuotientIs(a: nat, b: int, q: nat)
    requires b >= 1 && q * b <= a < (q + 1) * b
    ensures a / b == q
  {
    QuotientBelow(a, b, q + 1);
    var d := a / b;
    assert a < d * b + b;
    if d + 1 <= q {
      MultiplyMonotone(d + 1, q, b);
    }
  }

  /** Nothing copied shows 0%. */
  lemma PercentageOfNone(count: int)
    requires count >= 1
    ensures Percentage(0, count) == 0
  {
    QuotientIs(count, 2 * count, 0);
  }

  /** The one input in range where the doubles and exact rounding part ways. */
  lemma DoubleRoundingAt23Of40()
    ensures Percentage(23, 40) == 57
    ensures HalfUp(23, 40) == 58
    ensures Percentage(22, 40) == HalfUp(22, 40) == 55
    ensures Percentage(24, 40) == HalfUp(24, 40) == 60
  {
  }

  /** More copied items never show a smaller percentage, the 23-of-40 dip included. */
  lemma PercentageMonotone(a: nat, b: nat, count: int)
    requires count >= 1 && a <= b
    ensures Percentage(a, count) <= Percentage(b, count)
  {
    HalfUpMonotone(a, b, count);
    if count == 40 && a < 23 && b == 23 {
      HalfUpMonotone(a, 22, count);
      assert HalfUp(22, 40) == 55;
    } else if count == 40 && a == 23 && b > 23 {
      HalfUpMonotone(23, b, count);
      assert HalfUp(23, 40) == 58;
    }
  }

  lemma HalfUpMonotone(a: nat, b: nat, count: int)
    requires count >= 1 && a <= b
    ensures HalfUp(a, count) <= HalfUp(b, count)
  {
    QuotientMonotone(200 * a + count, 200 * b + count, 2 * count);
  }

  lemma QuotientMonotone(x: nat, y: nat, d: int)
    requires d >= 1 && x <= y
    ensures x / d <= y / d
  {
    var q, p := x / d, y / d;
    assert q * d <= y;
    assert y < (p + 1) * d;
    if q > p {
      MultiplyMonotone(p + 1, q, d);
    }
  }

  /** The environment never interferes: every write succeeds and the flag stays set. */
  predicate Undisturbed(env: Env, n: nat) {
    && env.activeAfterFetch
    && n <= |env.steps|
    && forall k :: 0 <= k < n ==> env.steps[k] == Step(Done, true, true)
  }

  lemma {:induction false} UndisturbedLoop(items: seq<string>, i: nat, count: int, env: Env)
    requires i <= |items| && Undisturbed(env, |items|)
    requires count >= 1
    ensures Loop(items, i, count, env, true).exit == Finished(true)
    decreases |items| - i, 1
  {
    if i < |items| {
      UndisturbedFrom(items, i, count, env);
    } else {
      LoopAtEnd(items, count, env, true);
    }
  }

  lemma {:induction false} UndisturbedFrom(items: seq<string>, i: nat, count: int, env: Env)
    requires i < |items| && Undisturbed(env, |items|)
    requires count >= 1
    ensures Loop(items, i, count, env, true).exit == Finished(true)
    decreases |items| - i, 0
  {
    UndisturbedLoop(items, i + 1, count, env);
    UndisturbedStep(items, i, count, env);
  }

  /** Past the last item the loop exits with the flag as it reads it. */
  lemma LoopAtEnd(items: seq<string>, count: int, env: Env, active: bool)
    requires |items| <= |env.steps| && count >= 1
    ensures Loop(items, |items|, count, env, active) == LoopRun(|items|, [], Finished(active))
  {
  }

  /** An undisturbed iteration copies its item and hands a set flag to the next one. */
  lemma UndisturbedStep(items: seq<string>, i: nat, count: int, env: Env)
    requires i < |items| && Undisturbed(env, |items|)
    requires count >= 1
    requires Loop(items, i + 1, count, env, true).exit == Finished(true)
    ensures Loop(items, i, count, env, true).exit == Finished(true)
  {
    assert env.steps[i] == Step(Done, true, true);
    assert NextActive(items, i, env);
  }

  /** The happy path: every fetched item is copied in order, one progress update per item,
      a pause between consecutive items, and the success notice at the end; the bar shows
      100% exactly when the server returned as many items as were requested. */
  lemma HappyPath(ui: Ui, count: int, items: seq<string>, env: Env)
    requires !ui.active && MinCount <= count <= MaxCount
    requires 0 < |items| <= count && Undisturbed(env, |items|)
    ensures var r := StartBatchCopy(ui, Some(count), Success(items), env);
      && r.ending == Completed
      && Writes(r.effects) == items
      && Reports(r.effects) == ExpectedReports(0, |items|, count)
      && PauseCount(r.effects) == |items| - 1
      && (r.ui.percentage == 100 <==> |items| == count)
  {
    UndisturbedLoop(items, 0, count, env);
    var r := StartBatchCopy(ui, Some(count), Success(items), env);
    assert r.ui.current == |items|;
    PercentageFullIffAllCopied(|items|, count);
  }

  /** Requesting 3 and receiving ["a", "b", "c"] reports 1/3 at 33%, 2/3 at 67%,
      3/3 at 100%, with two pauses, and ends with the success notice. */
  lemma ThreeItemScenario(env: Env)
    requires Undisturbed(env, 3)
    ensures var r := StartBatchCopy(Ui(false, false, false, 0, 0, 0), Some(3), Success(["a", "b", "c"]), env);
      && r.ending == Completed
      && Writes(r.effects) == ["a", "b", "c"]
      && Reports(r.effects) == [Progress(1, 33), Progress(2, 67), Progress(3, 100)]
      && PauseCount(r.effects) == 2
  {
    HappyPath(Ui(false, false, false, 0, 0, 0), 3, ["a", "b", "c"], env);
    assert ExpectedReports(2, 3, 3) == [Progress(3, 100)];
    assert ExpectedReports(1, 3, 3) == [Progress(2, 67), Progress(3, 100)];
  }

  /** The percentage divides by the requested count, not by the number of items the
      server returned: a completed run that received fewer items never shows 100%. */
  lemma ShortFetchNeverShowsFull(ui: Ui, count: int, items: seq<string>, env: Env)
    requires !ui.active && MinCount <= count <= MaxCount
    requires 0 < |items| < count && |items| <= |env.steps|
    ensures StartBatchCopy(ui, Some(count), Success(items), env).ui.percentage < 100
  {
    var r := StartBatchCopy(ui, Some(count), Success(items), env);
    PercentageFullIffAllCopied(r.ui.current, count);
  }

  /** `execCommand('copy')` returning false is counted as a copy: the loop behaves exactly
      as if the write had succeeded. This holds by construction, since `Loop` tells only a
      throwing write apart from the other outcomes, just as the script ignores the result
      of `execCommand`; the lemma documents that choice rather than proving a property of
      the loop's arithmetic. */
  lemma {:induction false} DeclinedCountsAsCopied(items: seq<string>, i: nat, count: int, env: Env, k: nat, active: bool)
    requires i <= |items| <= |env.steps| && count >= 1
    requires k < |env.steps| && env.steps[k].write == Declined
    ensures Loop(items, i, count, env, active)
         == Loop(items, i, count, env.(steps := env.steps[k := env.steps[k].(write := Done)]), active)
    decreases |items| - i
  {
    var env' := env.(steps := env.steps[k := env.steps[k].(write := Done)]);
    if i < |items| && active {
      assert NextActive(items, i, env) == NextActive(items, i, env');
      assert Copied(items, i, count, env) == Copied(items, i, count, env');
      DeclinedCountsAsCopied(items, i + 1, count, env, k, NextActive(items, i, env));
    }
  }

  /** A click on the page while a run is suspended: the cancel button, or the batch copy
      button with the count `parseInt` read from the input. */
  datatype Click = CancelClick | StartClick(parsed: Option<int>)

  /** The controller after the synchronous part of one click's handler runs:
      `cancelBatchCopy` runs to its end; `startBatchCopy` either returns at its guard or
      its count check, or sets the flag and the display and suspends at its fetch. */
  function AfterClick(ui: Ui, click: Click): (r: Ui)
    ensures click == CancelClick ==> !r.active && !r.progressVisible && !r.buttonDisabled
    ensures click.StartClick? ==> (r.active <==> ui.active || ValidCount(click.parsed))
  {
    match click
    case CancelClick => CancelBatchCopy(ui)
    case StartClick(parsed) =>
      if ui.active || !ValidCount(parsed) then ui else Begin(parsed.value)
  }

  /** A start click agrees with `StartBatchCopy`: when refused, it leaves the controller
      as the whole handler does; when accepted, it leaves the flag set and the run it
      begins fetches the requested count first. */
  lemma StartClickAgrees(ui: Ui, parsed: Option<int>, fetched: Result<seq<string>, string>, env: Env)
    requires fetched.Success? ==> |fetched.value| <= |env.steps|
    ensures var r := StartBatchCopy(ui, parsed, fetched, env);
      && (ui.active || !ValidCount(parsed) ==> AfterClick(ui, StartClick(parsed)) == r.ui)
      && (!ui.active && ValidCount(parsed) ==>
            AfterClick(ui, StartClick(parsed)).active && r.effects[0] == Fetch(parsed.value))
  {
  }

  /** The clicks that came in during one suspension, in order. */
  function AfterClicks(ui: Ui, clicks: seq<Click>): Ui
    decreases |clicks|
  {
    if clicks == [] then ui else AfterClick(AfterClicks(ui, clicks[..|clicks| - 1]), clicks[|clicks| - 1])
  }

  /** A start that passes its count check. */
  predicate AcceptedStart(click: Click) {
    click.StartClick? && ValidCount(click.parsed)
  }

  /** A cancel with no accepted start after it leaves the flag cleared. */
  lemma {:induction false} CancelStands(ui: Ui, clicks: seq<Click>, j: nat)
    requires j < |clicks| && clicks[j] == CancelClick
    requires forall k :: j < k < |clicks| ==> !AcceptedStart(clicks[k])
    ensures !AfterClicks(ui, clicks).active
    decreases |clicks|
  {
    if j < |clicks| - 1 {
      CancelStands(ui, clicks[..|clicks| - 1], j);
    }
  }

  /** An accepted start with no cancel after it leaves the flag set. */
  lemma {:induction false} StartStands(ui: Ui, clicks: seq<Click>, j: nat)
    requires j < |clicks| && AcceptedStart(clicks[j])
    requires forall k :: j < k < |clicks| ==> clicks[k] != CancelClick
    ensures AfterClicks(ui, clicks).active
    decreases |clicks|
  {
    if j < |clicks| - 1 {
      StartStands(ui, clicks[..|clicks| - 1], j);
    }
  }

  /** Without a cancel or an accepted start, the flag is what it was. */
  lemma {:induction false} QuietClicksKeepFlag(ui: Ui, clicks: seq<Click>)
    requires forall k :: 0 <= k < |clicks| ==> clicks[k] != CancelClick && !AcceptedStart(clicks[k])
    ensures AfterClicks(ui, clicks).active == ui.active
    decreases |clicks|
  {
    if clicks != [] {
      QuietClicksKeepFlag(ui, clicks[..|clicks| - 1]);
    }
  }

  /** A cancel during the awaited write of item `i`, with no accepted start after it,
      makes that write the last one, with no pause after it. */
  lemma CancelDuringWriteStops(items: seq<string>, i: nat, count: int, env: Env,
                               ui: Ui, clicks: seq<Click>, j: nat)
    requires i < |items| <= |env.steps| && count >= 1
    requires env.clipboardApi && !env.steps[i].write.Throws?
    requires j < |clicks| && clicks[j] == CancelClick
    requires forall k :: j < k < |clicks| ==> !AcceptedStart(clicks[k])
    requires env.steps[i].activeAfterWrite == AfterClicks(ui, clicks).active
    ensures var r := Loop(items, i, count, env, true);
      && Writes(r.effects) == [items[i]]
      && PauseCount(r.effects) == 0
      && r.copied == i + 1
  {
    CancelStands(ui, clicks, j);
    assert !Paused(items, i, env);
    var rest := Loop(items, i + 1, count, env, false);
    FiltersAppend(Copied(items, i, count, env), rest.effects);
  }

  /** A cancel during the pause after item `i`, with no accepted start after it, stops
      the loop at its next flag check: item `i` is the last one written. */
  lemma CancelDuringPauseStops(items: seq<string>, i: nat, count: int, env: Env,
                               ui: Ui, clicks: seq<Click>, j: nat)
    requires i + 1 < |items| <= |env.steps| && count >= 1
    requires !env.steps[i].write.Throws? && Paused(items, i, env)
    requires j < |clicks| && clicks[j] == CancelClick
    requires forall k :: j < k < |clicks| ==> !AcceptedStart(clicks[k])
    requires env.steps[i].activeAfterPause == AfterClicks(ui, clicks).active
    ensures var r := Loop(items, i, count, env, true);
      && Writes(r.effects) == [items[i]]
      && r.copied == i + 1 && r.exit == Broke
  {
    CancelStands(ui, clicks, j);
    assert !NextActive(items, i, env);
    var rest := Loop(items, i + 1, count, env, false);
    assert rest.effects == [] && rest.exit == Broke;
    FiltersAppend(Copied(items, i, count, env), rest.effects);
  }

  /** The cancel flag is the active flag. A cancel followed by a new start during the
      pause after item `i` sets it back to true, so the first run's loop, waking from
      that pause, carries on and writes item `i + 1` as well. */
  lemma CancelThenRestartRevivesLoop(items: seq<string>, i: nat, count: int, env: Env, ui: Ui, c: int)
    requires i + 1 < |items| <= |env.steps| && count >= 1
    requires !env.steps[i].write.Throws? && Paused(items, i, env)
    requires MinCount <= c <= MaxCount
    requires env.steps[i].activeAfterPause == AfterClicks(ui, [CancelClick, StartClick(Some(c))]).active
    ensures var r := Loop(items, i, count, env, true);
      && i + 2 <= Attempted(r) <= |items|
      && Writes(r.effects) == items[i..Attempted(r)]
      && |Writes(r.effects)| >= 2 && Writes(r.effects)[1] == items[i + 1]
  {
    var clicks := [CancelClick, StartClick(Some(c))];
    StartStands(ui, clicks, 1);
    assert NextActive(items, i, env);
    var r := Loop(items, i, count, env, true);
    var rest := Loop(items, i + 1, count, env, true);
    assert Attempted(r) == Attempted(rest);
    LoopWrites(items, i, count, env, true);
  }
}

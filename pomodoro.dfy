/**
 * The Pomodoro timer as a pure state machine: the state of one `PomodoroApp`
 * window, and what each of its operations does to it. The imperative class in
 * module PomodoroGui is proved to follow these functions; the lemmas below
 * state what the timer promises.
 */
module Pomodoro {
  import opened Clock

  const DefaultWorkMinutes: int := 25
  const DefaultBreakMinutes: int := 5
  const IdleText: string := "00:00"

  /** What the status label shows: waiting, in a work session, or on a break. */
  datatype Status = Waiting | Working | OnBreak

  /** The two information dialogs shown when a session ends. */
  datatype Notice = WorkDone | BreakDone

  /**
   * The window's state. Durations are in minutes, `remaining` in seconds;
   * `timerText` and `status` are the texts of the two labels.
   */
  datatype Timer = Timer(
    workDuration: int,
    breakDuration: int,
    remaining: int,
    running: bool,
    isWorkSession: bool,
    cycleCount: nat,
    timerText: string,
    status: Status)

  /** The state after one operation, and the dialogs it showed, in order. */
  datatype Step = Step(next: Timer, notices: seq<Notice>)

  predicate DurationsPositive(t: Timer) {
    t.workDuration > 0 && t.breakDuration > 0
  }

  function SessionStatus(isWork: bool): Status {
    if isWork then Working else OnBreak
  }

  function SessionNotice(isWork: bool): Notice {
    if isWork then WorkDone else BreakDone
  }

  /** Length in seconds of the session the state is in. */
  function SessionSeconds(t: Timer): int {
    if t.isWorkSession then t.workDuration * SecondsPerMinute
    else t.breakDuration * SecondsPerMinute
  }

  /**
   * The state invariant every operation keeps: positive durations, a
   * non-negative countdown, and labels that agree with the rest. While
   * running, the timer label shows the second that was just counted off,
   * which is one more than `remaining`.
   */
  predicate Valid(t: Timer) {
    DurationsPositive(t) && t.remaining >= 0 &&
    if t.running then
      t.status == SessionStatus(t.isWorkSession) && t.timerText == Format(t.remaining + 1)
    else
      t.remaining == 0 && t.status == Waiting && t.timerText == IdleText
  }

  /** The freshly opened window. */
  function Init(): Timer {
    Timer(DefaultWorkMinutes, DefaultBreakMinutes, 0, false, true, 0, IdleText, Waiting)
  }

  /** `_update_timer`: one second of countdown, or the end of the session. */
  function Tick(t: Timer): (s: Step)
    requires DurationsPositive(t)
    ensures s.next.workDuration == t.workDuration && s.next.breakDuration == t.breakDuration
    decreases if t.running && t.remaining <= 0 then 2 else 0
  {
    if t.running && t.remaining > 0 then
      Step(t.(timerText := Format(t.remaining),
              status := SessionStatus(t.isWorkSession),
              remaining := t.remaining - 1), [])
    else if t.running then
      var ended := t.(cycleCount := if t.isWorkSession then t.cycleCount + 1 else t.cycleCount,
                      isWorkSession := !t.isWorkSession);
      var s := RunSession(ended);
      Step(s.next, [SessionNotice(t.isWorkSession)] + s.notices)
    else
      Step(t, [])
  }

  /** `_run_session`: load the countdown with the current session's length, then tick. */
  function RunSession(t: Timer): (s: Step)
    requires DurationsPositive(t)
    ensures s.next.workDuration == t.workDuration && s.next.breakDuration == t.breakDuration
    decreases 1
  {
    Tick(t.(remaining := SessionSeconds(t)))
  }

  /** `start_timer`: begin a work session unless one is already running. */
  function Start(t: Timer): Step
    requires DurationsPositive(t)
  {
    if !t.running then RunSession(t.(running := true, isWorkSession := true))
    else Step(t, [])
  }

  /** `reset_timer`: stop and clear the countdown and both labels. */
  function Reset(t: Timer): Timer {
    t.(running := false, remaining := 0, timerText := IdleText, status := Waiting)
  }

  /** The user types new values into the two duration fields. */
  function EditDurations(t: Timer, work: int, brk: int): Timer {
    t.(workDuration := work, breakDuration := brk)
  }

  /** Everything that can happen to the window: a button, a scheduled callback, an edit. */
  datatype Event = StartPressed | ResetPressed | Callback | DurationsEdited(work: int, brk: int)

  predicate EventOk(e: Event) {
    e.DurationsEdited? ==> e.work > 0 && e.brk > 0
  }

  function Apply(t: Timer, e: Event): (s: Step)
    requires DurationsPositive(t) && EventOk(e)
    ensures DurationsPositive(s.next)
  {
    match e
    case StartPressed => Start(t)
    case ResetPressed => Step(Reset(t), [])
    case Callback => Tick(t)
    case DurationsEdited(work, brk) => Step(EditDurations(t, work, brk), [])
  }

  /** The final state after a sequence of events, and every dialog shown on the way. */
  datatype Trace = Trace(final: Timer, notices: seq<Notice>)

  function Run(t: Timer, events: seq<Event>): Trace
    requires DurationsPositive(t)
    requires forall i :: 0 <= i < |events| ==> EventOk(events[i])
    decreases |events|
  {
    if events == [] then Trace(t, [])
    else
      var s := Apply(t, events[0]);
      var rest := Run(s.next, events[1..]);
      Trace(rest.final, s.notices + rest.notices)
  }

  /** `k` consecutive scheduled callbacks. */
  function Ticks(t: Timer, k: nat): (r: Trace)
    requires DurationsPositive(t)
    ensures r.final.workDuration == t.workDuration && r.final.breakDuration == t.breakDuration
    decreases k
  {
    if k == 0 then Trace(t, [])
    else
      var s := Tick(t);
      var rest := Ticks(s.next, k - 1);
      Trace(rest.final, s.notices + rest.notices)
  }

  /** How many of the dialogs announce the end of a work session. */
  function WorkCount(ns: seq<Notice>): nat {
    if ns == [] then 0 else (if ns[0] == WorkDone then 1 else 0) + WorkCount(ns[1..])
  }

  lemma {:induction false} WorkCountAppend(a: seq<Notice>, b: seq<Notice>)
    ensures WorkCount(a + b) == WorkCount(a) + WorkCount(b)
    decreases |a|
  {
    if a == [] {
      assert a + b == b;
    } else {
      assert (a + b)[0] == a[0];
      assert (a + b)[1..] == a[1..] + b;
      WorkCountAppend(a[1..], b);
    }
  }

  // ---------------------------------------------------------------------------
  // The operations one at a time.
  // ---------------------------------------------------------------------------

  /** The window opens idle, in a work session, with no cycles and 25/5-minute sessions. */
  lemma InitState()
    ensures var t := Init();
      !t.running && t.remaining == 0 && t.isWorkSession && t.cycleCount == 0 &&
      t.workDuration == 25 && t.breakDuration == 5 && Valid(t)
  {
  }

  /**
   * Starting while running changes nothing. Starting while idle begins a work
   * session: the countdown is loaded with the work length in seconds and its
   * first second is counted off at once, no dialog appears, and the cycle
   * count and durations are kept. Pressing start twice is the same as once.
   */
  lemma StartEffect(t: Timer)
    requires DurationsPositive(t)
    ensures t.running ==> Start(t) == Step(t, [])
    ensures !t.running ==>
      var n := Start(t).next;
      n.running && n.isWorkSession && n.status == Working &&
      n.timerText == Format(t.workDuration * SecondsPerMinute) &&
      n.remaining == t.workDuration * SecondsPerMinute - 1 &&
      n.cycleCount == t.cycleCount &&
      n.workDuration == t.workDuration && n.breakDuration == t.breakDuration &&
      Start(t).notices == []
    ensures Start(Start(t).next) == Step(Start(t).next, [])
  {
    if !t.running {
      RunSessionEffect(t.(running := true, isWorkSession := true));
    }
  }

  /** Reset stops the timer and clears the countdown; session kind, cycles and durations stay. */
  lemma ResetEffect(t: Timer)
    ensures var n := Reset(t);
      !n.running && n.remaining == 0 && n.timerText == Format(0) && n.status == Waiting &&
      n.isWorkSession == t.isWorkSession && n.cycleCount == t.cycleCount &&
      n.workDuration == t.workDuration && n.breakDuration == t.breakDuration
    ensures Reset(Reset(t)) == Reset(t)
    ensures DurationsPositive(t) ==> Valid(Reset(t))
  {
    FormatZero();  // the idle text is what `Format` gives for zero
  }

  /**
   * Loading a session while running shows its full length on the label, takes
   * its first second off at once and shows no dialog.
   */
  lemma RunSessionEffect(t: Timer)
    requires DurationsPositive(t) && t.running
    ensures RunSession(t) == Step(t.(timerText := Format(SessionSeconds(t)),
                                     status := SessionStatus(t.isWorkSession),
                                     remaining := SessionSeconds(t) - 1), [])
  {
  }

  /** A callback while idle changes nothing and shows nothing. */
  lemma TickIdle(t: Timer)
    requires DurationsPositive(t) && !t.running
    ensures Tick(t) == Step(t, [])
  {
  }

  /**
   * A callback while counting down shows the current second, then takes exactly
   * one second off; session kind and cycles stay.
   */
  lemma TickCountdown(t: Timer)
    requires DurationsPositive(t) && t.running && t.remaining > 0
    ensures var s := Tick(t);
      s.next.remaining == t.remaining - 1 && s.next.running &&
      s.next.isWorkSession == t.isWorkSession && s.next.cycleCount == t.cycleCount &&
      s.next.timerText == Format(t.remaining) &&
      s.next.status == SessionStatus(t.isWorkSession) && s.notices == []
  {
  }

  /**
   * A callback at zero ends the session: one dialog, the session kind flips,
   * the cycle count goes up by one exactly when a work session ended, and the
   * countdown is reloaded with the new session's length and counted down once.
   */
  lemma TickSessionEnd(t: Timer)
    requires DurationsPositive(t) && t.running && t.remaining <= 0
    ensures var s := Tick(t);
      s.notices == [SessionNotice(t.isWorkSession)] &&
      s.next.running && s.next.isWorkSession == !t.isWorkSession &&
      s.next.cycleCount == (if t.isWorkSession then t.cycleCount + 1 else t.cycleCount) &&
      s.next.remaining == SessionSeconds(s.next) - 1 &&
      s.next.timerText == Format(SessionSeconds(s.next)) &&
      s.next.status == SessionStatus(s.next.isWorkSession)
  {
    var ended := t.(cycleCount := if t.isWorkSession then t.cycleCount + 1 else t.cycleCount,
                    isWorkSession := !t.isWorkSession);
    RunSessionEffect(ended);
  }

  /** Every callback shows at most one dialog, and the cycle count rises by the work dialogs shown. */
  lemma TickCounts(t: Timer)
    requires DurationsPositive(t)
    ensures |Tick(t).notices| <= 1
    ensures Tick(t).next.cycleCount == t.cycleCount + WorkCount(Tick(t).notices)
  {
    if t.running && t.remaining <= 0 {
      TickSessionEnd(t);
      assert WorkCount(Tick(t).notices) == if t.isWorkSession then 1 else 0;
    }
  }

  /** A callback keeps the state invariant. */
  lemma TickValid(t: Timer)
    requires Valid(t)
    ensures Valid(Tick(t).next)
  {
    if t.running && t.remaining > 0 {
      var n := t.(timerText := Format(t.remaining), status := SessionStatus(t.isWorkSession),
                  remaining := t.remaining - 1);
      assert Tick(t).next == n;
      assert n.remaining + 1 == t.remaining;
    } else if t.running {
      TickSessionEnd(t);
      var n := Tick(t).next;
      assert n.remaining + 1 == SessionSeconds(n);
    }
  }

  /** Pressing start keeps the state invariant. */
  lemma StartValid(t: Timer)
    requires Valid(t)
    ensures Valid(Start(t).next)
  {
    if !t.running {
      StartEffect(t);
      var n := Start(t).next;
      assert n.remaining + 1 == t.workDuration * SecondsPerMinute;
    }
  }

  /** Editing the durations to positive values keeps the state invariant and changes nothing else. */
  lemma EditDurationsValid(t: Timer, work: int, brk: int)
    requires Valid(t) && work > 0 && brk > 0
    ensures var n := EditDurations(t, work, brk);
      Valid(n) && n.workDuration == work && n.breakDuration == brk &&
      n.(workDuration := t.workDuration, breakDuration := t.breakDuration) == t
  {
  }

  /** Every event keeps the state invariant. */
  lemma ApplyValid(t: Timer, e: Event)
    requires Valid(t) && EventOk(e)
    ensures Valid(Apply(t, e).next)
  {
    match e
    case ResetPressed =>
      ResetEffect(t);
      assert Apply(t, e).next == Reset(t);
    case StartPressed =>
      StartValid(t);
      assert Apply(t, e) == Start(t);
    case Callback =>
      TickValid(t);
      assert Apply(t, e) == Tick(t);
    case DurationsEdited(work, brk) =>
      EditDurationsValid(t, work, brk);
      assert Apply(t, e).next == EditDurations(t, work, brk);
  }

  // ---------------------------------------------------------------------------
  // Whole runs.
  // ---------------------------------------------------------------------------

  /**
   * Over any run, the invariant holds at the end, and the cycle count has gone
   * up by exactly the number of completed work sessions (so it never decreases,
   * and break endings and resets never change it).
   */
  lemma {:induction false} RunCycles(t: Timer, events: seq<Event>)
    requires Valid(t)
    requires forall i :: 0 <= i < |events| ==> EventOk(events[i])
    ensures Valid(Run(t, events).final)
    ensures Run(t, events).final.cycleCount == t.cycleCount + WorkCount(Run(t, events).notices)
    ensures Run(t, events).final.cycleCount >= t.cycleCount
    decreases |events|
  {
    if events != [] {
      var s := Apply(t, events[0]);
      ApplyValid(t, events[0]);
      assert s.next.cycleCount == t.cycleCount + WorkCount(s.notices) by {
        match events[0]
        case Callback => TickCounts(t);
        case StartPressed => StartEffect(t);
        case _ =>
      }
      RunCycles(s.next, events[1..]);
      WorkCountAppend(s.notices, Run(s.next, events[1..]).notices);
    }
  }

  /** `k` callbacks in a row are the run of `k` `Callback` events. */
  lemma {:induction false} TicksAreCallbacks(t: Timer, k: nat)
    requires DurationsPositive(t)
    ensures Ticks(t, k) == Run(t, seq(k, _ => Callback))
    decreases k
  {
    var events := seq(k, _ => Callback);
    if k > 0 {
      assert events[0] == Callback;
      assert events[1..] == seq(k - 1, _ => Callback);
      TicksAreCallbacks(Tick(t).next, k - 1);
    } else {
      assert events == [];
    }
  }

  /**
   * While running, `k` callbacks with `k` at most `remaining` just count down:
   * no dialog, same session, same cycle count.
   */
  lemma {:induction false} CountdownTicks(t: Timer, k: nat)
    requires DurationsPositive(t) && t.running && k <= t.remaining
    ensures var r := Ticks(t, k);
      r.notices == [] && r.final.running &&
      r.final.remaining == t.remaining - k &&
      r.final.isWorkSession == t.isWorkSession && r.final.cycleCount == t.cycleCount &&
      r.final.workDuration == t.workDuration && r.final.breakDuration == t.breakDuration
    decreases k
  {
    if k > 0 {
      var s := Tick(t);
      TickCountdown(t);
      CountdownTicks(s.next, k - 1);
      assert Ticks(t, k) == Trace(Ticks(s.next, k - 1).final, [] + Ticks(s.next, k - 1).notices);
    }
  }

  /**
   * While running, the session ends on exactly the `remaining + 1`-th callback:
   * that one is the first to show a dialog, it shows the one for this session,
   * counts a cycle if this was work, and leaves the next session loaded and
   * counted down once.
   */
  lemma SessionEndsOnTime(t: Timer)
    requires DurationsPositive(t) && t.running && t.remaining >= 0
    ensures Ticks(t, t.remaining).notices == []
    ensures var r := Ticks(t, t.remaining + 1);
      r.notices == [SessionNotice(t.isWorkSession)] &&
      r.final.running && r.final.isWorkSession == !t.isWorkSession &&
      r.final.cycleCount == (if t.isWorkSession then t.cycleCount + 1 else t.cycleCount) &&
      r.final.remaining == SessionSeconds(r.final) - 1
  {
    var k := t.remaining;
    var before := Ticks(t, k);
    CountdownTicks(t, k);
    var mid := before.final;
    TickSessionEnd(mid);
    var last := Ticks(mid, 1);
    assert last.notices == Tick(mid).notices + [];
    assert last.final == Tick(mid).next;
    TicksSplit(t, k, 1);
    assert Ticks(t, k + 1) == Trace(last.final, before.notices + last.notices);
  }

  /** `a + b` callbacks are `a` callbacks followed by `b` more. */
  lemma {:induction false} TicksSplit(t: Timer, a: nat, b: nat)
    requires DurationsPositive(t)
    ensures Ticks(t, a + b) == Trace(Ticks(Ticks(t, a).final, b).final,
                                     Ticks(t, a).notices + Ticks(Ticks(t, a).final, b).notices)
    decreases a
  {
    if a > 0 {
      TicksSplit(Tick(t).next, a - 1, b);
    }
  }

  /**
   * The work session a press of start begins lasts `workDuration * 60`
   * seconds: counting the second shown by start itself, the work dialog comes
   * with the `workDuration * 60`-th callback and not before, one cycle is
   * counted, and a break of `breakDuration * 60` seconds begins.
   */
  lemma WorkSessionLength(t: Timer)
    requires DurationsPositive(t) && !t.running
    ensures var s := Start(t).next;
      var w := t.workDuration * SecondsPerMinute;
      Ticks(s, w - 1).notices == [] &&
      Ticks(s, w).notices == [WorkDone] &&
      Ticks(s, w).final.cycleCount == t.cycleCount + 1 &&
      !Ticks(s, w).final.isWorkSession &&
      Ticks(s, w).final.remaining == t.breakDuration * SecondsPerMinute - 1
  {
    StartEffect(t);
    var s := Start(t).next;
    SessionEndsOnTime(s);
    assert s.remaining + 1 == t.workDuration * SecondsPerMinute;
  }
}

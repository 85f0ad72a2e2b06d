/**
 * The timer window itself: an object whose methods update its fields in
 * place. Each method is proved to do what the matching function of module
 * Pomodoro says, so the lemmas proved there hold of the object too.
 */
module PomodoroGui {
  import opened Clock
  import P = Pomodoro

  class PomodoroApp {
    var workDuration: int    // minutes, the work-duration entry field
    var breakDuration: int   // minutes, the break-duration entry field
    var remaining: int       // seconds left in the current session
    var running: bool
    var isWorkSession: bool
    var cycleCount: nat      // completed work sessions
    var timerText: string    // the big `mm:ss` label
    var status: P.Status     // the status label below it

    /** The object's state as a value of the specification. */
    function State(): P.Timer
      reads this
    {
      P.Timer(workDuration, breakDuration, remaining, running, isWorkSession,
              cycleCount, timerText, status)
    }

    predicate Valid()
      reads this
    {
      P.Valid(State())
    }

    predicate DurationsPositive()
      reads this
    {
      workDuration > 0 && breakDuration > 0
    }

    constructor ()
      ensures Valid() && State() == P.Init()
      ensures workDuration == 25 && breakDuration == 5
      ensures remaining == 0 && !running && isWorkSession && cycleCount == 0
    {
      workDuration := P.DefaultWorkMinutes;
      breakDuration := P.DefaultBreakMinutes;
      remaining := 0;
      running := false;
      isWorkSession := true;
      cycleCount := 0;
      timerText := P.IdleText;
      status := P.Waiting;
    }

    /** The start button: begin a work session unless one is running. */
    method StartTimer()
      requires Valid()
      modifies this
      ensures Valid()
      ensures P.Start(old(State())) == P.Step(State(), [])
    {
      P.StartEffect(State());
      if !running {
        running := true;
        isWorkSession := true;
        var notices := RunSession();
      }
    }

    /** The reset button: stop the countdown and clear both labels. */
    method ResetTimer()
      requires Valid()
      modifies this
      ensures Valid()
      ensures State() == P.Reset(old(State()))
    {
      P.ResetEffect(State());
      running := false;
      remaining := 0;
      timerText := P.IdleText;
      status := P.Waiting;
    }

    /** New values typed into the two duration fields. */
    method EditDurations(work: int, brk: int)
      requires Valid() && work > 0 && brk > 0
      modifies this
      ensures Valid()
      ensures State() == P.EditDurations(old(State()), work, brk)
    {
      P.EditDurationsValid(State(), work, brk);
      workDuration := work;
      breakDuration := brk;
    }

    /** Load the countdown with the current session's length and tick once. */
    method RunSession() returns (notices: seq<P.Notice>)
      requires DurationsPositive()
      modifies this
      ensures P.RunSession(old(State())) == P.Step(State(), notices)
      decreases 1
    {
      var duration := if isWorkSession then workDuration * SecondsPerMinute
                      else breakDuration * SecondsPerMinute;
      remaining := duration;
      notices := Tick();
    }

    /**
     * One scheduled callback: count one second off, or end the session, switch
     * between work and break and load the next one. Returns the dialogs shown.
     */
    method Tick() returns (notices: seq<P.Notice>)
      requires DurationsPositive()
      modifies this
      ensures P.Tick(old(State())) == P.Step(State(), notices)
      ensures old(Valid()) ==> Valid()
      decreases if running && remaining <= 0 then 2 else 0
    {
      ghost var before := State();
      if running && remaining > 0 {
        var (mins, secs) := DivMod(remaining);
        timerText := Pad2(mins) + ":" + Pad2(secs);
        status := P.SessionStatus(isWorkSession);
        remaining := remaining - 1;
        notices := [];
        assert State() == P.Tick(before).next;
      } else if running {
        var notice: P.Notice;
        if isWorkSession {
          cycleCount := cycleCount + 1;
          notice := P.WorkDone;
        } else {
          notice := P.BreakDone;
        }
        isWorkSession := !isWorkSession;
        ghost var ended := State();
        assert notice == P.SessionNotice(before.isWorkSession);
        assert P.Tick(before) == P.Step(P.RunSession(ended).next, [notice] + P.RunSession(ended).notices);
        var rest := RunSession();
        notices := [notice] + rest;
      } else {
        notices := [];
      }
      if P.Valid(before) {
        P.TickValid(before);
      }
    }
  }
}

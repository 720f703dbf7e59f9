/**
 * The older (ktor) service's process state: the alive and ready flags that the pod
 * endpoints report, cleared when the application stops, and its nightly shutdown, one day
 * after the last 02:00 mark once it has passed.
 */
module MainApplication {
  import opened Application

  const InternalServerError: int := 500
  /** The ktor service waits one day, not three, once today's mark has passed. */
  const ShutdownDays: nat := 1

  /** `ApplicationState`: both flags start true. */
  class ApplicationState {
    var alive: bool
    var ready: bool

    constructor ()
      ensures alive && ready
    {
      alive := true;
      ready := true;
    }

    /** The `ApplicationStopped` subscriber of `monitorState`: the pod is neither ready nor alive. */
    method OnApplicationStopped()
      modifies this
      ensures !alive && !ready
    {
      ready := false;
      alive := false;
    }

    /** GET /internal/is_alive: 200 while alive, else 500. */
    method IsAlive() returns (status: int)
      ensures status == (if alive then OK else InternalServerError)
    {
      if alive {
        status := OK;
      } else {
        status := InternalServerError;
      }
    }

    /** GET /internal/is_ready: 200 while ready, else 500. */
    method IsReady() returns (status: int)
      ensures status == (if ready then OK else InternalServerError)
    {
      if ready {
        status := OK;
      } else {
        status := InternalServerError;
      }
    }
  }

  /** A freshly started service answers 200 on both endpoints, a stopped one 500. */
  method StartAndStop() returns (before: int, after: int)
    ensures before == OK && after == InternalServerError
  {
    var state := new ApplicationState();
    before := state.IsAlive();
    state.OnApplicationStopped();
    after := state.IsReady();
  }

  /**
   * The one-day wait: positive whenever now lies within 24 hours after today's 02:00 mark,
   * and then at most a day, ending on the next 02:00 mark.
   */
  lemma OneDayDelayPositive(now: int, next: int)
    requires next <= now < next + DayMillis
    ensures var d := DelayMillis(now, next, ShutdownDays);
      0 < d <= DayMillis && now + d == next + DayMillis
  {
    DelayEndsAtShutdownMark(now, next, ShutdownDays);
  }

  /** Before the mark, both services wait just until it. */
  lemma BeforeMarkSameDelay(now: int, next: int)
    requires now < next
    ensures DelayMillis(now, next, ShutdownDays) == DelayMillis(now, next, Application.ShutdownDays) == next - now
  {
  }
}

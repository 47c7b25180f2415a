/** The health monitor of a service (crates/service-orchestration/src/health.rs). */
module Health {
  datatype HealthStatus = Healthy | Unhealthy(message: string) | Unknown

  /** What running the check command gave. */
  datatype Execution = Exited(success: bool, failure: string) | NotExecuted(failure: string)

  /** `check_health`: every execution is either a pass or a failure. */
  function CheckHealth(e: Execution): (s: HealthStatus)
    ensures !s.Unknown? && (s.Healthy? <==> e.Exited? && e.success)
    ensures s.Unhealthy? ==> s.message == e.failure
  {
    match e
    case Exited(success, failure) => if success then Healthy else Unhealthy(failure)
    case NotExecuted(failure) => Unhealthy(failure)
  }

  const U32_MAX: nat := 0xFFFF_FFFF

  /** The failure counter and the last status. */
  datatype Monitor = Monitor(consecutiveFailures: nat, lastStatus: HealthStatus)

  function Next(retries: nat, m: Monitor, status: HealthStatus): Monitor {
    match status
    case Healthy => Monitor(0, status)
    case Unhealthy(_) =>
      Monitor(m.consecutiveFailures + 1, if m.consecutiveFailures + 1 >= retries then status else m.lastStatus)
    case Unknown => m.(lastStatus := status)
  }

  class HealthMonitor {
    const retries: nat
    var consecutiveFailures: nat
    var lastStatus: HealthStatus

    function View(): Monitor
      reads this
    {
      Monitor(consecutiveFailures, lastStatus)
    }

    constructor (retries: nat)
      ensures this.retries == retries && View() == Monitor(0, Unknown)
    {
      this.retries := retries;
      consecutiveFailures, lastStatus := 0, Unknown;
    }

    /** `check`, for the status that running the command gave; the counter is a 32-bit number. */
    method Check(checked: HealthStatus) returns (status: HealthStatus)
      requires checked.Unhealthy? ==> consecutiveFailures < U32_MAX
      modifies this
      ensures View() == Next(retries, old(View()), checked)
      ensures status == lastStatus
      ensures consecutiveFailures == if checked.Unhealthy? then old(consecutiveFailures) + 1
                                     else if checked.Healthy? then 0 else old(consecutiveFailures)
      ensures status == if checked.Unhealthy? && consecutiveFailures < retries then old(lastStatus) else checked
    {
      match checked {
        case Healthy =>
          consecutiveFailures := 0;
          lastStatus := checked;
        case Unhealthy(_) =>
          consecutiveFailures := consecutiveFailures + 1;
          if consecutiveFailures >= retries {
            lastStatus := checked;
          }
        case Unknown =>
          lastStatus := checked;
      }
      return lastStatus;
    }
  }

  // ----- Runs -----

  function RunChecks(retries: nat, executions: seq<Execution>): Monitor {
    if executions == [] then Monitor(0, Unknown)
    else Next(retries, RunChecks(retries, executions[..|executions| - 1]), CheckHealth(executions[|executions| - 1]))
  }

  predicate Passes(e: Execution) {
    CheckHealth(e).Healthy?
  }

  /** n is the number of failures at the end of the run. */
  ghost predicate IsTrailingStreak(executions: seq<Execution>, n: nat) {
    && n <= |executions|
    && (forall i :: |executions| - n <= i < |executions| ==> !Passes(executions[i]))
    && (n < |executions| ==> Passes(executions[|executions| - n - 1]))
  }

  ghost predicate AnyPassed(executions: seq<Execution>) {
    exists e :: e in executions && Passes(e)
  }

  /** The counter is the length of the trailing streak of failures, and the status follows from it. */
  ghost predicate FollowsHistory(retries: nat, executions: seq<Execution>, m: Monitor) {
    && IsTrailingStreak(executions, m.consecutiveFailures)
    && m.lastStatus ==
       if m.consecutiveFailures > 0 && m.consecutiveFailures >= retries then CheckHealth(executions[|executions| - 1])
       else if AnyPassed(executions) then Healthy
       else Unknown
  }

  /**
   After any run, the counter is the length of the trailing streak of failures, and the status is the
   latest failure once that streak has reached the retries, else whether any check ever passed.
   */
  lemma {:induction false} StatusFollowsHistory(retries: nat, executions: seq<Execution>)
    ensures FollowsHistory(retries, executions, RunChecks(retries, executions))
    decreases |executions|
  {
    if executions == [] {
    } else {
      var init, last := executions[..|executions| - 1], executions[|executions| - 1];
      StatusFollowsHistory(retries, init);
      CheckFollowsHistory(retries, init, RunChecks(retries, init), last);
      assert executions == init + [last];
    }
  }

  lemma CheckFollowsHistory(retries: nat, init: seq<Execution>, m: Monitor, last: Execution)
    requires FollowsHistory(retries, init, m)
    ensures FollowsHistory(retries, init + [last], Next(retries, m, CheckHealth(last)))
  {
    var executions := init + [last];
    assert AnyPassed(executions) <==> AnyPassed(init) || Passes(last) by {
      assert forall e :: e in executions <==> e in init || e == last;
    }
    StreakPass(init, m.consecutiveFailures);
    hide AnyPassed;
    var n := Next(retries, m, CheckHealth(last)).consecutiveFailures;
    if !Passes(last) {
      assert forall i :: |init| - m.consecutiveFailures <= i < |init| ==> executions[i] == init[i];
    }
    assert IsTrailingStreak(executions, n);
  }

  /** Before a streak that does not fill the run, a check passed. */
  lemma StreakPass(executions: seq<Execution>, n: nat)
    requires IsTrailingStreak(executions, n)
    ensures AnyPassed(executions) <==> n < |executions|
  {
    if n < |executions| {
      assert executions[|executions| - n - 1] in executions;
    }
  }
}

/**
 The service manager (crates/service-orchestration/src/manager.rs) over executors whose results are
 arbitrary, with the registry of Registry.dfy. Each operation is one atomic step.
 */
module Managers {
  import opened Common
  import opened Health
  import R = Registries

  /** What finding and calling the executor gave. */
  datatype Executor = NoExecutor | ExecutorFails | ExecutorWorks

  datatype ManagerError = ServiceExists | ServiceNotFound | NoExecutorFound | ExecutionFailed | InvalidEntry

  function Failure(executor: Executor): ManagerError {
    if executor.NoExecutor? then NoExecutorFound else ExecutionFailed
  }

  datatype ServiceStatus = Running | Stopped | Failed | Unhealthy

  // ----- Specification on values -----

  datatype State = State(active: set<string>, monitors: map<string, HealthStatus>, registry: R.State)

  datatype Op =
    | Start(name: string, checked: bool, executor: Executor)
    | Stop(name: string, executor: Executor)
    | RecordHealth(name: string, status: HealthStatus)

  /** A start inserts the service before it builds the registry entry, which a blank name prevents. */
  function AfterStart(st: State, name: string, checked: bool, executor: Executor): State {
    if name in st.active || !executor.ExecutorWorks? then st
    else
      State(st.active + {name},
            if checked then st.monitors[name := Unknown] else st.monitors,
            match R.NewEntry(name, "1.0.0")
            case None => st.registry
            case Some(entry) => R.Apply(st.registry, R.Register(entry)))
  }

  /** A stop removes the service first, and keeps its monitor when the executor cannot stop it. */
  function AfterStop(st: State, name: string, executor: Executor): State {
    if name !in st.active then st
    else if !executor.ExecutorWorks? then st.(active := st.active - {name})
    else State(st.active - {name}, st.monitors - {name}, R.Apply(st.registry, R.UpdateState(name, R.Stopped)))
  }

  function Apply(st: State, op: Op): State {
    match op
    case Start(name, checked, executor) => AfterStart(st, name, checked, executor)
    case Stop(name, executor) => AfterStop(st, name, executor)
    case RecordHealth(name, status) => if name in st.monitors then st.(monitors := st.monitors[name := status]) else st
  }

  function StatusOf(st: State, name: string): ServiceStatus {
    if name in st.registry.services && name !in st.active then
      match st.registry.services[name] {
        case Running => ServiceStatus.Running
        case Failed => ServiceStatus.Failed
        case _ => ServiceStatus.Stopped
      }
    else if name !in st.active then ServiceStatus.Stopped
    else if name in st.monitors && st.monitors[name].Unhealthy? then ServiceStatus.Unhealthy
    else ServiceStatus.Running
  }

  class ServiceManager {
    const registry: R.Registry
    var activeServices: set<string>
    var healthMonitors: map<string, HealthStatus>

    function View(): State
      reads this, registry
    {
      State(activeServices, healthMonitors, registry.View())
    }

    constructor (registry: R.Registry)
      ensures this.registry == registry && activeServices == {} && healthMonitors == map[]
    {
      this.registry := registry;
      activeServices, healthMonitors := {}, map[];
    }

    method StartService(name: string, checked: bool, executor: Executor) returns (r: Result<(), ManagerError>)
      requires registry.Valid()
      modifies this, registry
      ensures registry.Valid() && View() == AfterStart(old(View()), name, checked, executor)
      ensures r.Ok? <==> name !in old(activeServices) && executor.ExecutorWorks? && !R.IsBlank(name)
      ensures r.Err? ==> r.error == if name in old(activeServices) then ServiceExists
                                    else if executor.ExecutorWorks? then InvalidEntry else Failure(executor)
      ensures r.Err? && r.error != InvalidEntry ==>
                activeServices == old(activeServices) && healthMonitors == old(healthMonitors)
      ensures r.Ok? || r.error == InvalidEntry ==>
                activeServices == old(activeServices) + {name}
                && healthMonitors == if checked then old(healthMonitors)[name := Unknown] else old(healthMonitors)
      ensures registry.backend == if r.Ok? && name !in old(registry.backend)
                                  then old(registry.backend)[name := R.ServiceEntry(name, R.Registered)]
                                  else old(registry.backend)
      ensures registry.subscribers == old(registry.subscribers)
    {
      hide R.IsBlank;
      if name in activeServices {
        return Err(ServiceExists);
      }
      if executor.NoExecutor? {
        return Err(NoExecutorFound);
      }
      if executor.ExecutorFails? {
        return Err(ExecutionFailed);
      }
      if checked {
        healthMonitors := healthMonitors[name := Unknown];
      }
      activeServices := activeServices + {name};
      VersionIsNotBlank();
      var entry := R.NewEntry(name, "1.0.0");
      if entry.None? {
        return Err(InvalidEntry);
      }
      var _ := registry.Register(entry.value);
      return Ok(());
    }

    method StopService(name: string, executor: Executor) returns (r: Result<(), ManagerError>)
      requires registry.Valid()
      modifies this, registry
      ensures registry.Valid() && View() == AfterStop(old(View()), name, executor)
      ensures r.Ok? <==> name in old(activeServices) && executor.ExecutorWorks?
      ensures r.Err? ==> r.error == if name !in old(activeServices) then ServiceNotFound else Failure(executor)
      ensures activeServices == old(activeServices) - {name}
      ensures healthMonitors == if r.Ok? then old(healthMonitors) - {name} else old(healthMonitors)
      ensures registry.backend ==
              if r.Ok? && name in old(registry.backend) && old(registry.backend)[name].state == R.Stopping
              then old(registry.backend)[name := R.ServiceEntry(name, R.Stopped)]
              else old(registry.backend)
      ensures registry.subscribers == old(registry.subscribers)
    {
      if name !in activeServices {
        return Err(ServiceNotFound);
      }
      activeServices := activeServices - {name};
      if executor.NoExecutor? {
        return Err(NoExecutorFound);
      }
      if executor.ExecutorFails? {
        return Err(ExecutionFailed);
      }
      healthMonitors := healthMonitors - {name};
      var _ := registry.UpdateState(name, R.Stopped);
      return Ok(());
    }

    method GetServiceStatus(name: string) returns (status: ServiceStatus)
      requires registry.Valid()
      ensures status == StatusOf(View(), name)
      ensures name in activeServices ==>
                status == if name in healthMonitors && healthMonitors[name].Unhealthy? then ServiceStatus.Unhealthy
                          else ServiceStatus.Running
      ensures name !in activeServices && name in registry.backend && registry.backend[name].state.Running? ==>
                status == ServiceStatus.Running
      ensures name !in activeServices && name in registry.backend && registry.backend[name].state.Failed? ==>
                status == ServiceStatus.Failed
      ensures name !in activeServices && (name in registry.backend ==>
                                          registry.backend[name].state !in {R.Running, R.Failed}) ==>
                status == ServiceStatus.Stopped
    {
      if name in registry.backend {
        var serviceInfo := registry.backend[name];
        if name !in activeServices {
          match serviceInfo.state {
            case Running => return ServiceStatus.Running;
            case Stopped => return ServiceStatus.Stopped;
            case Failed => return ServiceStatus.Failed;
            case _ => return ServiceStatus.Stopped;
          }
        }
      }
      if name !in activeServices {
        return ServiceStatus.Stopped;
      }
      if name in healthMonitors {
        match healthMonitors[name] {
          case Healthy => return ServiceStatus.Running;
          case Unhealthy(_) => return ServiceStatus.Unhealthy;
          case Unknown => return ServiceStatus.Running;
        }
      }
      return ServiceStatus.Running;
    }

    method ListServices() returns (names: set<string>)
      ensures names == activeServices
    {
      names := activeServices;
    }
  }

  lemma VersionIsNotBlank()
    ensures !R.IsBlank("1.0.0")
  {
    assert !IsWhitespace("1.0.0"[0]);
  }

  // ----- Runs -----

  function Run(st: State, ops: seq<Op>): State {
    if ops == [] then st else Apply(Run(st, ops[..|ops| - 1]), ops[|ops| - 1])
  }

  /** A manager's status is Stopped exactly for inactive names that the registry does not hold as running or failed. */
  lemma StoppedExactlyWhen(st: State, name: string)
    ensures StatusOf(st, name).Stopped? <==>
            name !in st.active
            && (name in st.registry.services ==>
               !st.registry.services[name].Running? && !st.registry.services[name].Failed?)
  {
  }

  /** Health recorded for a monitored service decides its status while it is active, and that of no other service. */
  lemma RecordedHealthIsReported(st: State, name: string, status: HealthStatus, other: string)
    requires name in st.active && other != name
    ensures var next := Apply(st, RecordHealth(name, status));
            && StatusOf(next, other) == StatusOf(st, other)
            && (name in st.monitors ==> (StatusOf(next, name).Unhealthy? <==> status.Unhealthy?))
            && (name in st.monitors && !status.Unhealthy? ==> StatusOf(next, name).Running?)
            && (name !in st.monitors ==> next == st)
            && next.active == st.active && next.registry == st.registry
  {
  }

  ghost predicate OnlyRegistered(st: State) {
    forall n :: n in st.registry.services ==> st.registry.services[n].Registered?
  }

  /** Starts register, and no stop is recorded: Registered to Stopped is not a valid transition. */
  lemma StepKeepsRegistered(st: State, op: Op)
    requires OnlyRegistered(st)
    ensures OnlyRegistered(Apply(st, op))
    ensures op.Stop? ==> Apply(st, op).registry == st.registry
  {
  }

  /** Over any run of a manager with an empty registry, a status is Stopped exactly for names not listed active. */
  lemma {:induction false} StoppedMeansInactive(st: State, ops: seq<Op>)
    requires OnlyRegistered(st)
    ensures OnlyRegistered(Run(st, ops))
    ensures forall name :: StatusOf(Run(st, ops), name).Stopped? <==> name !in Run(st, ops).active
    decreases |ops|
  {
    if ops == [] {
    } else {
      StoppedMeansInactive(st, ops[..|ops| - 1]);
      StepKeepsRegistered(Run(st, ops[..|ops| - 1]), ops[|ops| - 1]);
    }
    forall name
      ensures StatusOf(Run(st, ops), name).Stopped? <==> name !in Run(st, ops).active
    {
      StoppedExactlyWhen(Run(st, ops), name);
    }
  }

  // ----- What refused operations leave behind -----

  /** The operation returns an error. */
  predicate Refused(st: State, op: Op) {
    match op
    case Start(name, _, executor) => name in st.active || !executor.ExecutorWorks? || R.IsBlank(name)
    case Stop(name, executor) => name !in st.active || !executor.ExecutorWorks?
    case RecordHealth(_, _) => false
  }

  /** A start that works under a blank name, or a stop of an active service that the executor refuses. */
  predicate Leaks(st: State, op: Op) {
    match op
    case Start(name, _, executor) => R.IsBlank(name) && executor.ExecutorWorks? && name !in st.active
    case Stop(name, executor) => name in st.active && !executor.ExecutorWorks?
    case RecordHealth(_, _) => false
  }

  /** A refused operation changes nothing, except exactly a blank start and a stop that the executor refuses. */
  lemma RefusedChangesNothingExactlyWhen(st: State, op: Op)
    requires Refused(st, op)
    ensures Apply(st, op) == st <==> !Leaks(st, op)
    ensures Leaks(st, op) && op.Start? ==>
            Apply(st, op).active == st.active + {op.name} && Apply(st, op).registry == st.registry
    ensures Leaks(st, op) && op.Stop? ==> Apply(st, op) == st.(active := st.active - {op.name})
  {
    if op.Start? && Leaks(st, op) {
      assert op.name in Apply(st, op).active;
    }
    if op.Stop? && Leaks(st, op) {
      assert op.name !in Apply(st, op).active;
    }
  }

  /**
   A start under a blank name is refused, yet the service is then active, not reported stopped, and not
   registered.
   */
  lemma BlankNameStaysActive(st: State, name: string, checked: bool)
    requires R.IsBlank(name) && name !in st.active
    ensures var op := Start(name, checked, ExecutorWorks);
            var next := Apply(st, op);
            Refused(st, op) && name in next.active && !StatusOf(next, name).Stopped? && next.registry == st.registry
  {
  }

  /** A stop that the executor refuses leaves the service reported as stopped, and its monitor in place. */
  lemma FailedStopReportsStopped(st: State, name: string, executor: Executor)
    requires OnlyRegistered(st) && name in st.active && !executor.ExecutorWorks?
    ensures var op := Stop(name, executor);
            var next := Apply(st, op);
            Refused(st, op) && StatusOf(next, name).Stopped? && next.monitors == st.monitors
                && next.registry == st.registry
  {
  }

  /** The services a caller takes to be active, from the results of its calls alone. */
  function Believed(st: State, ops: seq<Op>): set<string> {
    if ops == [] then st.active
    else
      var before, op := Believed(st, ops[..|ops| - 1]), ops[|ops| - 1];
      if Refused(Run(st, ops[..|ops| - 1]), op) then before
      else match op
           case Start(name, _, _) => before + {name}
           case Stop(name, _) => before - {name}
           case RecordHealth(_, _) => before
  }

  /** At every point of the run, the active services are those the caller takes to be active. */
  ghost predicate BelievedThroughout(st: State, ops: seq<Op>) {
    Believed(st, ops) == Run(st, ops).active && (ops == [] || BelievedThroughout(st, ops[..|ops| - 1]))
  }

  predicate LeakFree(st: State, ops: seq<Op>) {
    ops == [] || (LeakFree(st, ops[..|ops| - 1]) && !Leaks(Run(st, ops[..|ops| - 1]), ops[|ops| - 1]))
  }

  /**
   The results of the calls tell which services are active, at every point of a run, exactly when the
   run holds no blank start that works and no stop that the executor refuses.
   */
  lemma {:induction false} BelievedExactlyWhen(st: State, ops: seq<Op>)
    ensures BelievedThroughout(st, ops) <==> LeakFree(st, ops)
    decreases |ops|
  {
    if ops == [] {
    } else {
      var init, op := ops[..|ops| - 1], ops[|ops| - 1];
      BelievedExactlyWhen(st, init);
      if LeakFree(st, init) {
        BelievedStep(Run(st, init), op);
      }
    }
  }

  lemma BelievedStep(st: State, op: Op)
    ensures Refused(st, op) ==> (Apply(st, op).active == st.active <==> !Leaks(st, op))
    ensures !Refused(st, op) ==> !Leaks(st, op)
    ensures !Refused(st, op) && op.Start? ==> Apply(st, op).active == st.active + {op.name}
    ensures !Refused(st, op) && op.Stop? ==> Apply(st, op).active == st.active - {op.name}
    ensures op.RecordHealth? ==> Apply(st, op).active == st.active
  {
    if Refused(st, op) {
      RefusedChangesNothingExactlyWhen(st, op);
      assert Leaks(st, op) && op.Stop? ==> op.name !in Apply(st, op).active;
      assert Leaks(st, op) && op.Start? ==> op.name in Apply(st, op).active;
    }
  }

  predicate Ups(op: Op, name: string) {
    op.Start? && op.name == name && op.executor.ExecutorWorks?
  }

  /** A service is active exactly when, since it was last asked to stop, some start of it worked. */
  ghost predicate StartedSinceStop(ops: seq<Op>, name: string) {
    exists k :: 0 <= k < |ops| && Ups(ops[k], name)
                && forall j :: k < j < |ops| ==> !(ops[j].Stop? && ops[j].name == name)
  }

  lemma StartedSinceStopStep(init: seq<Op>, op: Op, name: string)
    ensures StartedSinceStop(init + [op], name) <==>
            Ups(op, name) || (StartedSinceStop(init, name) && !(op.Stop? && op.name == name))
  {
    var ops := init + [op];
    assert ops[|init|] == op && forall j :: 0 <= j < |init| ==> ops[j] == init[j];
    if Ups(op, name) {
      assert Ups(ops[|init|], name);
    } else if StartedSinceStop(init, name) && !(op.Stop? && op.name == name) {
      var k :| 0 <= k < |init| && Ups(init[k], name) && forall j :: k < j < |init| ==>
          !(init[j].Stop? && init[j].name == name);
      assert Ups(ops[k], name);
    }
  }

  lemma {:induction false} ActiveSinceLastStop(st: State, ops: seq<Op>, name: string)
    requires st.active == {}
    ensures name in Run(st, ops).active <==> StartedSinceStop(ops, name)
    decreases |ops|
  {
    if ops == [] {
    } else {
      var init, op := ops[..|ops| - 1], ops[|ops| - 1];
      ActiveSinceLastStop(st, init, name);
      assert ops == init + [op];
      StartedSinceStopStep(init, op, name);
    }
  }
}

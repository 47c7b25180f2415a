/**
 The stop command (crates/harness/src/commands/stop.rs): the running services among those requested,
 and the services they affect, are stopped dependents first. After a stop it may wait for the service.
 */
module StopRun {
  import opened Common
  import opened Graphs
  import opened Config
  import opened Dependencies
  import opened Resolver
  import opened References
  import opened Connection

  datatype Status = Running | Starting | Unhealthy | Stopped | Failed

  datatype Request = ListServices | StopService(name: string) | GetServiceStatus(name: string)

  datatype Reply =
    | ServiceList(services: map<string, Status>)
    | Success
    | Error
    | ServiceStatus(status: Status)
    | OtherResponse
    | ConnectionFailed

  datatype StopError =
    | ConfigRejected(e: ConfigError)
    | NoServiceList
    | NotSorted(s: SortError)

  datatype Outcome = NothingToStop | Aborted | Stopping(failures: seq<string>)

  /** When a timeout is given, how many status requests fit before it for each service. */
  type Waits = Option<string -> nat>

  predicate IsRunning(s: Status) {
    s.Running? || s.Starting? || s.Unhealthy?
  }

  function RunningServices(statuses: map<string, Status>): set<string> {
    set n | n in statuses && IsRunning(statuses[n])
  }

  /** The names of s that are in k, in order. */
  function Keep(s: seq<string>, k: set<string>): seq<string> {
    if s == [] then [] else (if s[0] in k then [s[0]] else []) + Keep(s[1..], k)
  }

  /** The services that the requests ask to stop, in order. */
  function StopsIn(requests: seq<Request>): seq<string> {
    if requests == [] then []
    else (match requests[0] case StopService(name) => [name] case _ => []) + StopsIn(requests[1..])
  }

  lemma {:induction false} StopsInAppend(a: seq<Request>, b: seq<Request>)
    ensures StopsIn(a + b) == StopsIn(a) + StopsIn(b)
  {
    if a == [] {
      assert a + b == b;
    } else {
      assert (a + b)[1..] == a[1..] + b;
      StopsInAppend(a[1..], b);
    }
  }

  /** The services of the set, in the arbitrary order of a hash map. */
  method Enumerate(names: set<string>) returns (s: seq<string>)
    ensures Elems(s) == names
  {
    s := [];
    var todo := names;
    while todo != {}
      invariant todo <= names && Elems(s) == names - todo
      decreases todo
    {
      var n :| n in todo;
      todo := todo - {n};
      ElemsAppend(s, [n]);
      s := s + [n];
    }
  }

  // ----- Waiting for a stop -----

  predicate StillRuns(reply: Reply) {
    reply.ServiceStatus? && !reply.status.Stopped?
  }

  /** A status other than stopped: the only reply on which the wait goes on. */
  predicate IsStillRunning(reply: Reply) {
    match reply
    case ServiceStatus(Running) => true
    case ServiceStatus(Starting) => true
    case ServiceStatus(Unhealthy) => true
    case ServiceStatus(Failed) => true
    case _ => false
  }

  function StatusRequests(name: string, n: nat): (r: seq<Request>)
    ensures |r| == n && forall i :: 0 <= i < n ==> r[i] == GetServiceStatus(name)
  {
    seq(n, i requires 0 <= i < n => GetServiceStatus(name))
  }

  /** How many status requests follow a successful stop. */
  function StatusPolls(name: string, script: seq<Reply>, waits: Waits): nat {
    if waits.None? then 0 else Polls(script, ConnectionFailed, StillRuns, waits.value(name))
  }

  /** A status request follows a successful stop exactly when a timeout is given that leaves time for one. */
  lemma WaitsExactlyWhen(name: string, script: seq<Reply>, waits: Waits)
    ensures StatusPolls(name, script, waits) == 0 <==> waits.None? || waits.value(name) == 0
  {
  }

  method WaitForStop(name: string, limit: nat, daemon: Daemon<Request, Reply>)
    requires daemon.closed == ConnectionFailed
    modifies daemon
    ensures var n := Polls(old(daemon.replies), ConnectionFailed, StillRuns, limit);
      daemon.requests == old(daemon.requests) + StatusRequests(name, n)
          && daemon.replies == Drop(old(daemon.replies), n)
    ensures var n := |daemon.requests| - |old(daemon.requests)|;
      && 0 <= n <= limit && (n == 0 <==> limit == 0)
      && (forall i :: 0 <= i < n - 1 ==> IsStillRunning(First(Drop(old(daemon.replies), i), ConnectionFailed)))
      && (0 < n < limit ==> !IsStillRunning(First(Drop(old(daemon.replies), n - 1), ConnectionFailed)))
  {
    hide StatusRequests;
    var elapsed := 0;
    PollsExactly(daemon.replies, ConnectionFailed, StillRuns, limit);
    ghost var before, total := daemon.replies, Polls(daemon.replies, ConnectionFailed, StillRuns, limit);
    NoStatusRequests(name);
    assert daemon.requests + [] == daemon.requests;
    while elapsed < limit
      invariant elapsed <= total <= limit
      invariant daemon.requests == old(daemon.requests) + StatusRequests(name, elapsed)
      invariant Drop(before, total) == Drop(daemon.replies, total - elapsed)
      invariant total - elapsed == Polls(daemon.replies, ConnectionFailed, StillRuns, limit - elapsed)
    {
      OneMoreStatusRequest(name, elapsed);
      assert daemon.requests + [GetServiceStatus(name)] ==
             old(daemon.requests) + (StatusRequests(name, elapsed) + [GetServiceStatus(name)]);
      var reply := daemon.Send(GetServiceStatus(name));
      elapsed := elapsed + 1;
      match reply {
        case ServiceStatus(status) =>
          if status.Stopped? {
            break;
          }
        case _ => break;
      }
    }
  }

  lemma NoStatusRequests(name: string)
    ensures StatusRequests(name, 0) == []
  {
  }

  lemma OneMoreStatusRequest(name: string, n: nat)
    ensures StatusRequests(name, n + 1) == StatusRequests(name, n) + [GetServiceStatus(name)]
  {
  }

  lemma {:induction false} StatusStopsNothing(name: string, n: nat)
    ensures StopsIn(StatusRequests(name, n)) == []
    decreases n
  {
    if n == 0 {
    } else {
      assert StatusRequests(name, n)[1..] == StatusRequests(name, n - 1);
      StatusStopsNothing(name, n - 1);
    }
  }

  // ----- The stop loop -----

  /** What a stop loop did: the services asked to stop, those that failed to, and the requests it sent. */
  datatype Trace = Trace(sent: seq<string>, failures: seq<string>, requests: seq<Request>)

  function Then(a: Trace, b: Trace): Trace {
    Trace(a.sent + b.sent, a.failures + b.failures, a.requests + b.requests)
  }

  /** The stop loop over an order of running services. */
  function Stop(c: Config, order: seq<string>, force: bool, script: seq<Reply>, waits: Waits): Trace {
    if order == [] then Trace([], [], [])
    else if order[0] !in c.services then Stop(c, order[1..], force, script, waits)
    else
      var name, reply, later := order[0], First(script, ConnectionFailed), Later(script);
      if reply.Success? then
        var n := StatusPolls(name, later, waits);
        Then(Trace([name], [], [StopService(name)] + StatusRequests(name, n)),
            Stop(c, order[1..], force, Drop(later, n), waits))
      else
        var failed := Trace([name], [name], [StopService(name)]);
        if (reply.Error? || reply.ConnectionFailed?) && !force then failed
        else Then(failed, Stop(c, order[1..], force, later, waits))
  }

  method StopServices(c: Config, order: seq<string>, force: bool, daemon: Daemon<Request, Reply>, waits: Waits)
    returns (failures: seq<string>)
    requires daemon.closed == ConnectionFailed
    modifies daemon
    ensures var trace := Stop(c, order, force, old(daemon.replies), waits);
      daemon.requests == old(daemon.requests) + trace.requests && failures == trace.failures
  {
    hide Stop, StatusRequests;
    failures := [];
    ghost var whole, done := Stop(c, order, force, daemon.replies, waits), Trace([], [], []);
    assert order[0..] == order;
    NothingThen(whole);
    assert daemon.requests == old(daemon.requests) + [];
    for i := 0 to |order|
      invariant whole == Then(done, Stop(c, order[i..], force, daemon.replies, waits))
      invariant daemon.requests == old(daemon.requests) + done.requests && failures == done.failures
    {
      var name := order[i];
      assert order[i..][0] == name && order[i..][1..] == order[i + 1..];
      StopStep(c, order[i..], force, daemon.replies, done, waits);
      if name !in c.services {
        continue;
      }
      ghost var before, later := daemon.requests, Later(daemon.replies);
      ghost var failed := Trace([name], [name], [StopService(name)]);
      var reply := daemon.Send(StopService(name));
      SentToo(old(daemon.requests), done, failed, before, daemon.requests);
      match reply {
        case Success =>
          ghost var asked := daemon.requests;
          if waits.Some? {
            WaitForStop(name, waits.value(name), daemon);
          }
          ghost var polls := StatusRequests(name, StatusPolls(name, later, waits));
          NoStatusRequests(name);
          assert daemon.requests == asked + polls by {
            assert waits.None? ==> asked + [] == asked;
          }
          ghost var stopped := Trace([name], [], [StopService(name)] + polls);
          assert asked + polls == before + stopped.requests;
          SentToo(old(daemon.requests), done, stopped, before, daemon.requests);
          assert failures + [] == failures;
          done := Then(done, stopped);
        case Error =>
          failures := failures + [name];
          done := Then(done, failed);
          if !force {
            return;
          }
        case ConnectionFailed =>
          failures := failures + [name];
          done := Then(done, failed);
          if !force {
            return;
          }
        case _ =>
          failures := failures + [name];
          done := Then(done, failed);
      }
    }
    assert order[|order|..] == [];
    StopNothing(c, done, force, daemon.replies, waits);
  }

  lemma NothingThen(t: Trace)
    ensures t == Then(Trace([], [], []), t)
  {
  }

  lemma StopNothing(c: Config, done: Trace, force: bool, script: seq<Reply>, waits: Waits)
    ensures Then(done, Stop(c, [], force, script, waits)) == done
  {
    assert done.sent + [] == done.sent && done.failures + [] == done.failures && done.requests + [] == done.requests;
  }

  lemma ThenIsAssociative(a: Trace, b: Trace, c: Trace)
    ensures Then(a, Then(b, c)) == Then(Then(a, b), c)
  {
    assert a.sent + (b.sent + c.sent) == a.sent + b.sent + c.sent;
    assert a.failures + (b.failures + c.failures) == a.failures + b.failures + c.failures;
    assert a.requests + (b.requests + c.requests) == a.requests + b.requests + c.requests;
  }

  lemma SentToo(base: seq<Request>, done: Trace, t: Trace, before: seq<Request>, now: seq<Request>)
    requires before == base + done.requests && now == before + t.requests
    ensures now == base + Then(done, t).requests
  {
    assert base + done.requests + t.requests == base + (done.requests + t.requests);
  }

  /** One turn of the loop, after what earlier turns did. */
  lemma StopStep(c: Config, order: seq<string>, force: bool, script: seq<Reply>, done: Trace, waits: Waits)
    requires order != []
    ensures
      var name, rest, now := order[0], order[1..], Then(done, Stop(c, order, force, script, waits));
      var reply, later, failed :=
          First(script, ConnectionFailed), Later(script), Trace([name], [name], [StopService(name)]);
      if name !in c.services then now == Then(done, Stop(c, rest, force, script, waits))
      else if reply.Success? then
        var n := StatusPolls(name, later, waits);
        now == Then(Then(done, Trace([name], [], [StopService(name)] + StatusRequests(name, n))),
                    Stop(c, rest, force, Drop(later, n), waits))
      else if (reply.Error? || reply.ConnectionFailed?) && !force then now == Then(done, failed)
      else now == Then(Then(done, failed), Stop(c, rest, force, later, waits))
  {
    hide Then;
    var name, rest, later := order[0], order[1..], Later(script);
    var n := StatusPolls(name, later, waits);
    var stopped := Trace([name], [], [StopService(name)] + StatusRequests(name, n));
    ThenIsAssociative(done, stopped, Stop(c, rest, force, Drop(later, n), waits));
    ThenIsAssociative(done, Trace([name], [name], [StopService(name)]), Stop(c, rest, force, later, waits));
  }

  /** Among its requests a stop loop asks exactly the services it reports as asked. */
  lemma {:induction false} TraceIsFaithful(c: Config, order: seq<string>, force: bool, script: seq<Reply>, waits: Waits)
    ensures StopsIn(Stop(c, order, force, script, waits).requests) == Stop(c, order, force, script, waits).sent
    decreases |order|
  {
    if order == [] {
    } else {
      var name, rest, later := order[0], order[1..], Later(script);
      var n := StatusPolls(name, later, waits);
      var polls, ask := StatusRequests(name, n), [StopService(name)];
      TraceIsFaithful(c, rest, force, script, waits);
      TraceIsFaithful(c, rest, force, later, waits);
      TraceIsFaithful(c, rest, force, Drop(later, n), waits);
      StatusStopsNothing(name, n);
      assert StopsIn(ask) == [name] by {
        assert ask[1..] == [];
      }
      StopsInAppend(ask, polls);
      StopsInAppend(ask + polls, Stop(c, rest, force, Drop(later, n), waits).requests);
      StopsInAppend(ask, Stop(c, rest, force, later, waits).requests);
    }
  }

  // ----- The results, read off the requests and the replies -----

  /** The services whose stop request, in turn, got a reply other than a success. */
  function NotStoppedBy(requests: seq<Request>, script: seq<Reply>): seq<string> {
    if requests == [] then []
    else
      (match (requests[0], First(script, ConnectionFailed))
       case (StopService(_), Success) => []
       case (StopService(name), _) => [name]
       case _ => []) + NotStoppedBy(requests[1..], Later(script))
  }

  predicate Refuses(request: Request, reply: Reply) {
    request.StopService? && (reply.Error? || reply.ConnectionFailed?)
  }

  /** No request follows one that the daemon refuses. */
  predicate EndsAtRefusal(requests: seq<Request>, script: seq<Reply>) {
    requests == []
    || ((Refuses(requests[0], First(script, ConnectionFailed)) ==> |requests| == 1)
        && EndsAtRefusal(requests[1..], Later(script)))
  }

  predicate LastIsRefused(requests: seq<Request>, script: seq<Reply>) {
    requests != []
    && Refuses(requests[|requests| - 1], First(Drop(script, |requests| - 1), ConnectionFailed))
  }

  /**
   What a stop loop reports as failed was answered otherwise than by a success. Without force nothing follows
   a refusal; and services of the order are left out only behind one.
   */
  predicate ResultsAreReplies(trace: Trace, plan: seq<string>, force: bool, script: seq<Reply>) {
    && trace.failures == NotStoppedBy(trace.requests, script)
    && (!force ==> EndsAtRefusal(trace.requests, script))
    && (trace.sent != plan ==> !force && LastIsRefused(trace.requests, script))
  }

  lemma {:induction false} StatusIsNoResult(name: string, n: nat, more: seq<Request>, script: seq<Reply>)
    ensures var requests, later := StatusRequests(name, n) + more, Drop(script, n);
      && NotStoppedBy(requests, script) == NotStoppedBy(more, later)
      && (EndsAtRefusal(more, later) ==> EndsAtRefusal(requests, script))
      && (LastIsRefused(more, later) ==> LastIsRefused(requests, script))
    decreases n
  {
    hide LastIsRefused;
    var requests := StatusRequests(name, n) + more;
    if n == 0 {
      assert requests == more;
    } else {
      StatusIsNoResult(name, n - 1, more, Later(script));
      assert requests[1..] == StatusRequests(name, n - 1) + more;
      assert requests[0] == GetServiceStatus(name);
      LaterIsRefused(requests, script);
    }
  }

  lemma LaterIsRefused(requests: seq<Request>, script: seq<Reply>)
    requires requests != []
    ensures LastIsRefused(requests[1..], Later(script)) ==> LastIsRefused(requests, script)
  {
  }

  /** One turn of the loop that does not end it. */
  lemma ResultsOneMore(name: string, n: nat, later: Trace, plan: seq<string>, force: bool, script: seq<Reply>)
    requires var reply := First(script, ConnectionFailed);
      !force ==> !reply.Error? && !reply.ConnectionFailed?
    requires ResultsAreReplies(later, plan, force, Drop(Later(script), n))
    ensures var failed := if First(script, ConnectionFailed).Success? then [] else [name];
      ResultsAreReplies(Then(Trace([name], failed, [StopService(name)] + StatusRequests(name, n)), later),
                        [name] + plan, force, script)
  {
    hide StatusRequests;
    StatusIsNoResult(name, n, later.requests, Later(script));
    var requests := [StopService(name)] + StatusRequests(name, n) + later.requests;
    assert requests[1..] == StatusRequests(name, n) + later.requests;
    assert [name] + later.sent != [name] + plan ==> later.sent != plan;
    LaterIsRefused(requests, script);
  }

  lemma ResultsRefused(name: string, plan: seq<string>, script: seq<Reply>)
    requires Refuses(StopService(name), First(script, ConnectionFailed))
    ensures ResultsAreReplies(Trace([name], [name], [StopService(name)]), [name] + plan, false, script)
  {
    assert [StopService(name)][1..] == [];
  }

  lemma {:induction false} StopsAreReplies(c: Config, order: seq<string>, force: bool, script: seq<Reply>, waits: Waits)
    ensures ResultsAreReplies(Stop(c, order, force, script, waits), Keep(order, c.services.Keys), force, script)
    decreases |order|
  {
    hide ResultsAreReplies, StatusRequests, StatusPolls, Then;
    if order == [] {
      NoResults(force, script);
    } else {
      var name, rest, reply, later := order[0], order[1..], First(script, ConnectionFailed), Later(script);
      var plan := Keep(rest, c.services.Keys);
      if name !in c.services {
        StopsAreReplies(c, rest, force, script, waits);
        assert [] + plan == plan;
      } else if reply.Success? {
        var n := StatusPolls(name, later, waits);
        StopsAreReplies(c, rest, force, Drop(later, n), waits);
        ResultsOneMore(name, n, Stop(c, rest, force, Drop(later, n), waits), plan, force, script);
      } else if (reply.Error? || reply.ConnectionFailed?) && !force {
        ResultsRefused(name, plan, script);
      } else {
        StopsAreReplies(c, rest, force, later, waits);
        ResultsOneMore(name, 0, Stop(c, rest, force, later, waits), plan, force, script);
        NoStatusRequests(name);
        assert [StopService(name)] + [] == [StopService(name)];
      }
    }
  }

  lemma NoResults(force: bool, script: seq<Reply>)
    ensures ResultsAreReplies(Trace([], [], []), [], force, script)
  {
  }

  /**
   When a timeout is given, each successful stop is followed by status requests, as long as the replies keep it
   waiting within its timeout; nothing else is followed by a status request.
   */
  predicate WaitsFollow(requests: seq<Request>, script: seq<Reply>, waits: Waits)
    decreases |requests|
  {
    requests == [] ||
    match requests[0]
    case StopService(name) =>
      (var later := Later(script);
       var n := if First(script, ConnectionFailed).Success? && waits.Some?
                then Polls(later, ConnectionFailed, StillRuns, waits.value(name)) else 0;
       && n < |requests| && requests[1..n + 1] == StatusRequests(name, n)
       && WaitsFollow(requests[n + 1..], Drop(later, n), waits))
    case _ => false
  }

  lemma WaitsOneMore(name: string, n: nat, rest: seq<Request>, script: seq<Reply>, waits: Waits)
    requires n == if First(script, ConnectionFailed).Success? then StatusPolls(name, Later(script), waits) else 0
    requires WaitsFollow(rest, Drop(Later(script), n), waits)
    ensures WaitsFollow([StopService(name)] + StatusRequests(name, n) + rest, script, waits)
  {
    hide StatusRequests;
    var status := StatusRequests(name, n);
    var requests := [StopService(name)] + status + rest;
    assert requests[1..n + 1] == status && requests[n + 1..] == rest;
  }

  lemma {:induction false} StopsAwait(c: Config, order: seq<string>, force: bool, script: seq<Reply>, waits: Waits)
    ensures WaitsFollow(Stop(c, order, force, script, waits).requests, script, waits)
    decreases |order|
  {
    hide WaitsFollow, StatusRequests, StatusPolls;
    if order == [] {
      NothingWaits(script, waits);
    } else {
      var name, rest, reply, later := order[0], order[1..], First(script, ConnectionFailed), Later(script);
      NoStatusRequests(name);
      assert [StopService(name)] + [] == [StopService(name)];
      if name !in c.services {
        StopsAwait(c, rest, force, script, waits);
      } else if reply.Success? {
        var n := StatusPolls(name, later, waits);
        StopsAwait(c, rest, force, Drop(later, n), waits);
        WaitsOneMore(name, n, Stop(c, rest, force, Drop(later, n), waits).requests, script, waits);
      } else if (reply.Error? || reply.ConnectionFailed?) && !force {
        NothingWaits(later, waits);
        WaitsOneMore(name, 0, [], script, waits);
      } else {
        StopsAwait(c, rest, force, later, waits);
        WaitsOneMore(name, 0, Stop(c, rest, force, later, waits).requests, script, waits);
      }
    }
  }

  lemma NothingWaits(script: seq<Reply>, waits: Waits)
    ensures WaitsFollow([], script, waits)
  {
  }

  // ----- What a run does -----

  /** Whom the request concerns: everything running, or the named services that are running. */
  function Requested(services: seq<string>, running: set<string>): set<string> {
    if services == [] then running else Elems(services) * running
  }

  /** A service is asked to stop only after every running, configured service that transitively depends on it. */
  ghost predicate DependentsFirst(c: Config, running: set<string>, sent: seq<string>) {
    forall i, t :: 0 <= i < |sent| && t in running && t in c.services && t != sent[i]
                   && Reaches(DependencyGraph(c), t, sent[i])
                   ==> t in sent[..i]
  }

  /** The running, configured services that the requested ones are or affect. */
  ghost function Concerned(c: Config, requested: set<string>, running: set<string>): set<string> {
    set s | s in running && s in c.services && ReachableFrom(DependentsGraph(c), requested, s)
  }

  /** Some service outside the request depends on it. */
  ghost predicate AffectsOthers(c: Config, requested: set<string>) {
    exists s :: ReachableFrom(DependentsGraph(c), requested, s) && s !in requested
  }

  lemma AffectedAreOthers(c: Config, requested: set<string>, affected: set<string>)
    requires affected !! requested && IsClosure(DependentsGraph(c), requested, requested + affected)
    ensures affected != {} <==> AffectsOthers(c, requested)
  {
    ClosureIsReachability(DependentsGraph(c), requested, requested + affected);
    if s :| s in affected {
      assert ReachableFrom(DependentsGraph(c), requested, s);
    }
  }

  // ----- What a request means, in terms of the names given and the statuses listed -----

  /** The service is listed, and neither stopped nor failed. */
  predicate Live(statuses: map<string, Status>, s: string) {
    s in statuses && statuses[s] != Stopped && statuses[s] != Failed
  }

  /** A live service that is named, or any live service when none is named. */
  predicate Named(services: seq<string>, statuses: map<string, Status>, s: string) {
    Live(statuses, s) && (services == [] || s in services)
  }

  /** A configured live service that is named or transitively depends on a named one. */
  ghost predicate ToStop(c: Config, services: seq<string>, statuses: map<string, Status>, s: string) {
    s in c.services && Live(statuses, s) && exists n ::
        Named(services, statuses, n) && Reaches(DependencyGraph(c), s, n)
  }

  /** Some configured service that is not named transitively depends on a named one. */
  ghost predicate HitsOthers(c: Config, services: seq<string>, statuses: map<string, Status>) {
    exists s, n :: s in c.services && !Named(services, statuses, s) && Named(services, statuses, n)
                   && Reaches(DependencyGraph(c), s, n)
  }

  lemma RequestedAreNamed(services: seq<string>, statuses: map<string, Status>)
    ensures forall s :: s in RunningServices(statuses) <==> Live(statuses, s)
    ensures forall s :: s in Requested(services, RunningServices(statuses)) <==> Named(services, statuses, s)
  {
  }

  /** In a validated configuration a configured service depends on n exactly when it is a dependent of n. */
  lemma DependsExactly(c: Config, s: string, n: string)
    requires DependenciesConfigured(c) && s in c.services
    ensures Reaches(DependencyGraph(c), s, n) <==> Reaches(DependentsGraph(c), n, s)
  {
    if n in c.services {
      DependentsAreTransitive(c, n, s);
    } else {
      assert Closed(DependencyGraph(c), c.services.Keys) && Closed(DependentsGraph(c), {n});
      if Reaches(DependencyGraph(c), s, n) {
        assert ReachableFrom(DependencyGraph(c), {s}, n);
        ReachableInClosedSets(DependencyGraph(c), {s}, c.services.Keys, n);
      }
      if Reaches(DependentsGraph(c), n, s) {
        assert ReachableFrom(DependentsGraph(c), {n}, s);
        ReachableInClosedSets(DependentsGraph(c), {n}, {n}, s);
      }
    }
  }

  lemma ConcernedAreToStop(c: Config, services: seq<string>, statuses: map<string, Status>)
    requires DependenciesConfigured(c)
    ensures var running := RunningServices(statuses);
      forall s :: s in Concerned(c, Requested(services, running), running) <==> ToStop(c, services, statuses, s)
  {
    hide RunningServices, Requested, Live, Named, DependenciesConfigured;
    var running := RunningServices(statuses);
    RequestedAreNamed(services, statuses);
    forall s
      ensures s in Concerned(c, Requested(services, running), running) <==> ToStop(c, services, statuses, s)
    {
      if s in c.services {
        forall n
          ensures Reaches(DependencyGraph(c), s, n) <==> Reaches(DependentsGraph(c), n, s)
        {
          DependsExactly(c, s, n);
        }
      }
    }
  }

  lemma OthersAreHit(c: Config, services: seq<string>, statuses: map<string, Status>)
    requires DependenciesConfigured(c)
    ensures AffectsOthers(c, Requested(services, RunningServices(statuses))) <==> HitsOthers(c, services, statuses)
  {
    hide RunningServices, Requested, Live, Named;
    var requested := Requested(services, RunningServices(statuses));
    RequestedAreNamed(services, statuses);
    if s :| ReachableFrom(DependentsGraph(c), requested, s) && s !in requested {
      var n :| n in requested && Reaches(DependentsGraph(c), n, s);
      assert Closed(DependentsGraph(c), requested + c.services.Keys);
      ReachableInClosedSets(DependentsGraph(c), requested, requested + c.services.Keys, s);
      DependsExactly(c, s, n);
    }
    if s, n :| s in c.services && !Named(services, statuses, s) && Named(services, statuses, n)
               && Reaches(DependencyGraph(c), s, n) {
      DependsExactly(c, s, n);
      assert ReachableFrom(DependentsGraph(c), requested, s);
    }
  }

  lemma {:induction false} StopsInMembers(requests: seq<Request>, s: string)
    ensures s in StopsIn(requests) <==> StopService(s) in requests
  {
    if requests == [] {
    } else {
      StopsInMembers(requests[1..], s);
    }
  }

  /** The meaning of a request, for the statuses that the daemon listed. */
  lemma RequestMeans(c: Config, services: seq<string>, statuses: map<string, Status>)
    requires IsValid(c)
    ensures var running := RunningServices(statuses);
      var requested := Requested(services, running);
      && (requested == {} <==> !exists s :: Named(services, statuses, s))
      && (AffectsOthers(c, requested) <==> HitsOthers(c, services, statuses))
      && (forall s :: s in Concerned(c, requested, running) <==> ToStop(c, services, statuses, s))
  {
    hide RunningServices, Requested, Live, Named, ToStop, HitsOthers, AffectsOthers, Concerned;
    RequestedAreNamed(services, statuses);
    ConcernedAreToStop(c, services, statuses);
    OthersAreHit(c, services, statuses);
    var requested := Requested(services, RunningServices(statuses));
    assert forall s :: s in requested <==> Named(services, statuses, s);
    assert requested != {} ==> exists s :: s in requested;
  }

  /**
   What a stop command does for the names given: it stops only configured live services that are named or
   depend on a named one, and without failures or with force all of these; it does nothing exactly when
   none is named, and asks first when others are hit.
   */
  ghost predicate MeetsRequest(c: Config, services: seq<string>, statuses: map<string, Status>, force: bool,
                               confirmed: bool, outcome: Outcome, requests: seq<Request>)
  {
    && (outcome.NothingToStop? <==> !exists s :: Named(services, statuses, s))
    && (outcome.Aborted? ==> !force && !confirmed && HitsOthers(c, services, statuses))
    && (outcome.Stopping? ==> force || confirmed || !HitsOthers(c, services, statuses))
    && (!outcome.Stopping? ==> forall s :: StopService(s) !in requests)
    && (forall s :: StopService(s) in requests ==> ToStop(c, services, statuses, s))
    && (outcome.Stopping? && (force || outcome.failures == []) ==>
          forall s :: ToStop(c, services, statuses, s) ==> StopService(s) in requests)
  }

  lemma MeetsWhen(c: Config, services: seq<string>, statuses: map<string, Status>, force: bool, confirmed: bool,
                  outcome: Outcome, requests: seq<Request>, sent: seq<string>)
    requires IsValid(c) && StopsIn(requests) == sent
    requires outcome.NothingToStop? <==> Requested(services, RunningServices(statuses)) == {}
    requires outcome.Aborted? ==>
               !force && !confirmed && AffectsOthers(c, Requested(services, RunningServices(statuses)))
    requires outcome.Stopping? ==>
               force || confirmed || !AffectsOthers(c, Requested(services, RunningServices(statuses)))
    requires !outcome.Stopping? ==> sent == []
    requires var running := RunningServices(statuses);
      && Elems(sent) <= Concerned(c, Requested(services, running), running)
      && (outcome.Stopping? && (force || outcome.failures == []) ==>
            Elems(sent) == Concerned(c, Requested(services, running), running))
    ensures MeetsRequest(c, services, statuses, force, confirmed, outcome, requests)
  {
    hide IsValid, RunningServices, Requested, Live, Named, ToStop, HitsOthers, AffectsOthers, Concerned, StopsIn;
    RequestMeans(c, services, statuses);
    forall s
      ensures s in Elems(sent) <==> StopService(s) in requests
    {
      StopsInMembers(requests, s);
    }
  }

  lemma ListingStopsNothing()
    ensures StopsIn([ListServices]) == [] == StopsIn([])
  {
    assert [ListServices][1..] == [];
  }

  method RunStop(c: Config, services: seq<string>, force: bool, confirmed: bool, daemon: Daemon<Request, Reply>,
                 waits: Waits)
    returns (r: Result<Outcome, StopError>, ghost running: set<string>, ghost trace: Trace, ghost order: seq<string>)
    requires daemon.requests == [] && daemon.closed == ConnectionFailed
    modifies daemon
    ensures r.Err? && r.error.ConfigRejected? <==> !IsValid(c)
    ensures r.Err? && r.error.NoServiceList? <==>
            IsValid(c) && !First(old(daemon.replies), ConnectionFailed).ServiceList?
    ensures r.Ok? || r.error.NotSorted? ==>
            running == RunningServices(First(old(daemon.replies), ConnectionFailed).services)
    ensures r.Err? && r.error.NotSorted? ==>
              IsRealError(DependentsGraph(c), Requested(services, running), r.error.s) && r.error.s.CircularDependency?
    ensures r.Ok? ==> (r.value.NothingToStop? <==> Requested(services, running) == {})
    ensures r.Ok? && r.value.Aborted? ==> !force && !confirmed && AffectsOthers(c, Requested(services, running))
    ensures r.Ok? && r.value.Stopping? ==> force || confirmed || !AffectsOthers(c, Requested(services, running))
    ensures r.Ok? && r.value.Stopping? ==>
              IsOrderOf(DependentsGraph(c), Requested(services, running), order)
              && trace == Stop(c, Keep(order, running), force, Later(old(daemon.replies)), waits)
              && r.value.failures == trace.failures
    ensures daemon.requests == (if IsValid(c) then [ListServices] else []) + trace.requests
    ensures StopsIn(daemon.requests) == trace.sent
    ensures NoDuplicates(trace.sent) && DependentsFirst(c, running, trace.sent)
    ensures Elems(trace.sent) <= Concerned(c, Requested(services, running), running)
    ensures r.Ok? && r.value.Stopping? && (force || r.value.failures == []) ==>
              Elems(trace.sent) == Concerned(c, Requested(services, running), running)
    ensures trace.requests != [] ==> r.Ok? && r.value.Stopping?
    ensures r.Ok? ==> MeetsRequest(c, services, First(old(daemon.replies), ConnectionFailed).services, force, confirmed,
                                   r.value, daemon.requests)
    ensures r.Err? ==> forall s :: StopService(s) !in daemon.requests
  {
    hide IsValid, IsOrderOf, IsClosure, IsRealError, AffectsOthers;
    hide DependentsFirst, Concerned, NoDuplicates, Stop, Keep, MeetsRequest, StopsIn;
    running, trace, order := {}, Trace([], [], []), [];
    NothingSent(c, {}, {});
    ListingStopsNothing();
    var valid := ValidateConfig(c);
    if valid.Err? {
      return Err(ConfigRejected(valid.error)), running, trace, order;
    }
    var listed := daemon.Send(ListServices);
    assert daemon.requests == [ListServices] == [ListServices] + [];
    if !listed.ServiceList? {
      return Err(NoServiceList), running, trace, order;
    }
    var runningServices := RunningServices(listed.services);
    running := runningServices;
    NothingSent(c, Requested(services, running), running);
    var servicesToStop: seq<string>;
    if services == [] {
      servicesToStop := Enumerate(runningServices);
    } else {
      servicesToStop := Keep(services, runningServices);
      KeepElements(services, runningServices);
    }
    assert Elems(servicesToStop) == Requested(services, running);
    if servicesToStop == [] {
      MeetsWhen(c, services, listed.services, force, confirmed, NothingToStop, daemon.requests, []);
      return Ok(NothingToStop), running, trace, order;
    }
    assert servicesToStop[0] in Elems(servicesToStop);
    var affected := GetAffectedServices(c, servicesToStop);
    AffectedAreOthers(c, Elems(servicesToStop), Elems(affected));
    assert affected != [] ==> affected[0] in Elems(affected);
    if affected != [] && !force && !confirmed {
      MeetsWhen(c, services, listed.services, force, confirmed, Aborted, daemon.requests, []);
      return Ok(Aborted), running, trace, order;
    }
    var sorted := ReverseTopologicalSort(c, servicesToStop);
    if sorted.Err? {
      return Err(NotSorted(sorted.error)), running, trace, order;
    }
    order := sorted.value;
    var orderedServices := Keep(sorted.value, runningServices);
    trace := Stop(c, orderedServices, force, daemon.replies, waits);
    TraceIsFaithful(c, orderedServices, force, daemon.replies, waits);
    StopsInAppend([ListServices], trace.requests);
    StopIsSafe(c, Elems(servicesToStop), running, sorted.value, force, daemon.replies, waits);
    var failures := StopServices(c, orderedServices, force, daemon, waits);
    assert daemon.requests == [ListServices] + trace.requests && [] + trace.sent == trace.sent;
    MeetsWhen(c, services, listed.services, force, confirmed, Stopping(failures), daemon.requests, trace.sent);
    return Ok(Stopping(failures)), running, trace, order;
  }

  lemma NothingSent(c: Config, requested: set<string>, running: set<string>)
    ensures NoDuplicates<string>([]) && DependentsFirst(c, running, [])
            && Elems<string>([]) <= Concerned(c, requested, running)
  {
  }

  lemma {:induction false} KeepElements(s: seq<string>, k: set<string>)
    ensures Elems(Keep(s, k)) == Elems(s) * k
  {
    if s == [] {
    } else {
      KeepElements(s[1..], k);
      ElemsAppend([s[0]], s[1..]);
      assert [s[0]] + s[1..] == s;
      ElemsAppend(if s[0] in k then [s[0]] else [], Keep(s[1..], k));
    }
  }

  /** An element that is kept comes from somewhere, behind everything kept before it. */
  lemma {:induction false} KeepPosition(s: seq<string>, k: set<string>, m: nat) returns (i: nat)
    requires m < |Keep(s, k)|
    ensures i < |s| && s[i] == Keep(s, k)[m] && Keep(s, k)[..m] == Keep(s[..i], k)
    decreases |s|
  {
    var head := if s[0] in k then [s[0]] else [];
    assert Keep(s, k) == head + Keep(s[1..], k);
    if m == 0 && s[0] in k {
      i := 0;
      assert s[..0] == [];
    } else {
      var n := m - |head|;
      var j := KeepPosition(s[1..], k, n);
      i := j + 1;
      assert s[..i][0] == s[0] && s[..i][1..] == s[1..][..j];
      assert Keep(s, k)[..m] == head + Keep(s[1..], k)[..n];
    }
  }

  /** The services asked are a beginning of the plan, and all of it with force or without failures. */
  predicate Covers(trace: Trace, plan: seq<string>, force: bool) {
    trace.sent <= plan && (force || trace.failures == [] ==> trace.sent == plan)
  }

  lemma CoversOneMore(name: string, failed: bool, requests: seq<Request>, later: Trace, plan: seq<string>, force: bool)
    requires Covers(later, plan, force)
    ensures Covers(Then(Trace([name], if failed then [name] else [], requests), later), [name] + plan, force)
  {
    assert ([name] + plan)[1..] == plan;
  }

  /** The stop loop asks a prefix of the configured services, and all of them with force or without failures. */
  lemma {:induction false} StopIsPrefix(c: Config, order: seq<string>, force: bool, script: seq<Reply>, waits: Waits)
    ensures Covers(Stop(c, order, force, script, waits), Keep(order, c.services.Keys), force)
    decreases |order|
  {
    hide Covers, StatusRequests, StatusPolls, Drop, Then;
    if order == [] {
      NothingCovers(force);
    } else {
      var name, rest, later := order[0], order[1..], Later(script);
      var n := StatusPolls(name, later, waits);
      var plan := Keep(rest, c.services.Keys);
      StopIsPrefix(c, rest, force, script, waits);
      StopIsPrefix(c, rest, force, later, waits);
      StopIsPrefix(c, rest, force, Drop(later, n), waits);
      CoversOneMore(name, false, [StopService(name)] + StatusRequests(name, n),
          Stop(c, rest, force, Drop(later, n), waits), plan, force);
      CoversOneMore(name, true, [StopService(name)], Stop(c, rest, force, later, waits), plan, force);
      CoversFirst(name, plan);
      assert [] + plan == plan;
    }
  }

  lemma NothingCovers(force: bool)
    ensures Covers(Trace([], [], []), [], force)
  {
  }

  lemma CoversFirst(name: string, plan: seq<string>)
    ensures Covers(Trace([name], [name], [StopService(name)]), [name] + plan, false)
  {
  }

  /** In a stop order, a service comes after every other service of the order that transitively depends on it. */
  lemma TransitiveDependentsFirst(c: Config, order: seq<string>, i: nat, t: string)
    requires SuccessorsFirst(DependentsGraph(c), order) && i < |order|
    requires order[i] in c.services && t != order[i] && Reaches(DependencyGraph(c), t, order[i])
    ensures t in order[..i]
  {
    DependentsAreTransitive(c, order[i], t);
    var p :| PathBetween(DependentsGraph(c), p, order[i], t);
    PathsDescend(DependentsGraph(c), order, p, i);
    var j :| 0 <= j < i && order[j] == t;
    assert order[..i][j] == t;
  }

  lemma StopIsSafe(c: Config, requested: set<string>, running: set<string>, order: seq<string>, force: bool,
                   script: seq<Reply>, waits: Waits)
    requires IsOrderOf(DependentsGraph(c), requested, order)
    ensures var Trace(sent, failures, _) := Stop(c, Keep(order, running), force, script, waits);
            && NoDuplicates(sent) && DependentsFirst(c, running, sent)
            && Elems(sent) <= Concerned(c, requested, running)
            && (force || failures == [] ==> Elems(sent) == Concerned(c, requested, running))
  {
    hide Stop;
    var Trace(sent, failures, _) := Stop(c, Keep(order, running), force, script, waits);
    var plan := Keep(Keep(order, running), c.services.Keys);
    StopIsPrefix(c, Keep(order, running), force, script, waits);
    KeepTwice(order, running, c.services.Keys);
    PlanIsSafe(c, requested, running, order);
    assert forall i :: 0 <= i < |sent| ==> sent[i] == plan[i] && sent[..i] == plan[..i];
    forall s | s in sent
      ensures s in plan
    {
    }
  }

  lemma {:induction false} KeepTwice(s: seq<string>, k: set<string>, l: set<string>)
    ensures Keep(Keep(s, k), l) == Keep(s, k * l)
  {
    if s == [] {
    } else {
      KeepTwice(s[1..], k, l);
      if s[0] in k {
        assert Keep(s, k)[0] == s[0] && Keep(s, k)[1..] == Keep(s[1..], k);
      } else {
        assert Keep(s, k) == Keep(s[1..], k);
      }
    }
  }

  lemma PlanIsSafe(c: Config, requested: set<string>, running: set<string>, order: seq<string>)
    requires IsOrderOf(DependentsGraph(c), requested, order)
    ensures var plan := Keep(order, running * c.services.Keys);
            NoDuplicates(plan) && DependentsFirst(c, running, plan) && Elems(plan) == Concerned(c, requested, running)
  {
    hide Keep;
    var k := running * c.services.Keys;
    var plan := Keep(order, k);
    KeepElements(order, k);
    ClosureIsReachability(DependentsGraph(c), requested, Elems(order));
    forall i | 0 <= i < |plan|
      ensures plan[i] !in plan[..i]
      ensures forall t ::
              t in running && t in c.services && t != plan[i] && Reaches(DependencyGraph(c), t, plan[i]) ==>
                  t in plan[..i]
    {
      var j := KeepPosition(order, k, i);
      KeepElements(order[..j], k);
      assert plan[i] in Elems(plan);
      assert Elems(plan[..i]) == Elems(order[..j]) * k;
      assert order[j] !in order[..j] && order[j] !in Elems(plan[..i]);
      forall t | t in running && t in c.services && t != plan[i] && Reaches(DependencyGraph(c), t, plan[i])
        ensures t in plan[..i]
      {
        TransitiveDependentsFirst(c, order, j, t);
        assert t in Elems(plan[..i]);
      }
    }
    forall i, j | 0 <= i < j < |plan|
      ensures plan[i] != plan[j]
    {
      assert plan[..j][i] == plan[i];
    }
  }

  /** How many of the services asked to stop were reported stopped. */
  function Successes(c: Config, order: seq<string>, force: bool, script: seq<Reply>, waits: Waits): nat {
    if order == [] then 0
    else if order[0] !in c.services then Successes(c, order[1..], force, script, waits)
    else
      var reply, later := First(script, ConnectionFailed), Later(script);
      if reply.Success? then
        1 + Successes(c, order[1..], force, Drop(later, StatusPolls(order[0], later, waits)), waits)
      else if (reply.Error? || reply.ConnectionFailed?) && !force then 0
      else Successes(c, order[1..], force, later, waits)
  }

  lemma {:induction false} SuccessesAreAskedAndNotFailed(c: Config, order: seq<string>, force: bool,
                                                         script: seq<Reply>, waits: Waits)
    ensures var trace := Stop(c, order, force, script, waits);
            Successes(c, order, force, script, waits) == |trace.sent| - |trace.failures|
  {
    if order == [] {
    } else {
      var later := Later(script);
      SuccessesAreAskedAndNotFailed(c, order[1..], force, script, waits);
      SuccessesAreAskedAndNotFailed(c, order[1..], force, later, waits);
      SuccessesAreAskedAndNotFailed(c, order[1..], force, Drop(later, StatusPolls(order[0], later, waits)), waits);
    }
  }

  /** Is every service of the order configured, with no failure that ends the loop before its last service? */
  predicate RunsToTheEnd(c: Config, order: seq<string>, force: bool, script: seq<Reply>, waits: Waits) {
    order == [] ||
    var reply, later := First(script, ConnectionFailed), Later(script);
    && order[0] in c.services
    && (reply.Error? || reply.ConnectionFailed? ==> force || |order| == 1)
    && RunsToTheEnd(c, order[1..], force,
                    if reply.Success? then Drop(later, StatusPolls(order[0], later, waits)) else later, waits)
  }

  lemma {:induction false} AllAskedExactlyWhen(c: Config, order: seq<string>, force: bool, script: seq<Reply>,
                                               waits: Waits)
    ensures |Stop(c, order, force, script, waits).sent| <= |order|
    ensures |Stop(c, order, force, script, waits).sent| == |order| <==> RunsToTheEnd(c, order, force, script, waits)
  {
    if order == [] {
    } else {
      var later := Later(script);
      AllAskedExactlyWhen(c, order[1..], force, script, waits);
      AllAskedExactlyWhen(c, order[1..], force, later, waits);
      AllAskedExactlyWhen(c, order[1..], force, Drop(later, StatusPolls(order[0], later, waits)), waits);
    }
  }

  /** The number of stopped services that the summary prints. */
  function Summary(order: seq<string>, trace: Trace): int {
    |order| - |trace.failures|
  }

  /**
   The summary's number of stopped services is the number reported stopped exactly when every service was
   configured and no failure cut the run short; else it is too large.
   */
  lemma {:induction false} SummaryIsExactWhen(c: Config, order: seq<string>, force: bool, script: seq<Reply>,
                                              waits: Waits)
    ensures var summary := Summary(order, Stop(c, order, force, script, waits));
            var stopped := Successes(c, order, force, script, waits);
            summary >= stopped && (summary == stopped <==> RunsToTheEnd(c, order, force, script, waits))
  {
    SuccessesAreAskedAndNotFailed(c, order, force, script, waits);
    AllAskedExactlyWhen(c, order, force, script, waits);
  }

  /** A rejected stop ends the run, and the summary counts the service behind it as stopped. */
  lemma SummaryCountsServicesNotAsked(c: Config, waits: Waits)
    requires "a" in c.services && "b" in c.services
    ensures var order, script := ["a", "b"], [Error];
            Summary(order, Stop(c, order, false, script, waits)) == 1 && Successes(c, order, false, script, waits) == 0
  {
  }
}

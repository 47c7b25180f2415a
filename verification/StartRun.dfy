/**
 The start command (crates/harness/src/commands/start.rs): services are started in dependency order
 against a daemon whose replies are arbitrary. After a start it may wait for the service's health check.
 */
module StartRun {
  import opened Common
  import opened Graphs
  import opened Config
  import opened Dependencies
  import opened Resolver
  import opened Substitution
  import opened Values
  import opened References
  import opened Connection

  /** A reply of the daemon, or the failure to get one. */
  datatype Reply =
    | ServiceStarted(ip: string, port: Option<nat>, hostname: string)
    | Success
    | Error
    | ServiceStatus(status: Status)
    | OtherResponse
    | ConnectionFailed

  datatype Status = Running | Failed | Unhealthy | OtherStatus

  datatype Request = StartService(name: string, config: ServiceConfig) | GetServiceStatus(name: string)

  /** How many status requests fit before the startup timeout of a service. */
  type Patience = string -> nat

  datatype Reason = NotConverted | Rejected | UnexpectedResponse | NoReply

  /** What a run did: the requests it sent, and the services it started, failed to start, and did not reach. */
  datatype Run = Run(
    requests: seq<Request>, started: seq<string>, failures: seq<(string, Reason)>, notStarted: seq<string>)

  datatype StartError = ConfigRejected(e: ConfigError) | NotSorted(s: SortError) | NotConfigured(name: string)

  /** The conversion that is sent: determined by the service and the context. */
  ghost function Conversion(c: Config, name: string, ctx: Context): ServiceConfig
    requires Converts(c, name, ctx)
  {
    var service := c.services[name];
    var env := map k | k in service.env :: Resolved(service.env[k], ctx).value;
    ServiceConfig(name, ToTarget(service.serviceType, env), service.dependencies, ConvertedCheck(service))
  }

  /** The reply says that the service was started. */
  predicate Starts(reply: Reply) {
    reply.ServiceStarted? || reply.Success?
  }

  /** The context after a reply that started the service. */
  function Learn(ctx: Context, name: string, reply: Reply): Context {
    match reply
    case ServiceStarted(ip, port, hostname) => AddService(ctx, name, ip, port, hostname)
    case Success => AddService(ctx, name, "127.0.0.1", None, name + ".local")
    case _ => ctx
  }

  // ----- Waiting for a health check -----

  /** The service is neither running nor failed yet. */
  predicate KeepsWaiting(reply: Reply) {
    reply.ServiceStatus? && !reply.status.Running? && !reply.status.Failed?
  }

  /** A status other than running or failed: the only reply on which the wait goes on. */
  predicate IsNotSettled(reply: Reply) {
    match reply
    case ServiceStatus(Unhealthy) => true
    case ServiceStatus(OtherStatus) => true
    case _ => false
  }

  function StatusRequests(name: string, n: nat): (r: seq<Request>)
    ensures |r| == n && forall i :: 0 <= i < n ==> r[i] == GetServiceStatus(name)
  {
    seq(n, i requires 0 <= i < n => GetServiceStatus(name))
  }

  /** How many status requests follow the start of a service. */
  function Waits(c: Config, name: string, script: seq<Reply>, patience: Patience): nat {
    if name in c.services && c.services[name].healthCheck.Some? then
      Polls(script, ConnectionFailed, KeepsWaiting, patience(name))
    else 0
  }

  /** A status request follows a start exactly for a service with a health check whose timeout leaves time for one. */
  lemma WaitsExactlyWhen(c: Config, name: string, script: seq<Reply>, patience: Patience)
    requires name in c.services
    ensures Waits(c, name, script, patience) == 0 <==> c.services[name].healthCheck.None? || patience(name) == 0
  {
  }

  /** The replies behind a start that succeeded and the wait for it. */
  function AfterStart(c: Config, name: string, script: seq<Reply>, patience: Patience): seq<Reply> {
    Drop(Later(script), Waits(c, name, Later(script), patience))
  }

  /** The requests of a start that succeeded. */
  function StartRequests(c: Config, request: Request, script: seq<Reply>, patience: Patience): seq<Request> {
    [request] + StatusRequests(request.name, Waits(c, request.name, Later(script), patience))
  }

  method WaitForHealth(name: string, limit: nat, daemon: Daemon<Request, Reply>)
    requires daemon.closed == ConnectionFailed
    modifies daemon
    ensures daemon.requests ==
            old(daemon.requests)
                + StatusRequests(name, Polls(old(daemon.replies), ConnectionFailed, KeepsWaiting, limit))
    ensures daemon.replies ==
            Drop(old(daemon.replies), Polls(old(daemon.replies), ConnectionFailed, KeepsWaiting, limit))
    ensures var n := |daemon.requests| - |old(daemon.requests)|;
      && 0 <= n <= limit && (n == 0 <==> limit == 0)
      && (forall i :: 0 <= i < n - 1 ==> IsNotSettled(First(Drop(old(daemon.replies), i), ConnectionFailed)))
      && (0 < n < limit ==> !IsNotSettled(First(Drop(old(daemon.replies), n - 1), ConnectionFailed)))
  {
    hide StatusRequests;
    PollsExactly(daemon.replies, ConnectionFailed, KeepsWaiting, limit);
    var elapsed := 0;
    ghost var before, total := daemon.replies, Polls(daemon.replies, ConnectionFailed, KeepsWaiting, limit);
    NoStatusRequests(name);
    assert daemon.requests + [] == daemon.requests;
    while elapsed < limit
      invariant elapsed <= total <= limit
      invariant daemon.requests == old(daemon.requests) + StatusRequests(name, elapsed)
      invariant Drop(before, total) == Drop(daemon.replies, total - elapsed)
      invariant total - elapsed == Polls(daemon.replies, ConnectionFailed, KeepsWaiting, limit - elapsed)
    {
      OneMoreStatusRequest(name, elapsed);
      assert daemon.requests + [GetServiceStatus(name)] ==
             old(daemon.requests) + (StatusRequests(name, elapsed) + [GetServiceStatus(name)]);
      var reply := daemon.Send(GetServiceStatus(name));
      elapsed := elapsed + 1;
      match reply {
        case ServiceStatus(status) =>
          match status {
            case Running => break;
            case Failed => break;
            case _ =>
          }
        case _ => break;
      }
    }
  }

  lemma NoStatusRequests(name: string)
    ensures StatusRequests(name, 0) == []
  {
  }

  lemma OneMoreStatusRequest(name: string, n: nat)
    ensures StatusRequests(name, n + 1) == StatusRequests(name, n) + [GetServiceStatus(name)]
  {
  }

  // ----- The start loop -----

  /** The start loop over the rest of an order; None when it meets a service that is not configured. */
  ghost function Start(c: Config, order: seq<string>, ctx: Context, script: seq<Reply>,
                       patience: Patience): Option<Run>
  {
    if order == [] then Some(Run([], [], [], []))
    else if order[0] !in c.services then None
    else if !Converts(c, order[0], ctx) then
      WithFailure([], (order[0], NotConverted), Start(c, order[1..], ctx, script, patience))
    else
      var name, request, reply :=
          order[0], StartService(order[0], Conversion(c, order[0], ctx)), First(script, ConnectionFailed);
      match reply
      case Error => Some(Run([request], [], [(name, Rejected)], order[1..]))
      case ConnectionFailed => Some(Run([request], [], [(name, NoReply)], order[1..]))
      case _ =>
        if Starts(reply) then
          WithStarted(StartRequests(c, request, script, patience), name,
                      Start(c, order[1..], Learn(ctx, name, reply), AfterStart(c, name, script, patience), patience))
        else WithFailure([request], (name, UnexpectedResponse), Start(c, order[1..], ctx, Later(script), patience))
  }

  function WithStarted(requests: seq<Request>, name: string, rest: Option<Run>): Option<Run> {
    if rest.None? then None
    else Some(rest.value.(requests := requests + rest.value.requests, started := [name] + rest.value.started))
  }

  function WithFailure(requests: seq<Request>, failure: (string, Reason), rest: Option<Run>): Option<Run> {
    if rest.None? then None
    else Some(rest.value.(requests := requests + rest.value.requests, failures := [failure] + rest.value.failures))
  }

  /** A run after what an earlier part of it did. */
  function After(requests: seq<Request>, started: seq<string>, failures: seq<(string, Reason)>,
                 rest: Option<Run>): Option<Run>
  {
    if rest.None? then None
    else Some(Run(requests + rest.value.requests, started + rest.value.started, failures + rest.value.failures,
        rest.value.notStarted))
  }

  function Names(failures: seq<(string, Reason)>): (r: seq<string>)
    ensures |r| == |failures| && forall i :: 0 <= i < |r| ==> r[i] == failures[i].0
  {
    seq(|failures|, i requires 0 <= i < |failures| => failures[i].0)
  }

  lemma AfterNothing(rest: Option<Run>)
    ensures After([], [], [], rest) == rest
  {
    if rest.Some? {
      var run := rest.value;
      assert [] + run.requests == run.requests && [] + run.started == run.started && [] + run.failures == run.failures;
    }
  }

  lemma StartNothing(c: Config, ctx: Context, script: seq<Reply>, patience: Patience)
    ensures Start(c, [], ctx, script, patience) == Some(Run([], [], [], []))
  {
  }

  /** One turn of the loop, after what earlier turns did. */
  lemma StartStep(c: Config, order: seq<string>, ctx: Context, script: seq<Reply>,
                  requests: seq<Request>, started: seq<string>, failures: seq<(string, Reason)>, patience: Patience)
    requires order != []
    ensures
      var name, rest := order[0], order[1..];
      var now := After(requests, started, failures, Start(c, order, ctx, script, patience));
      if name !in c.services then now == None
      else if !Converts(c, name, ctx) then
        now == After(requests, started, failures + [(name, NotConverted)], Start(c, rest, ctx, script, patience))
      else
        var request, reply, later :=
            StartService(name, Conversion(c, name, ctx)), First(script, ConnectionFailed), Later(script);
        match reply
        case Error => now == Some(Run(requests + [request], started, failures + [(name, Rejected)], rest))
        case ConnectionFailed => now == Some(Run(requests + [request], started, failures + [(name, NoReply)], rest))
        case _ =>
          if Starts(reply) then
            now == After(requests + StartRequests(c, request, script, patience), started + [name], failures,
                         Start(c, rest, Learn(ctx, name, reply), AfterStart(c, name, script, patience), patience))
          else
            now == After(requests + [request], started, failures + [(name, UnexpectedResponse)],
                         Start(c, rest, ctx, later, patience))
  {
    hide Converts, Conversion, Learn, AfterStart, StartRequests;
    var name, rest, later := order[0], order[1..], Later(script);
    if name in c.services {
      if !Converts(c, name, ctx) {
        AfterFailure(requests, started, failures, [], (name, NotConverted), Start(c, rest, ctx, script, patience));
        assert requests + [] == requests;
      } else {
        var request, reply := StartService(name, Conversion(c, name, ctx)), First(script, ConnectionFailed);
        AfterStarted(requests, started, failures, StartRequests(c, request, script, patience), name,
                     Start(c, rest, Learn(ctx, name, reply), AfterStart(c, name, script, patience), patience));
        AfterFailure(requests, started, failures, [request], (name, UnexpectedResponse),
            Start(c, rest, ctx, later, patience));
        assert started + [] == started;
      }
    }
  }

  lemma AfterStarted(requests: seq<Request>, started: seq<string>, failures: seq<(string, Reason)>,
                     sent: seq<Request>, name: string, rest: Option<Run>)
    ensures After(requests, started, failures, WithStarted(sent, name, rest))
         == After(requests + sent, started + [name], failures, rest)
  {
    if rest.Some? {
      assert requests + (sent + rest.value.requests) == requests + sent + rest.value.requests;
      assert started + ([name] + rest.value.started) == started + [name] + rest.value.started;
    }
  }

  lemma AfterFailure(requests: seq<Request>, started: seq<string>, failures: seq<(string, Reason)>,
                     sent: seq<Request>, failure: (string, Reason), rest: Option<Run>)
    ensures After(requests, started, failures, WithFailure(sent, failure, rest))
         == After(requests + sent, started, failures + [failure], rest)
  {
    if rest.Some? {
      assert requests + (sent + rest.value.requests) == requests + sent + rest.value.requests;
      assert failures + ([failure] + rest.value.failures) == failures + [failure] + rest.value.failures;
    }
  }

  lemma ConversionIs(c: Config, name: string, ctx: Context, sc: ServiceConfig)
    requires IsConversion(c, name, ctx, sc) && Converts(c, name, ctx)
    ensures sc == Conversion(c, name, ctx)
  {
    hide Resolved;
    var env := c.services[name].env;
    var resolved :| IsResolvedEnv(env, ctx, resolved)
                    && sc == ServiceConfig(name, ToTarget(c.services[name].serviceType, resolved),
                                           c.services[name].dependencies, ConvertedCheck(c.services[name]));
    assert resolved == map k | k in env :: Resolved(env[k], ctx).value;
  }

  predicate KeepsEnvironment(t: ServiceType) {
    t.Docker? || t.Process?
  }

  /** What is sent to the daemon depends on the resolved environment exactly for Docker and process services. */
  lemma EnvironmentIsSentExactlyWhen(c: Config, name: string, ctx: Context, other: Context)
    requires Converts(c, name, ctx) && Converts(c, name, other)
    ensures Conversion(c, name, ctx) == Conversion(c, name, other) <==>
            !KeepsEnvironment(c.services[name].serviceType)
            || forall k :: k in c.services[name].env ==>
               Resolved(c.services[name].env[k], ctx) == Resolved(c.services[name].env[k], other)
  {
    hide Resolved;
    var env, target := c.services[name].env, c.services[name].serviceType;
    var here := map k | k in env :: Resolved(env[k], ctx).value;
    var there := map k | k in env :: Resolved(env[k], other).value;
    if KeepsEnvironment(target) && ToTarget(target, here) == ToTarget(target, there) {
      forall k | k in env
        ensures Resolved(env[k], ctx) == Resolved(env[k], other)
      {
        assert here[k] == there[k];
      }
    }
    if forall k :: k in env ==> Resolved(env[k], ctx) == Resolved(env[k], other) {
      assert here == there;
    }
  }

  /** The variable of a remote service is resolved, but not sent. */
  lemma RemoteEnvironmentIsLost(c: Config, ctx: Context)
    requires "r" in c.services && c.services["r"] == Service(Remote("h", "b", []), "net", map["K" := "v"], [], None)
    ensures Converts(c, "r", ctx)
            && Conversion(c, "r", ctx) == ServiceConfig("r", RemoteLanTarget("h", "root", "b", []), [], None)
    ensures Resolved("v", ctx) == Ok("v")
  {
    ResolvedIsIdentity("v", ctx);
  }

  /** The services that are neither started nor failed, in order. */
  function NotStarted(order: seq<string>, started: seq<string>, failed: seq<string>): seq<string> {
    if order == [] then []
    else
      (if order[0] !in started && order[0] !in failed then [order[0]] else [])
      + NotStarted(order[1..], started, failed)
  }

  lemma SortsWhenValid(c: Config, services: seq<string>)
    ensures IsValid(c) && Elems(services) <= c.services.Keys ==>
            ConfiguredFrom(DependencyGraph(c), StartRoots(c, services))
  {
    hide ReferencesValid;
    if !(IsValid(c) && Elems(services) <= c.services.Keys) {
      return;
    }
    var g, roots := DependencyGraph(c), StartRoots(c, services);
    assert Closed(g, c.services.Keys);
    forall n | ReachableFrom(g, roots, n)
      ensures n in g
    {
      ReachableInClosedSets(g, roots, c.services.Keys, n);
    }
  }

  /** In a validated configuration only a requested name can be unconfigured. */
  lemma OrderedServicesAreConfigured(c: Config, services: seq<string>, order: seq<string>)
    requires IsValid(c) && IsOrderOf(DependencyGraph(c), StartRoots(c, services), order)
    ensures forall s :: s in order ==> s in c.services || s in services
    ensures NoDuplicates(order) && SuccessorsFirst(DependencyGraph(c), order)
  {
    hide ReferencesValid;
    var g, roots := DependencyGraph(c), StartRoots(c, services);
    assert Closed(g, roots + c.services.Keys);
    assert Elems(order) <= roots + c.services.Keys;
    forall s | s in order
      ensures s in c.services || s in services
    {
      assert s in Elems(order);
    }
  }

  // ----- What a run does -----

  /** `whole` is an interleaving of a and b. */
  ghost predicate Interleaves(whole: seq<string>, a: seq<string>, b: seq<string>) {
    if whole == [] then a == [] && b == []
    else
      || (a != [] && a[0] == whole[0] && Interleaves(whole[1..], a[1..], b))
      || (b != [] && b[0] == whole[0] && Interleaves(whole[1..], a, b[1..]))
  }

  /** A failure after which the loop stops. */
  predicate IsFatal(r: Reason) {
    r == Rejected || r == NoReply
  }

  /**
   The services started and the services that failed make up a prefix of the order, and the rest was
   not started; something is left over only behind a fatal failure, and a fatal failure is the last one.
   */
  ghost predicate Partitions(order: seq<string>, run: Run) {
    var n := |run.started| + |run.failures|;
    && n <= |order| && Interleaves(order[..n], run.started, Names(run.failures))
    && run.notStarted == order[n..] && FatalIsLast(order, run)
  }

  ghost predicate FatalIsLast(order: seq<string>, run: Run)
    requires |run.started| + |run.failures| <= |order|
  {
    var n := |run.started| + |run.failures|;
    && (run.notStarted != [] ==> run.failures != [] && IsFatal(run.failures[|run.failures| - 1].1))
    && (forall i :: 0 <= i < |run.failures| - 1 ==> !IsFatal(run.failures[i].1))
    && (run.failures != [] && IsFatal(run.failures[|run.failures| - 1].1) ==>
          n > 0 && order[n - 1] == run.failures[|run.failures| - 1].0)
  }

  lemma {:induction false} RunPartitions(c: Config, order: seq<string>, ctx: Context, script: seq<Reply>,
                                         patience: Patience)
    requires Start(c, order, ctx, script, patience).Some?
    ensures Partitions(order, Start(c, order, ctx, script, patience).value)
    decreases |order|
  {
    hide Converts, Conversion, Learn, AfterStart, StartRequests, Starts;
    if order == [] {
    } else {
      var name, rest := order[0], order[1..];
      if !Converts(c, name, ctx) {
        RunPartitions(c, rest, ctx, script, patience);
        FailurePartitions(order, Start(c, rest, ctx, script, patience).value, [], NotConverted);
      } else {
        var request, reply := StartService(name, Conversion(c, name, ctx)), First(script, ConnectionFailed);
        match reply {
          case Error => FatalPartitions(order, [request], Rejected);
          case ConnectionFailed => FatalPartitions(order, [request], NoReply);
          case _ =>
            if Starts(reply) {
              var next, later := Learn(ctx, name, reply), AfterStart(c, name, script, patience);
              RunPartitions(c, rest, next, later, patience);
              StartedPartitions(order, Start(c, rest, next, later, patience).value,
                  StartRequests(c, request, script, patience));
            } else {
              RunPartitions(c, rest, ctx, Later(script), patience);
              FailurePartitions(order, Start(c, rest, ctx, Later(script), patience).value, [request],
                  UnexpectedResponse);
            }
        }
      }
    }
  }

  lemma StartedPartitions(order: seq<string>, run: Run, requests: seq<Request>)
    requires order != [] && Partitions(order[1..], run)
    ensures Partitions(order, WithStarted(requests, order[0], Some(run)).value)
  {
    var more, n := WithStarted(requests, order[0], Some(run)).value, 1 + |run.started| + |run.failures|;
    assert order[..n][1..] == order[1..][..n - 1] && order[n..] == order[1..][n - 1..];
    assert more.started[1..] == run.started;
  }

  lemma InterleavesNext(first: string, whole: seq<string>, a: seq<string>, b: seq<string>)
    requires Interleaves(whole, a, b)
    ensures Interleaves([first] + whole, [first] + a, b) && Interleaves([first] + whole, a, [first] + b)
  {
    assert ([first] + whole)[1..] == whole && ([first] + a)[1..] == a && ([first] + b)[1..] == b;
  }

  lemma FailurePartitions(order: seq<string>, run: Run, requests: seq<Request>, reason: Reason)
    requires order != [] && Partitions(order[1..], run) && !IsFatal(reason)
    ensures Partitions(order, WithFailure(requests, (order[0], reason), Some(run)).value)
  {
    hide Interleaves, FatalIsLast;
    var more, n := WithFailure(requests, (order[0], reason), Some(run)).value, 1 + |run.started| + |run.failures|;
    assert order[..n] == [order[0]] + order[1..][..n - 1] && order[n..] == order[1..][n - 1..];
    InterleavesNext(order[0], order[1..][..n - 1], run.started, Names(run.failures));
    assert Names(more.failures) == [order[0]] + Names(run.failures);
    FailureIsNotLast(order, run, requests, reason);
  }

  lemma FailureIsNotLast(order: seq<string>, run: Run, requests: seq<Request>, reason: Reason)
    requires order != [] && |run.started| + |run.failures| < |order| && FatalIsLast(order[1..], run) && !IsFatal(reason)
    ensures FatalIsLast(order, WithFailure(requests, (order[0], reason), Some(run)).value)
  {
    var more := WithFailure(requests, (order[0], reason), Some(run)).value;
    assert forall i :: 1 <= i < |more.failures| ==> more.failures[i] == run.failures[i - 1];
  }

  lemma FatalPartitions(order: seq<string>, requests: seq<Request>, reason: Reason)
    requires order != [] && IsFatal(reason)
    ensures Partitions(order, Run(requests, [], [(order[0], reason)], order[1..]))
  {
    var names := Names([(order[0], reason)]);
    assert order[..1] == [order[0]] && names == [order[0]] && [order[0]][1..] == [];
    assert Interleaves([], [], names[1..]);
  }

  lemma {:induction false} InterleavingElements(whole: seq<string>, a: seq<string>, b: seq<string>)
    requires Interleaves(whole, a, b)
    ensures forall s :: s in whole <==> s in a || s in b
    decreases |whole|
  {
    if whole == [] {
    } else {
      if a != [] && a[0] == whole[0] && Interleaves(whole[1..], a[1..], b) {
        InterleavingElements(whole[1..], a[1..], b);
        assert forall s :: s in a <==> s == a[0] || s in a[1..];
      } else {
        InterleavingElements(whole[1..], a, b[1..]);
        assert forall s :: s in b <==> s == b[0] || s in b[1..];
      }
      assert forall s :: s in whole <==> s == whole[0] || s in whole[1..];
    }
  }

  /** The services that the requests ask to start, in order. */
  function StartsIn(requests: seq<Request>): seq<string> {
    if requests == [] then []
    else (match requests[0] case StartService(name, _) => [name] case _ => []) + StartsIn(requests[1..])
  }

  lemma {:induction false} StartsInAppend(a: seq<Request>, b: seq<Request>)
    ensures StartsIn(a + b) == StartsIn(a) + StartsIn(b)
  {
    if a == [] {
      assert a + b == b;
    } else {
      assert (a + b)[1..] == a[1..] + b;
      StartsInAppend(a[1..], b);
    }
  }

  lemma {:induction false} StatusStartsNothing(name: string, n: nat)
    ensures StartsIn(StatusRequests(name, n)) == []
    decreases n
  {
    if n == 0 {
    } else {
      assert StatusRequests(name, n)[1..] == StatusRequests(name, n - 1);
      StatusStartsNothing(name, n - 1);
    }
  }

  lemma OneStart(c: Config, request: Request, script: seq<Reply>, patience: Patience)
    requires request.StartService?
    ensures StartsIn([request]) == [request.name]
            && StartsIn(StartRequests(c, request, script, patience)) == [request.name]
  {
    var n := Waits(c, request.name, Later(script), patience);
    assert [request][1..] == [];
    StatusStartsNothing(request.name, n);
    StartsInAppend([request], StatusRequests(request.name, n));
  }

  /** The services that failed after they were asked to start. */
  function AskedAndFailed(failures: seq<(string, Reason)>): seq<string> {
    if failures == [] then []
    else (if failures[0].1.NotConverted? then [] else [failures[0].0]) + AskedAndFailed(failures[1..])
  }

  lemma FailedFirst(failure: (string, Reason), failures: seq<(string, Reason)>)
    ensures AskedAndFailed([failure] + failures) ==
            (if failure.1.NotConverted? then [] else [failure.0]) + AskedAndFailed(failures)
  {
    assert ([failure] + failures)[1..] == failures;
  }

  /**
   Exactly the services started, and those that failed otherwise than in conversion, were asked to start, in
   this order.
   */
  lemma {:induction false} AskedAreReported(c: Config, order: seq<string>, ctx: Context, script: seq<Reply>,
                                            patience: Patience)
    requires Start(c, order, ctx, script, patience).Some?
    ensures var run := Start(c, order, ctx, script, patience).value;
      Interleaves(StartsIn(run.requests), run.started, AskedAndFailed(run.failures))
    decreases |order|
  {
    hide Converts, Conversion, Learn, AfterStart, StartRequests, Starts, StartsIn, AskedAndFailed, Interleaves;
    if order == [] {
      NothingAsked();
    } else {
      var name, rest, later := order[0], order[1..], Later(script);
      if !Converts(c, name, ctx) {
        AskedAreReported(c, rest, ctx, script, patience);
        var run := Start(c, rest, ctx, script, patience).value;
        FailedFirst((name, NotConverted), run.failures);
        assert [] + run.requests == run.requests && [] + AskedAndFailed(run.failures) == AskedAndFailed(run.failures);
      } else {
        var request, reply := StartService(name, Conversion(c, name, ctx)), First(script, ConnectionFailed);
        OneStart(c, request, script, patience);
        match reply {
          case Error => FatalAsked(request, Rejected);
          case ConnectionFailed => FatalAsked(request, NoReply);
          case _ =>
            if Starts(reply) {
              var next, behind := Learn(ctx, name, reply), AfterStart(c, name, script, patience);
              AskedAreReported(c, rest, next, behind, patience);
              var run := Start(c, rest, next, behind, patience).value;
              StartsInAppend(StartRequests(c, request, script, patience), run.requests);
              InterleavesNext(name, StartsIn(run.requests), run.started, AskedAndFailed(run.failures));
            } else {
              AskedAreReported(c, rest, ctx, later, patience);
              var run := Start(c, rest, ctx, later, patience).value;
              StartsInAppend([request], run.requests);
              FailedFirst((name, UnexpectedResponse), run.failures);
              InterleavesNext(name, StartsIn(run.requests), run.started, AskedAndFailed(run.failures));
            }
        }
      }
    }
  }

  lemma NothingAsked()
    ensures Interleaves(StartsIn([]), [], AskedAndFailed([]))
  {
  }

  lemma FatalAsked(request: Request, reason: Reason)
    requires StartsIn([request]) == [request.name] && IsFatal(reason)
    ensures Interleaves(StartsIn([request]), [], AskedAndFailed([(request.name, reason)]))
  {
    assert [(request.name, reason)][1..] == [] && AskedAndFailed([]) == [];
    assert AskedAndFailed([(request.name, reason)]) == [request.name];
    assert [request.name][1..] == [] && Interleaves([], [], []);
  }

  /** What the summary lists as not started is exactly the part of the order behind the failures. */
  lemma NotStartedIsRest(order: seq<string>, run: Run)
    requires NoDuplicates(order) && Partitions(order, run)
    ensures NotStarted(order, run.started, Names(run.failures)) == run.notStarted
  {
    var n, failed := |run.started| + |run.failures|, Names(run.failures);
    InterleavingElements(order[..n], run.started, failed);
    forall i | 0 <= i < n
      ensures order[i] in run.started || order[i] in failed
    {
      assert order[..n][i] in order[..n];
    }
    forall i | n <= i < |order|
      ensures order[i] !in run.started && order[i] !in failed
    {
      assert order[i] !in order[..n];
    }
    assert order[0..] == order;
    NotStartedFrom(order, run.started, failed, n, 0);
  }

  lemma {:induction false} NotStartedFrom(order: seq<string>, started: seq<string>, failed: seq<string>, n: nat, k: nat)
    requires k <= |order| && n <= |order|
    requires forall i :: 0 <= i < n ==> order[i] in started || order[i] in failed
    requires forall i :: n <= i < |order| ==> order[i] !in started && order[i] !in failed
    ensures NotStarted(order[k..], started, failed) == order[if k < n then n else k..]
    decreases |order| - k
  {
    if k < |order| {
      assert order[k..][1..] == order[k + 1..];
      NotStartedFrom(order, started, failed, n, k + 1);
    }
  }

  /** When every failure is fatal, exactly a prefix of the order is started, and one service at most fails. */
  lemma FatalFailuresOnly(order: seq<string>, run: Run)
    requires NoDuplicates(order) && Partitions(order, run)
    requires forall i :: 0 <= i < |run.failures| ==> IsFatal(run.failures[i].1)
    ensures |run.failures| <= 1 && run.started == order[..|run.started|]
  {
    var n, failed := |run.started| + |run.failures|, Names(run.failures);
    if run.failures == [] {
      OnlyStarted(order[..n], run.started);
    } else {
      assert IsFatal(run.failures[0].1);
      assert failed == [order[n - 1]];
      assert order[..n] == order[..n - 1] + [order[n - 1]];
      LastFailed(order[..n - 1], order[n - 1], run.started);
    }
  }

  /**
   The loop goes on after an unexpected response, although its message for a rejected start says that
   dependent services cannot start: here `a` is started after its dependency `b` failed.
   */
  lemma StartsPastFailedDependency(patience: Patience)
    ensures
      var b := Service(Process("b", [], None), "net", map[], [], None);
      var a := Service(Process("a", [], None), "net", map[], ["b"], None);
      var c := Config("1.0", {"net"}, map["a" := a, "b" := b]);
      var run := Start(c, ["b", "a"], NewContext(map[]), [OtherResponse, Success], patience);
      run.Some? && run.value.started == ["a"] && run.value.failures == [("b", UnexpectedResponse)]
  {
    var b := Service(Process("b", [], None), "net", map[], [], None);
    var a := Service(Process("a", [], None), "net", map[], ["b"], None);
    var c := Config("1.0", {"net"}, map["a" := a, "b" := b]);
    var ctx, script := NewContext(map[]), [OtherResponse, Success];
    assert Converts(c, "b", ctx) && Converts(c, "a", ctx);
    assert ["b", "a"][1..] == ["a"] && script[1..] == [Success] && ["a"][1..] == [];
    StartNothing(c, Learn(ctx, "a", Success), [], patience);
    assert Start(c, ["a"], ctx, [Success], patience).value.started == ["a"] + [];
  }

  /** What comes before an element of a is earlier in a, or is in b. */
  lemma {:induction false} InterleavedBefore(whole: seq<string>, a: seq<string>, b: seq<string>, i: nat)
    returns (j: nat)
    requires Interleaves(whole, a, b) && i < |a|
    ensures j < |whole| && whole[j] == a[i] && forall x :: x in whole[..j] ==> x in a[..i] || x in b
    decreases |whole|
  {
    if a[0] == whole[0] && Interleaves(whole[1..], a[1..], b) {
      if i == 0 {
        j := 0;
      } else {
        var k := InterleavedBefore(whole[1..], a[1..], b, i - 1);
        j := k + 1;
        assert whole[..j] == [whole[0]] + whole[1..][..k] && a[..i] == [a[0]] + a[1..][..i - 1];
      }
    } else {
      var k := InterleavedBefore(whole[1..], a, b[1..], i);
      j := k + 1;
      assert whole[..j] == [b[0]] + whole[1..][..k];
    }
  }

  lemma {:induction false} InterleavedApart(whole: seq<string>, a: seq<string>, b: seq<string>)
    requires Interleaves(whole, a, b) && NoDuplicates(whole)
    ensures Elems(a) !! Elems(b)
    decreases |whole|
  {
    if whole == [] {
    } else {
      assert whole[0] !in whole[1..];
      if a != [] && a[0] == whole[0] && Interleaves(whole[1..], a[1..], b) {
        InterleavedApart(whole[1..], a[1..], b);
        InterleavingElements(whole[1..], a[1..], b);
        assert forall x :: x in a ==> x == a[0] || x in a[1..];
      } else {
        InterleavedApart(whole[1..], a, b[1..]);
        InterleavingElements(whole[1..], a, b[1..]);
        assert forall x :: x in b ==> x == b[0] || x in b[1..];
      }
    }
  }

  /** A failure that the loop passes over is not a dependency of a started service. */
  ghost predicate NoneMissed(g: Graph, run: Run) {
    forall k, s :: 0 <= k < |run.failures| && !IsFatal(run.failures[k].1) && s in run.started ==>
      run.failures[k].0 !in Succ(g, s)
  }

  /**
   Every started service came after all of its dependencies had started, exactly when none of them
   failed to convert or got an unexpected response: after any other failure nothing more is started.
   */
  lemma DependenciesStartedExactlyWhen(g: Graph, order: seq<string>, run: Run)
    requires NoDuplicates(order) && SuccessorsFirst(g, order) && Partitions(order, run)
    ensures SuccessorsFirst(g, run.started) <==> NoneMissed(g, run)
  {
    var failed := Names(run.failures);
    var whole := order[..|run.started| + |run.failures|];
    InterleavedApart(whole, run.started, failed);
    if SuccessorsFirst(g, run.started) {
      forall k, s | 0 <= k < |run.failures| && !IsFatal(run.failures[k].1) && s in run.started
        ensures run.failures[k].0 !in Succ(g, s)
      {
        var i :| 0 <= i < |run.started| && run.started[i] == s;
        assert failed[k] in Elems(failed);
      }
    }
    if NoneMissed(g, run) {
      forall i | 0 <= i < |run.started|
        ensures Succ(g, run.started[i]) <= Elems(run.started[..i])
      {
        StartedAfterDependencies(g, order, run, i);
      }
    }
  }

  /** Before the run: does no started service have a dependency that the loop passes over? */
  ghost predicate Guarded(c: Config, order: seq<string>, ctx: Context, script: seq<Reply>, missed: set<string>,
                          patience: Patience)
    decreases |order|
  {
    order == [] ||
    var name, rest, later := order[0], order[1..], Later(script);
    if !Converts(c, name, ctx) then Guarded(c, rest, ctx, script, missed + {name}, patience)
    else
      var reply := First(script, ConnectionFailed);
      match reply
      case Error => true
      case ConnectionFailed => true
      case _ =>
        if Starts(reply) then
          Succ(DependencyGraph(c), name) !! missed
          && Guarded(c, rest, Learn(ctx, name, reply), AfterStart(c, name, script, patience), missed, patience)
        else Guarded(c, rest, ctx, later, missed + {name}, patience)
  }

  /** No service depends on itself or on a later one. */
  ghost predicate NoneLater(g: Graph, order: seq<string>) {
    forall i, j :: 0 <= i <= j < |order| ==> order[j] !in Succ(g, order[i])
  }

  lemma OrdersLookBack(g: Graph, order: seq<string>)
    requires NoDuplicates(order) && SuccessorsFirst(g, order)
    ensures NoneLater(g, order)
  {
    forall i, j | 0 <= i <= j < |order|
      ensures order[j] !in Succ(g, order[i])
    {
      assert order[j] !in order[..i];
    }
  }

  ghost predicate Avoids(g: Graph, started: seq<string>, missed: set<string>) {
    forall s :: s in started ==> Succ(g, s) !! missed
  }

  lemma PassedOver(g: Graph, rest: Run, requests: seq<Request>, name: string, reason: Reason, missed: set<string>)
    requires !IsFatal(reason)
    ensures var run := WithFailure(requests, (name, reason), Some(rest)).value;
      NoneMissed(g, run) && Avoids(g, run.started, missed) <==>
          NoneMissed(g, rest) && Avoids(g, rest.started, missed + {name})
  {
    var run := WithFailure(requests, (name, reason), Some(rest)).value;
    assert run.failures[0] == (name, reason);
    assert forall k :: 0 <= k < |rest.failures| ==> run.failures[k + 1] == rest.failures[k];
    if NoneMissed(g, run) && Avoids(g, run.started, missed) {
      forall s | s in rest.started
        ensures Succ(g, s) !! missed + {name}
      {
        assert run.failures[0].0 !in Succ(g, s);
      }
    }
  }

  lemma StartedGuarded(g: Graph, rest: Run, requests: seq<Request>, name: string, missed: set<string>)
    requires forall k :: 0 <= k < |rest.failures| ==> rest.failures[k].0 !in Succ(g, name)
    ensures var run := WithStarted(requests, name, Some(rest)).value;
      NoneMissed(g, run) && Avoids(g, run.started, missed)
      <==> Succ(g, name) !! missed && NoneMissed(g, rest) && Avoids(g, rest.started, missed)
  {
    var run := WithStarted(requests, name, Some(rest)).value;
    assert run.failures == rest.failures && run.started[0] == name;
    assert forall s :: s in run.started <==> s == name || s in rest.started;
  }

  /** Only services of the order fail. */
  lemma FailuresAreOrdered(order: seq<string>, run: Run, k: nat)
    requires Partitions(order, run) && k < |run.failures|
    ensures run.failures[k].0 in order
  {
    var whole, failed := order[..|run.started| + |run.failures|], Names(run.failures);
    InterleavingElements(whole, run.started, failed);
    assert failed[k] in failed && failed[k] in whole;
  }

  lemma {:induction false} GuardedIsNoneMissed(c: Config, order: seq<string>, ctx: Context, script: seq<Reply>,
                                               missed: set<string>, patience: Patience)
    requires Start(c, order, ctx, script, patience).Some? && NoneLater(DependencyGraph(c), order)
    ensures var g, run := DependencyGraph(c), Start(c, order, ctx, script, patience).value;
      Guarded(c, order, ctx, script, missed, patience) <==> NoneMissed(g, run) && Avoids(g, run.started, missed)
    decreases |order|
  {
    hide Converts, Conversion, Learn, NoneMissed, Avoids, Partitions, AfterStart, StartRequests, Starts;
    var g := DependencyGraph(c);
    if order == [] {
      NothingMissed(g, missed);
    } else {
      var name, rest, later, reply := order[0], order[1..], Later(script), First(script, ConnectionFailed);
      assert NoneLater(g, rest);
      if !Converts(c, name, ctx) {
        GuardedIsNoneMissed(c, rest, ctx, script, missed + {name}, patience);
        PassedOver(g, Start(c, rest, ctx, script, patience).value, [], name, NotConverted, missed);
      } else {
        var request := StartService(name, Conversion(c, name, ctx));
        match reply {
          case Error => FatalMissesNothing(g, [request], (name, Rejected), rest, missed);
          case ConnectionFailed => FatalMissesNothing(g, [request], (name, NoReply), rest, missed);
          case _ =>
            if Starts(reply) {
              var next, behind := Learn(ctx, name, reply), AfterStart(c, name, script, patience);
              GuardedIsNoneMissed(c, rest, next, behind, missed, patience);
              LaterFailures(c, order, next, behind, patience);
              StartedGuarded(g, Start(c, rest, next, behind, patience).value,
                  StartRequests(c, request, script, patience), name, missed);
            } else {
              GuardedIsNoneMissed(c, rest, ctx, later, missed + {name}, patience);
              PassedOver(g, Start(c, rest, ctx, later, patience).value, [request], name, UnexpectedResponse, missed);
            }
        }
      }
    }
  }

  lemma NothingMissed(g: Graph, missed: set<string>)
    ensures NoneMissed(g, Run([], [], [], [])) && Avoids(g, [], missed)
  {
  }

  lemma FatalMissesNothing(g: Graph, requests: seq<Request>, failure: (string, Reason), rest: seq<string>,
                           missed: set<string>)
    ensures NoneMissed(g, Run(requests, [], [failure], rest)) && Avoids(g, [], missed)
  {
  }

  lemma LaterFailures(c: Config, order: seq<string>, ctx: Context, script: seq<Reply>, patience: Patience)
    requires order != [] && NoneLater(DependencyGraph(c), order) && Start(c, order[1..], ctx, script, patience).Some?
    ensures var run := Start(c, order[1..], ctx, script, patience).value;
      forall k :: 0 <= k < |run.failures| ==> run.failures[k].0 !in Succ(DependencyGraph(c), order[0])
  {
    hide Start, Partitions;
    var run := Start(c, order[1..], ctx, script, patience).value;
    RunPartitions(c, order[1..], ctx, script, patience);
    forall k | 0 <= k < |run.failures|
      ensures run.failures[k].0 !in Succ(DependencyGraph(c), order[0])
    {
      FailuresAreOrdered(order[1..], run, k);
      var j :| 0 <= j < |order[1..]| && order[1..][j] == run.failures[k].0;
      assert order[j + 1] == run.failures[k].0;
    }
  }

  /**
   Every started service comes after all of its dependencies have started, exactly when no service that
   the daemon will start depends on one that fails to convert or gets an unexpected response.
   */
  lemma StartsAreGuardedExactlyWhen(c: Config, order: seq<string>, ctx: Context, script: seq<Reply>, patience: Patience)
    requires NoDuplicates(order) && SuccessorsFirst(DependencyGraph(c), order)
             && Start(c, order, ctx, script, patience).Some?
    ensures SuccessorsFirst(DependencyGraph(c), Start(c, order, ctx, script, patience).value.started) <==>
            Guarded(c, order, ctx, script, {}, patience)
  {
    hide Start, Guarded, NoneMissed, Partitions;
    var g, run := DependencyGraph(c), Start(c, order, ctx, script, patience).value;
    OrdersLookBack(g, order);
    RunPartitions(c, order, ctx, script, patience);
    DependenciesStartedExactlyWhen(g, order, run);
    GuardedIsNoneMissed(c, order, ctx, script, {}, patience);
    assert Avoids(g, run.started, {});
  }

  lemma StartedAfterDependencies(g: Graph, order: seq<string>, run: Run, i: nat)
    requires NoDuplicates(order) && SuccessorsFirst(g, order) && Partitions(order, run) && NoneMissed(g, run)
    requires i < |run.started|
    ensures Succ(g, run.started[i]) <= Elems(run.started[..i])
  {
    hide Interleaves, NoneMissed;
    var n, failed := |run.started| + |run.failures|, Names(run.failures);
    var j := InterleavedBefore(order[..n], run.started, failed, i);
    assert order[..n][..j] == order[..j];
    forall d | d in Succ(g, run.started[i])
      ensures d in Elems(run.started[..i])
    {
      assert d in order[..j];
      if d in failed {
        var k :| 0 <= k < |failed| && failed[k] == d;
        assert run.failures[k].0 == d;
        FailedBeforeIsPassed(order, run, j, k);
        MissedContradicts(g, run, k, run.started[i]);
      }
    }
  }

  lemma MissedContradicts(g: Graph, run: Run, k: nat, s: string)
    requires NoneMissed(g, run) && k < |run.failures| && !IsFatal(run.failures[k].1) && s in run.started
    ensures run.failures[k].0 !in Succ(g, s)
  {
  }

  /** A failure before another attempt was not fatal. */
  lemma FailedBeforeIsPassed(order: seq<string>, run: Run, j: nat, k: nat)
    requires NoDuplicates(order) && Partitions(order, run) && k < |run.failures|
    requires j < |run.started| + |run.failures| && run.failures[k].0 in order[..j]
    ensures !IsFatal(run.failures[k].1)
  {
    hide Interleaves;
    var n := |run.started| + |run.failures|;
    var i :| 0 <= i < j && order[i] == run.failures[k].0;
    assert order[i] != order[n - 1];
  }

  lemma {:induction false} OnlyStarted(whole: seq<string>, a: seq<string>)
    requires Interleaves(whole, a, [])
    ensures a == whole
    decreases |whole|
  {
    if whole == [] {
    } else {
      OnlyStarted(whole[1..], a[1..]);
    }
  }

  lemma {:induction false} LastFailed(whole: seq<string>, last: string, a: seq<string>)
    requires Interleaves(whole + [last], a, [last]) && |a| == |whole| && last !in whole
    ensures a == whole
    decreases |whole|
  {
    var all := whole + [last];
    if whole == [] {
    } else {
      assert all[1..] == whole[1..] + [last] && all[0] == whole[0];
      assert a[0] == all[0] && Interleaves(all[1..], a[1..], [last]);
      LastFailed(whole[1..], last, a[1..]);
    }
  }

  // ----- The results, read off the requests and the replies -----

  /** The services whose start request was answered, in turn, by a start. */
  function StartedBy(requests: seq<Request>, script: seq<Reply>): seq<string> {
    if requests == [] then []
    else
      (match (requests[0], First(script, ConnectionFailed))
       case (StartService(name, _), ServiceStarted(_, _, _)) => [name]
       case (StartService(name, _), Success) => [name]
       case _ => []) + StartedBy(requests[1..], Later(script))
  }

  /** The services whose start request was answered otherwise, each with the reason of the reply. */
  function NotStartedBy(requests: seq<Request>, script: seq<Reply>): seq<(string, Reason)> {
    if requests == [] then []
    else
      (match (requests[0], First(script, ConnectionFailed))
       case (StartService(name, _), Error) => [(name, Rejected)]
       case (StartService(name, _), ConnectionFailed) => [(name, NoReply)]
       case (StartService(name, _), ServiceStatus(_)) => [(name, UnexpectedResponse)]
       case (StartService(name, _), OtherResponse) => [(name, UnexpectedResponse)]
       case _ => []) + NotStartedBy(requests[1..], Later(script))
  }

  /** The failures other than in conversion. */
  function Answered(failures: seq<(string, Reason)>): seq<(string, Reason)> {
    if failures == [] then []
    else (if failures[0].1.NotConverted? then [] else [failures[0]]) + Answered(failures[1..])
  }

  predicate ResultsAreReplies(run: Run, script: seq<Reply>) {
    run.started == StartedBy(run.requests, script) && Answered(run.failures) == NotStartedBy(run.requests, script)
  }

  lemma {:induction false} StatusIsNoResult(name: string, n: nat, more: seq<Request>, script: seq<Reply>)
    ensures StartedBy(StatusRequests(name, n) + more, script) == StartedBy(more, Drop(script, n))
    ensures NotStartedBy(StatusRequests(name, n) + more, script) == NotStartedBy(more, Drop(script, n))
    decreases n
  {
    var requests := StatusRequests(name, n) + more;
    if n == 0 {
      assert requests == more;
    } else {
      StatusIsNoResult(name, n - 1, more, Later(script));
      assert requests[1..] == StatusRequests(name, n - 1) + more && requests[0] == GetServiceStatus(name);
    }
  }

  lemma FirstResult(request: Request, more: seq<Request>, script: seq<Reply>)
    requires request.StartService?
    ensures var reply, later, name := First(script, ConnectionFailed), Later(script), request.name;
      && StartedBy([request] + more, script) == (if Starts(reply) then [name] else []) + StartedBy(more, later)
      && NotStartedBy([request] + more, script) ==
         (if Starts(reply) then [] else [(name, ReasonOf(reply))]) + NotStartedBy(more, later)
  {
    assert ([request] + more)[1..] == more;
  }

  lemma StartedResults(c: Config, request: Request, run: Run, script: seq<Reply>, patience: Patience)
    requires request.StartService? && Starts(First(script, ConnectionFailed))
    requires ResultsAreReplies(run, AfterStart(c, request.name, script, patience))
    ensures ResultsAreReplies(WithStarted(StartRequests(c, request, script, patience), request.name, Some(run)).value,
                              script)
  {
    hide StatusRequests, Waits, Answered, StartedBy, NotStartedBy, Starts;
    var n := Waits(c, request.name, Later(script), patience);
    var more := StatusRequests(request.name, n) + run.requests;
    StatusIsNoResult(request.name, n, run.requests, Later(script));
    FirstResult(request, more, script);
    assert [request] + StatusRequests(request.name, n) + run.requests == [request] + more;
    assert [] + NotStartedBy(more, Later(script)) == NotStartedBy(more, Later(script));
  }

  lemma AnsweredOneMore(name: string, reason: Reason, failures: seq<(string, Reason)>)
    ensures Answered([(name, reason)] + failures) ==
            (if reason.NotConverted? then [] else [(name, reason)]) + Answered(failures)
  {
    assert ([(name, reason)] + failures)[1..] == failures;
  }

  /** The reason for which a start was not answered by a start. */
  function ReasonOf(reply: Reply): Reason {
    match reply
    case Error => Rejected
    case ConnectionFailed => NoReply
    case _ => UnexpectedResponse
  }

  lemma FailedResults(request: Request, run: Run, script: seq<Reply>)
    requires request.StartService? && !Starts(First(script, ConnectionFailed))
    requires ResultsAreReplies(run, Later(script))
    ensures var failure := (request.name, ReasonOf(First(script, ConnectionFailed)));
      ResultsAreReplies(WithFailure([request], failure, Some(run)).value, script)
  {
    hide Answered, StartedBy, NotStartedBy, Starts;
    AnsweredOneMore(request.name, ReasonOf(First(script, ConnectionFailed)), run.failures);
    FirstResult(request, run.requests, script);
    assert [] + StartedBy(run.requests, Later(script)) == StartedBy(run.requests, Later(script));
  }

  lemma RefusedResults(request: Request, script: seq<Reply>, rest: seq<string>)
    requires request.StartService? && !Starts(First(script, ConnectionFailed))
    ensures ResultsAreReplies(Run([request], [], [(request.name, ReasonOf(First(script, ConnectionFailed)))], rest),
                              script)
  {
    FailedResults(request, Run([], [], [], rest), script);
    assert [request] + [] == [request];
    var failure := (request.name, ReasonOf(First(script, ConnectionFailed)));
    assert [failure] + [] == [failure];
  }

  lemma UnansweredResults(name: string, run: Run, script: seq<Reply>)
    requires ResultsAreReplies(run, script)
    ensures ResultsAreReplies(WithFailure([], (name, NotConverted), Some(run)).value, script)
  {
    hide Answered;
    AnsweredOneMore(name, NotConverted, run.failures);
    assert [] + run.requests == run.requests && [] + Answered(run.failures) == Answered(run.failures);
  }

  /**
   The services reported started are those whose start request got ServiceStarted or Success as its reply, and
   each other request is a failure with the reason of its reply.
   */
  lemma {:induction false} StartsAreReplies(c: Config, order: seq<string>, ctx: Context, script: seq<Reply>,
                                            patience: Patience)
    requires Start(c, order, ctx, script, patience).Some?
    ensures ResultsAreReplies(Start(c, order, ctx, script, patience).value, script)
    decreases |order|
  {
    hide Converts, Conversion, Learn, AfterStart, StartRequests, ResultsAreReplies;
    if order == [] {
      NoResults(script);
    } else {
      var name, rest, later := order[0], order[1..], Later(script);
      if !Converts(c, name, ctx) {
        StartsAreReplies(c, rest, ctx, script, patience);
        UnansweredResults(name, Start(c, rest, ctx, script, patience).value, script);
      } else {
        var request, reply := StartService(name, Conversion(c, name, ctx)), First(script, ConnectionFailed);
        if reply.Error? || reply.ConnectionFailed? {
          RefusedResults(request, script, rest);
        } else if Starts(reply) {
          var next, behind := Learn(ctx, name, reply), AfterStart(c, name, script, patience);
          StartsAreReplies(c, rest, next, behind, patience);
          StartedResults(c, request, Start(c, rest, next, behind, patience).value, script, patience);
        } else {
          StartsAreReplies(c, rest, ctx, later, patience);
          FailedResults(request, Start(c, rest, ctx, later, patience).value, script);
        }
      }
    }
  }

  lemma NoResults(script: seq<Reply>)
    ensures ResultsAreReplies(Run([], [], [], []), script)
  {
  }

  /** Services are left over only behind a request that the daemon rejects or does not answer, and always then. */
  lemma EndsAtRefusal(c: Config, order: seq<string>, ctx: Context, script: seq<Reply>, patience: Patience)
    requires Start(c, order, ctx, script, patience).Some?
    ensures var run := Start(c, order, ctx, script, patience).value;
      var last := |run.failures| - 1;
      && |run.started| + |run.failures| <= |order|
      && (run.notStarted != [] ==> last >= 0 && run.failures[last].1 in {Rejected, NoReply})
      && (forall i :: 0 <= i <= last && run.failures[i].1 in {Rejected, NoReply} ==>
            i == last && order == order[..|run.started| + last] + [run.failures[last].0] + run.notStarted)
  {
    hide Start, Interleaves;
    RunPartitions(c, order, ctx, script, patience);
    var run := Start(c, order, ctx, script, patience).value;
    var n := |run.started| + |run.failures|;
    assert n > 0 ==> order == order[..n - 1] + [order[n - 1]] + order[n..];
  }

  /**
   Each start of a service with a health check is followed by its status requests, as long as the replies keep
   it waiting within its timeout; nothing else is followed by a status request.
   */
  predicate WaitsFollow(c: Config, requests: seq<Request>, script: seq<Reply>, patience: Patience)
    decreases |requests|
  {
    requests == [] ||
    match requests[0]
    case GetServiceStatus(_) => false
    case StartService(name, _) =>
      var reply, later := First(script, ConnectionFailed), Later(script);
      var n := if (reply.ServiceStarted? || reply.Success?) && name in c.services
                  && c.services[name].healthCheck.Some?
               then Polls(later, ConnectionFailed, KeepsWaiting, patience(name)) else 0;
      && n < |requests| && requests[1..n + 1] == StatusRequests(name, n)
      && WaitsFollow(c, requests[n + 1..], Drop(later, n), patience)
  }

  lemma WaitsOneMore(c: Config, request: Request, rest: seq<Request>, script: seq<Reply>, patience: Patience)
    requires request.StartService? && Starts(First(script, ConnectionFailed))
    requires WaitsFollow(c, rest, AfterStart(c, request.name, script, patience), patience)
    ensures WaitsFollow(c, StartRequests(c, request, script, patience) + rest, script, patience)
  {
    hide StatusRequests;
    var n := Waits(c, request.name, Later(script), patience);
    var status := StatusRequests(request.name, n);
    var requests := StartRequests(c, request, script, patience) + rest;
    assert requests == [request] + status + rest && requests[1..n + 1] == status && requests[n + 1..] == rest;
  }

  lemma NoWaitOneMore(c: Config, request: Request, rest: seq<Request>, script: seq<Reply>, patience: Patience)
    requires request.StartService? && !Starts(First(script, ConnectionFailed))
    requires WaitsFollow(c, rest, Later(script), patience)
    ensures WaitsFollow(c, [request] + rest, script, patience)
  {
    NoStatusRequests(request.name);
    var requests := [request] + rest;
    assert requests[1..] == rest && requests[1..0 + 1] == [];
  }

  lemma {:induction false} StartsAwait(c: Config, order: seq<string>, ctx: Context, script: seq<Reply>,
                                       patience: Patience)
    requires Start(c, order, ctx, script, patience).Some?
    ensures WaitsFollow(c, Start(c, order, ctx, script, patience).value.requests, script, patience)
    decreases |order|
  {
    hide Converts, Conversion, Learn, AfterStart, StartRequests, WaitsFollow;
    if order == [] {
      NothingWaits(c, script, patience);
    } else {
      var name, rest, later := order[0], order[1..], Later(script);
      if !Converts(c, name, ctx) {
        StartsAwait(c, rest, ctx, script, patience);
        assert forall requests: seq<Request> :: [] + requests == requests;
      } else {
        var request, reply := StartService(name, Conversion(c, name, ctx)), First(script, ConnectionFailed);
        NothingWaits(c, later, patience);
        if reply.Error? || reply.ConnectionFailed? {
          NoWaitOneMore(c, request, [], script, patience);
          assert [request] + [] == [request];
        } else if Starts(reply) {
          var next, behind := Learn(ctx, name, reply), AfterStart(c, name, script, patience);
          StartsAwait(c, rest, next, behind, patience);
          WaitsOneMore(c, request, Start(c, rest, next, behind, patience).value.requests, script, patience);
        } else {
          StartsAwait(c, rest, ctx, later, patience);
          NoWaitOneMore(c, request, Start(c, rest, ctx, later, patience).value.requests, script, patience);
        }
      }
    }
  }

  lemma NothingWaits(c: Config, script: seq<Reply>, patience: Patience)
    ensures WaitsFollow(c, [], script, patience)
  {
  }

  // ----- When everything starts -----

  /**
   Every value parses; its environment variables are set or defaulted; its service references name
   services that the referring service transitively depends on.
   */
  ghost predicate Ready(c: Config, processEnv: map<string, string>) {
    forall s, k, f :: s in c.services && k in c.services[s].env && f in Variables(c.services[s].env[k], 0)
      ==> f.Ok? && IsAvailable(c, s, f.value.variable, processEnv)
  }

  ghost predicate IsAvailable(c: Config, s: string, v: Variable, processEnv: map<string, string>) {
    match v
    case EnvVar(name, default) => name in processEnv || default.Some?
    case ServiceRef(t, property) => exists d :: d in Succ(DependencyGraph(c), s) && Reaches(DependencyGraph(c), d, t)
  }

  /** Some value refers to the port of the service. */
  ghost predicate PortUsed(c: Config, name: string) {
    exists f: Finding :: Mentions(c, f) && f.Ok? && f.value.variable == ServiceRef(name, "port")
  }

  predicate GoodReply(reply: Reply, portUsed: bool) {
    reply.ServiceStarted? && (portUsed ==> reply.port.Some?)
  }

  /** The daemon answers each start with ServiceStarted, with a port where the port is used. */
  ghost predicate GoodReplies(c: Config, order: seq<string>, script: seq<Reply>, patience: Patience)
    decreases |order|
  {
    order == [] ||
    (script != [] && GoodReply(script[0], PortUsed(c, order[0]))
     && GoodReplies(c, order[1..], AfterStart(c, order[0], script, patience), patience))
  }

  /** The context knows the process environment and the services started so far. */
  ghost predicate Knows(c: Config, processEnv: map<string, string>, started: seq<string>, ctx: Context) {
    && ctx.envVars == processEnv
    && forall s :: s in started ==>
       s in ctx.serviceIps && s in ctx.serviceHosts && (PortUsed(c, s) ==> s in ctx.servicePorts)
  }

  /** When its dependencies have started, a service converts. */
  lemma ConvertsAfterDependencies(c: Config, processEnv: map<string, string>, order: seq<string>, i: nat, ctx: Context)
    requires Ready(c, processEnv) && i < |order| && order[i] in c.services
    requires SuccessorsFirst(DependencyGraph(c), order)
    requires Knows(c, processEnv, order[..i], ctx)
    ensures Converts(c, order[i], ctx)
  {
    hide Variables, Resolved;
    var env := c.services[order[i]].env;
    forall k | k in env
      ensures Resolved(env[k], ctx).Ok?
    {
      forall j | 0 <= j < |Variables(env[k], 0)|
        ensures Variables(env[k], 0)[j].Ok? && ValueOf(Variables(env[k], 0)[j].value.variable, ctx).Some?
      {
        var f := Variables(env[k], 0)[j];
        assert f in Variables(env[k], 0) && Mentions(c, f);
        MentionsAreWellFormed(c, f);
        HasValue(c, processEnv, order, i, ctx, f);
      }
      ResolvesExactlyWhen(env[k], ctx);
    }
  }

  lemma HasValue(c: Config, processEnv: map<string, string>, order: seq<string>, i: nat, ctx: Context, f: Finding)
    requires i < |order| && SuccessorsFirst(DependencyGraph(c), order) && Knows(c, processEnv, order[..i], ctx)
    requires Mentions(c, f) && f.Ok? && WellFormed(f.value.variable)
             && IsAvailable(c, order[i], f.value.variable, processEnv)
    ensures ValueOf(f.value.variable, ctx).Some?
  {
    hide Variables, Mentions;
    var v := f.value.variable;
    if v.ServiceRef? {
      var g := DependencyGraph(c);
      var d :| d in Succ(g, order[i]) && Reaches(g, d, v.service);
      StartedBefore(g, order, i, d, v.service);
      assert v.property == "port" ==> v == ServiceRef(v.service, "port");
      assert v.property == "port" ==> PortUsed(c, v.service);
    }
  }

  /** What a service transitively depends on comes before it. */
  lemma StartedBefore(g: Graph, order: seq<string>, i: nat, d: string, t: string)
    requires SuccessorsFirst(g, order) && i < |order| && d in Succ(g, order[i]) && Reaches(g, d, t)
    ensures t in order[..i]
  {
    var p :| PathBetween(g, p, d, t);
    var q := [order[i]] + p;
    forall k | 0 <= k < |q| - 1
      ensures q[k + 1] in Succ(g, q[k])
    {
      if k > 0 {
        assert p[(k - 1) + 1] in Succ(g, p[k - 1]);
      }
    }
    PathsDescend(g, order, q, i);
    var j :| 0 <= j < i && order[j] == q[|q| - 1];
    assert order[..i][j] == t;
  }

  /** With good replies, the rest of a start run starts every service of the order. */
  lemma {:induction false} StartsEverything(c: Config, processEnv: map<string, string>, order: seq<string>, i: nat,
                                            ctx: Context, script: seq<Reply>, patience: Patience)
    requires SuccessorsFirst(DependencyGraph(c), order) && i <= |order|
    requires Knows(c, processEnv, order[..i], ctx)
    ensures Start(c, order[i..], ctx, script, patience).Some? && Ready(c, processEnv)
            && GoodReplies(c, order[i..], script, patience) ==>
              var run := Start(c, order[i..], ctx, script, patience).value;
              run.started == order[i..] && run.failures == [] && run.notStarted == []
    decreases |order| - i
  {
    hide Converts, Conversion, Ready, SuccessorsFirst, PortUsed, AfterStart, StartRequests;
    if i < |order| && Start(c, order[i..], ctx, script, patience).Some? && Ready(c, processEnv)
       && GoodReplies(c, order[i..], script, patience) {
      var name, rest, later := order[i], order[i + 1..], AfterStart(c, order[i], script, patience);
      assert order[i..][0] == name && order[i..][1..] == rest;
      ConvertsAfterDependencies(c, processEnv, order, i, ctx);
      var next := Learn(ctx, name, script[0]);
      assert order[..i + 1] == order[..i] + [name];
      StartsEverything(c, processEnv, order, i + 1, next, later, patience);
    }
  }

  lemma SentAndWaited(sent: seq<Request>, request: Request, now: seq<Request>)
    ensures forall more :: now == sent + [request] + more ==> now == sent + ([request] + more)
    ensures now == sent + [request] ==> now == sent + ([request] + StatusRequests(request.name, 0))
  {
    NoStatusRequests(request.name);
  }

  // ----- What dependents are told -----

  /** After a start the references to the service resolve to what the daemon reported, or to the local host. */
  lemma StartedServiceResolves(ctx: Context, name: string, reply: Reply)
    requires IsServiceName(name) && Starts(reply)
    ensures var after := Learn(ctx, name, reply);
      && (reply.ServiceStarted? ==>
            && Resolved("${" + name + "." + "ip" + "}", after) == Ok(reply.ip)
            && Resolved("${" + name + "." + "host" + "}", after) == Ok(reply.hostname)
            && (reply.port.Some? ==>
                  Resolved("${" + name + "." + "port" + "}", after).Ok?
                  && ReadDecimal(Resolved("${" + name + "." + "port" + "}", after).value) == reply.port.value))
      && (reply.Success? ==>
            && Resolved("${" + name + "." + "ip" + "}", after) == Ok("127.0.0.1")
            && Resolved("${" + name + "." + "host" + "}", after) == Ok(name + ".local"))
  {
    hide Resolved, Decimal, ReadDecimal;
    match reply
    case ServiceStarted(ip, port, hostname) => AddedServiceResolves(ctx, name, ip, port, hostname);
    case Success => AddedServiceResolves(ctx, name, "127.0.0.1", None, name + ".local");
    case _ =>
  }

  /**
   If the request starts a service with the text as a variable, it carries the value, where it carries
   variables at all.
   */
  ghost predicate CarriesValue(c: Config, request: Request, text: string, value: string) {
    request.StartService? && request.name in c.services ==>
      forall k :: k in c.services[request.name].env && c.services[request.name].env[k] == text
                  && EnvOf(request.config.target).Some? ==>
        k in EnvOf(request.config.target).value && EnvOf(request.config.target).value[k] == value
  }

  ghost predicate AllCarry(c: Config, requests: seq<Request>, text: string, value: string) {
    forall r :: r in requests ==> CarriesValue(c, r, text, value)
  }

  lemma ConversionCarries(c: Config, name: string, ctx: Context, text: string, value: string)
    requires Converts(c, name, ctx) && Resolved(text, ctx) == Ok(value)
    ensures CarriesValue(c, StartService(name, Conversion(c, name, ctx)), text, value)
  {
    hide Resolved;
  }

  lemma StatusCarries(c: Config, name: string, n: nat, text: string, value: string)
    ensures AllCarry(c, StatusRequests(name, n), text, value)
  {
  }

  lemma ReferenceIsKept(ctx: Context, s: string, property: string, name: string, reply: Reply)
    requires IsServiceName(s) && IsProperty(property) && s != name
    ensures Resolved("${" + s + "." + property + "}", Learn(ctx, name, reply)) ==
            Resolved("${" + s + "." + property + "}", ctx)
  {
    hide Resolved;
    match reply
    case ServiceStarted(ip, port, hostname) => OtherReferenceUnaffected(ctx, s, property, name, ip, port, hostname);
    case Success => OtherReferenceUnaffected(ctx, s, property, name, "127.0.0.1", None, name + ".local");
    case _ =>
  }

  /** While s is not started again, every request carries what the reference to it resolves to. */
  lemma {:induction false} RequestsCarry(c: Config, order: seq<string>, ctx: Context, script: seq<Reply>, s: string,
                                         property: string, value: string, patience: Patience)
    requires Start(c, order, ctx, script, patience).Some? && s !in order && IsServiceName(s) && IsProperty(property)
    requires Resolved("${" + s + "." + property + "}", ctx) == Ok(value)
    ensures AllCarry(c, Start(c, order, ctx, script, patience).value.requests, "${" + s + "." + property + "}", value)
    decreases |order|
  {
    hide Converts, Conversion, Learn, AfterStart, Starts, Resolved, CarriesValue, Waits, StatusRequests;
    if order == [] {
    } else {
      var name, rest, later, text := order[0], order[1..], Later(script), "${" + s + "." + property + "}";
      if !Converts(c, name, ctx) {
        RequestsCarry(c, rest, ctx, script, s, property, value, patience);
      } else {
        var request, reply := StartService(name, Conversion(c, name, ctx)), First(script, ConnectionFailed);
        ConversionCarries(c, name, ctx, text, value);
        match reply {
          case Error =>
          case ConnectionFailed =>
          case _ =>
            if Starts(reply) {
              ReferenceIsKept(ctx, s, property, name, reply);
              StatusCarries(c, name, Waits(c, name, later, patience), text, value);
              RequestsCarry(c, rest, Learn(ctx, name, reply), AfterStart(c, name, script, patience), s, property, value,
                            patience);
            } else {
              RequestsCarry(c, rest, ctx, later, s, property, value, patience);
            }
        }
      }
    }
  }

  /**
   Once the daemon has reported a service's address, every later start request whose variable refers to it
   carries that address and host. Every part of a run is again a run, so this holds of each service started.
   */
  lemma DependentsAreTold(c: Config, order: seq<string>, ctx: Context, script: seq<Reply>, patience: Patience)
    requires Start(c, order, ctx, script, patience).Some? && order != [] && order[0] !in order[1..]
    requires IsServiceName(order[0]) && Converts(c, order[0], ctx) && First(script, ConnectionFailed).ServiceStarted?
    ensures var s, reply := order[0], First(script, ConnectionFailed);
      var run := Start(c, order[1..], Learn(ctx, s, reply), AfterStart(c, s, script, patience), patience);
      && run.Some? && AllCarry(c, run.value.requests, "${" + s + "." + "ip" + "}", reply.ip)
      && AllCarry(c, run.value.requests, "${" + s + "." + "host" + "}", reply.hostname)
      && run.value.requests <= Start(c, order, ctx, script, patience).value.requests[
           |Start(c, order, ctx, script, patience).value.requests| - |run.value.requests|..]
  {
    hide Converts, Conversion, Learn, AfterStart, Resolved, CarriesValue, AllCarry, StartRequests;
    var s, reply := order[0], First(script, ConnectionFailed);
    StartedServiceResolves(ctx, s, reply);
    RequestsCarry(c, order[1..], Learn(ctx, s, reply), AfterStart(c, s, script, patience), s, "ip", reply.ip, patience);
    RequestsCarry(c, order[1..], Learn(ctx, s, reply), AfterStart(c, s, script, patience), s, "host", reply.hostname,
                  patience);
  }

  /** The start loop and the summary of what was not started. */
  method StartServices(c: Config, order: seq<string>, context: Context, daemon: Daemon<Request, Reply>,
                       patience: Patience)
    returns (r: Result<Run, StartError>)
    requires daemon.requests == [] && daemon.closed == ConnectionFailed && NoDuplicates(order)
    modifies daemon
    ensures r.Ok? ==>
            Start(c, order, context, old(daemon.replies), patience) == Some(r.value)
                && daemon.requests == r.value.requests
    ensures r.Err? ==> r.error.NotConfigured? && r.error.name in order && r.error.name !in c.services
    ensures r.Ok? <==> Start(c, order, context, old(daemon.replies), patience).Some?
  {
    hide Converts, IsConversion, Start, Partitions, Interleaves, NoDuplicates;
    var failures: seq<(string, Reason)>, startedServices: seq<string> := [], [];
    var ctx := context;
    ghost var whole, rest := Start(c, order, ctx, daemon.replies, patience), [];
    assert order[0..] == order;
    AfterNothing(whole);
    for i := 0 to |order|
      invariant whole ==
                After(daemon.requests, startedServices, failures, Start(c, order[i..], ctx, daemon.replies, patience))
      invariant rest == []
    {
      var name := order[i];
      StartStep(c, order[i..], ctx, daemon.replies, daemon.requests, startedServices, failures, patience);
      assert order[i..][0] == name && order[i..][1..] == order[i + 1..];
      if name !in c.services {
        return Err(NotConfigured(name));
      }
      var converted := ConvertToOrchestrator(c, name, ctx);
      if converted.Err? {
        failures := failures + [(name, NotConverted)];
        continue;
      }
      ConversionIs(c, name, ctx, converted.value);
      ghost var sent := daemon.requests;
      var reply := daemon.Send(StartService(name, converted.value));
      match reply {
        case ServiceStarted(ip, port, hostname) =>
          startedServices := startedServices + [name];
          ctx := AddService(ctx, name, ip, port, hostname);
          if c.services[name].healthCheck.Some? {
            WaitForHealth(name, patience(name), daemon);
          }
          SentAndWaited(sent, StartService(name, converted.value), daemon.requests);
        case Success =>
          startedServices := startedServices + [name];
          ctx := AddService(ctx, name, "127.0.0.1", None, name + ".local");
          if c.services[name].healthCheck.Some? {
            WaitForHealth(name, patience(name), daemon);
          }
          SentAndWaited(sent, StartService(name, converted.value), daemon.requests);
        case Error =>
          failures := failures + [(name, Rejected)];
          rest := order[i + 1..];
          break;
        case ConnectionFailed =>
          failures := failures + [(name, NoReply)];
          rest := order[i + 1..];
          break;
        case _ =>
          failures := failures + [(name, UnexpectedResponse)];
      }
    }
    assert whole == Some(Run(daemon.requests, startedServices, failures, rest)) by {
      StartNothing(c, ctx, daemon.replies, patience);
      assert order[|order|..] == [];
      assert daemon.requests + [] == daemon.requests && startedServices + [] == startedServices
             && failures + [] == failures;
    }
    RunPartitions(c, order, context, old(daemon.replies), patience);
    NotStartedIsRest(order, whole.value);
    var notStarted := NotStarted(order, startedServices, Names(failures));
    return Ok(Run(daemon.requests, startedServices, failures, notStarted));
  }

  method RunStart(c: Config, services: seq<string>, processEnv: map<string, string>, daemon: Daemon<Request, Reply>,
                  patience: Patience)
    returns (r: Result<Run, StartError>, ghost order: seq<string>)
    requires daemon.requests == [] && daemon.closed == ConnectionFailed
    modifies daemon
    ensures r.Ok? ==> IsValid(c) && IsOrderOf(DependencyGraph(c), StartRoots(c, services), order)
                      && Start(c, order, NewContext(processEnv), old(daemon.replies), patience) == Some(r.value)
                      && daemon.requests == r.value.requests
    ensures r.Ok? ==> IsOrderOf(DependencyGraph(c), if services == [] then c.services.Keys else Elems(services), order)
    ensures r.Err? && r.error.ConfigRejected? <==> !IsValid(c)
    ensures r.Err? && r.error.NotSorted? ==>
            IsRealError(DependencyGraph(c), StartRoots(c, services), r.error.s) && daemon.requests == []
    ensures r.Err? && r.error.NotConfigured? ==> r.error.name in services && r.error.name !in c.services
    ensures IsValid(c) && Elems(services) <= c.services.Keys ==>
              (AcyclicFrom(DependencyGraph(c), StartRoots(c, services)) ==> r.Ok?)
    ensures r.Ok? && Ready(c, processEnv) && GoodReplies(c, order, old(daemon.replies), patience) ==>
              r.value.started == order && r.value.failures == [] && r.value.notStarted == []
  {
    hide IsValid, IsOrderOf, IsRealError, AcyclicFrom, ConfiguredFrom;
    hide Ready, GoodReplies, Start, NoDuplicates, SuccessorsFirst;
    order := [];
    var valid := ValidateConfig(c);
    if valid.Err? {
      return Err(ConfigRejected(valid.error)), order;
    }
    var sorted := TopologicalSort(c, services);
    SortsWhenValid(c, services);
    if sorted.Err? {
      return Err(NotSorted(sorted.error)), order;
    }
    order := sorted.value;
    OrderedServicesAreConfigured(c, services, order);
    r := StartServices(c, sorted.value, NewContext(processEnv), daemon, patience);
    assert order[0..] == order && order[..0] == [];
    StartsEverything(c, processEnv, order, 0, NewContext(processEnv), old(daemon.replies), patience);
  }
}

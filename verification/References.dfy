/**
 Configuration-wide use of the resolver (crates/harness-config/src/resolver.rs, `resolve_service_env`,
 `find_all_references`, `validate_references`) and the parser's validation and conversion
 (crates/harness-config/src/parser.rs).
 */
module References {
  import opened Common
  import opened Config
  import opened Resolver
  import opened Substitution

  method ResolveServiceEnv(service: Service, ctx: Context) returns (r: Result<map<string, string>, ConfigError>)
    ensures r.Ok? ==> IsResolvedEnv(service.env, ctx, r.value)
    ensures r.Err? ==> exists k :: k in service.env && Resolved(service.env[k], ctx) == Err(r.error)
  {
    hide Resolved;
    var resolvedEnv := map[];
    var todo := service.env.Keys;
    while todo != {}
      invariant todo <= service.env.Keys && resolvedEnv.Keys == service.env.Keys - todo
      invariant forall k :: k in resolvedEnv ==> Resolved(service.env[k], ctx) == Ok(resolvedEnv[k])
      decreases todo
    {
      var key :| key in todo;
      todo := todo - {key};
      var value := ResolveString(service.env[key], ctx);
      if value.Err? {
        return Err(value.error);
      }
      resolvedEnv := resolvedEnv[key := value.value];
    }
    return Ok(resolvedEnv);
  }

  /** The same keys, each with its value resolved. */
  ghost predicate IsResolvedEnv(env: map<string, string>, ctx: Context, resolved: map<string, string>) {
    resolved.Keys == env.Keys && forall k :: k in env ==> Resolved(env[k], ctx) == Ok(resolved[k])
  }

  /** The finding is one of some value of some service's environment. */
  ghost predicate Mentions(c: Config, f: Finding) {
    exists s, k :: s in c.services && k in c.services[s].env && f in Variables(c.services[s].env[k], 0)
  }

  /** Every closed `${...}` parses, and every service reference names a configured service. */
  ghost predicate ReferencesValid(c: Config) {
    forall f :: Mentions(c, f) ==> f.Ok? && (f.value.variable.ServiceRef? ==> f.value.variable.service in c.services)
  }

  function AddReference(refs: (set<string>, set<string>), v: Variable): (set<string>, set<string>) {
    match v
    case EnvVar(name, _) => (refs.0 + {name}, refs.1)
    case ServiceRef(_, _) => (refs.0, refs.1 + {NameOf(v)})
  }

  /** refs.0 are the names of the environment variables among vs, refs.1 the printed service references. */
  ghost predicate NamesExactly(refs: (set<string>, set<string>), vs: set<Variable>) {
    && (forall n :: n in refs.0 <==> exists v :: v in vs && v.EnvVar? && v.name == n)
    && (forall n :: n in refs.1 <==> exists v :: v in vs && v.ServiceRef? && NameOf(v) == n)
  }

  lemma NamesOneMore(refs: (set<string>, set<string>), vs: set<Variable>, v: Variable)
    requires NamesExactly(refs, vs)
    ensures NamesExactly(AddReference(refs, v), vs + {v})
  {
    hide NameOf;
    var more := vs + {v};
    forall n | n in AddReference(refs, v).0
      ensures exists w :: w in more && w.EnvVar? && w.name == n
    {
      if n in refs.0 {
        var w :| w in vs && w.EnvVar? && w.name == n;
        assert w in more;
      } else {
        assert v in more;
      }
    }
    forall n | n in AddReference(refs, v).1
      ensures exists w :: w in more && w.ServiceRef? && NameOf(w) == n
    {
      if n in refs.1 {
        var w :| w in vs && w.ServiceRef? && NameOf(w) == n;
        assert w in more;
      } else {
        assert v in more;
      }
    }
  }

  ghost predicate EachMentioned(c: Config, vs: set<Variable>) {
    forall v :: v in vs ==> exists f: Finding :: Mentions(c, f) && f.Ok? && f.value.variable == v
  }

  /** The variables that are mentioned, when all parse. */
  ghost predicate MentionedExactly(c: Config, vs: set<Variable>) {
    EachMentioned(c, vs) && forall f :: Mentions(c, f) ==> f.Ok? && f.value.variable in vs
  }

  lemma OneMoreMentioned(c: Config, vs: set<Variable>, f: Finding)
    requires EachMentioned(c, vs) && Mentions(c, f) && f.Ok?
    ensures EachMentioned(c, vs + {f.value.variable})
  {
    hide Mentions;
  }

  method FindAllReferences(c: Config)
    returns (r: Result<(set<string>, set<string>), ConfigError>, ghost vs: set<Variable>)
    ensures r.Ok? ==> MentionedExactly(c, vs) && NamesExactly(r.value, vs)
    ensures r.Err? ==> Mentions(c, Err(r.error))
  {
    hide Variables, NamesExactly, NameOf, AddReference, EachMentioned;
    var refs: (set<string>, set<string>) := ({}, {});
    vs := {};
    NothingMentioned(c);
    var todo := c.services.Keys;
    while todo != {}
      invariant todo <= c.services.Keys && NamesExactly(refs, vs)
      invariant EachMentioned(c, vs)
      invariant forall s, k, f :: s in c.services && s !in todo
                  && k in c.services[s].env && f in Variables(c.services[s].env[k], 0)
                  ==> f.Ok? && f.value.variable in vs
      decreases todo
    {
      var name :| name in todo;
      todo := todo - {name};
      var env := c.services[name].env;
      var keys := env.Keys;
      ghost var before := vs;
      while keys != {}
        invariant keys <= env.Keys && before <= vs && NamesExactly(refs, vs)
        invariant EachMentioned(c, vs)
        invariant forall k, f :: k in env && k !in keys && f in Variables(env[k], 0) ==> f.Ok? && f.value.variable in vs
        decreases keys
      {
        var key :| key in keys;
        keys := keys - {key};
        var variables := FindVariables(env[key]);
        ghost var start := vs;
        for i := 0 to |variables|
          invariant start <= vs && NamesExactly(refs, vs)
          invariant EachMentioned(c, vs)
          invariant forall j :: 0 <= j < i ==> variables[j].Ok? && variables[j].value.variable in vs
        {
          assert Mentions(c, variables[i]);
          if variables[i].Err? {
            return Err(variables[i].error), vs;
          }
          var v := variables[i].value.variable;
          NamesOneMore(refs, vs, v);
          OneMoreMentioned(c, vs, variables[i]);
          refs := AddReference(refs, v);
          vs := vs + {v};
        }
      }
    }
    return Ok(refs), vs;
  }

  lemma NothingMentioned(c: Config)
    ensures NamesExactly(({}, {}), {}) && EachMentioned(c, {})
  {
  }

  /** A printed service reference splits at its first dot. */
  lemma ReferenceSplits(v: Variable)
    requires v.ServiceRef? && WellFormed(v)
    ensures var n := NameOf(v); IndexOf(n, '.') == Some(|v.service|) && n[..|v.service|] == v.service
  {
    var n := NameOf(v);
    assert n == v.service + ("." + v.property);
    assert n[|v.service|] == '.' && n[..|v.service|] == v.service;
    assert '.' !in v.service;
    IndexOfIs(n, '.', |v.service|);
  }

  method ValidateReferences(c: Config) returns (r: Result<(), ConfigError>)
    ensures r.Ok? <==> ReferencesValid(c)
    ensures r.Ok? <==> forall f :: Mentions(c, f) ==>
              f.Ok? && (f.value.variable.ServiceRef? ==> f.value.variable.service in c.services)
  {
    hide Variables, IndexOf, WellFormed, NameOf;
    var found, vs := FindAllReferences(c);
    if found.Err? {
      return Err(found.error);
    }
    forall v | v in vs
      ensures WellFormed(v)
    {
      var f: Finding :| Mentions(c, f) && f.Ok? && f.value.variable == v;
      MentionsAreWellFormed(c, f);
    }
    var todo := found.value.1;
    while todo != {}
      invariant todo <= found.value.1
      invariant forall v :: v in vs && v.ServiceRef? && NameOf(v) !in todo ==> v.service in c.services
      decreases todo
    {
      var serviceRef :| serviceRef in todo;
      ghost var v :| v in vs && v.ServiceRef? && NameOf(v) == serviceRef;
      ReferenceSplits(v);
      var dot := IndexOf(serviceRef, '.');
      if dot.Some? && serviceRef[..dot.value] !in c.services {
        return Err(UnknownServiceReference);
      }
      forall w | w in vs && w.ServiceRef? && NameOf(w) == serviceRef
        ensures w.service in c.services
      {
        ReferenceSplits(w);
      }
      todo := todo - {serviceRef};
    }
    return Ok(());
  }

  lemma MentionsAreWellFormed(c: Config, f: Finding)
    requires Mentions(c, f) && f.Ok?
    ensures WellFormed(f.value.variable)
  {
    hide Variables, WellFormed, PrintVariable;
    var s, k :| s in c.services && k in c.services[s].env && f in Variables(c.services[s].env[k], 0);
    FindingsAreSpans(c.services[s].env[k], 0);
  }

  // ----- parser.rs -----

  /** What `parse_str` accepts. */
  ghost predicate IsValid(c: Config) {
    && c.version == "1.0"
    && (forall s :: s in c.services ==> c.services[s].network in c.networks)
    && DependenciesConfigured(c)
    && ReferencesValid(c)
  }

  method ValidateConfig(c: Config) returns (r: Result<(), ConfigError>)
    ensures r.Ok? <==> IsValid(c)
    ensures r.Ok? <==>
            && c.version == "1.0"
            && (forall s :: s in c.services ==> c.services[s].network in c.networks)
            && (forall s, d :: s in c.services && d in c.services[s].dependencies ==> d in c.services)
            && (forall f :: Mentions(c, f) ==>
                  f.Ok? && (f.value.variable.ServiceRef? ==> f.value.variable.service in c.services))
  {
    hide ReferencesValid;
    if c.version != "1.0" {
      return Err(UnsupportedVersion);
    }
    var todo := c.services.Keys;
    while todo != {}
      invariant todo <= c.services.Keys
      invariant forall s :: s in c.services && s !in todo ==>
                  c.services[s].network in c.networks && Elems(c.services[s].dependencies) <= c.services.Keys
      decreases todo
    {
      var name :| name in todo;
      todo := todo - {name};
      var service := c.services[name];
      if service.network !in c.networks {
        return Err(UnknownNetwork);
      }
      for i := 0 to |service.dependencies|
        invariant forall j :: 0 <= j < i ==> service.dependencies[j] in c.services
      {
        if service.dependencies[i] !in c.services {
          assert service.dependencies[i] in Elems(service.dependencies);
          return Err(UnknownDependencyName);
        }
      }
    }
    r := ValidateReferences(c);
  }

  datatype Target =
    | DockerTarget(image: string, env: map<string, string>, ports: seq<nat>, volumes: seq<string>)
    | ProcessTarget(binary: string, args: seq<string>, env: map<string, string>, workingDir: Option<string>)
    | RemoteLanTarget(host: string, user: string, binary: string, args: seq<string>)
    | WireguardTarget(host: string, user: string, package: string)

  /** Of two lists of mappings together the plain ports are those of one, then those of the other; others give none. */
  lemma {:induction false} SimplePortsAppend(a: seq<PortMapping>, b: seq<PortMapping>, port: nat, mapping: string)
    ensures SimplePorts(a + b) == SimplePorts(a) + SimplePorts(b)
    ensures SimplePorts([]) == [] && SimplePorts([Simple(port)]) == [port] && SimplePorts([Full(mapping)]) == []
    decreases |a|
  {
    assert [Simple(port)][1..] == [] && [Full(mapping)][1..] == [];
    if a == [] {
      assert a + b == b && [] + SimplePorts(b) == SimplePorts(b);
    } else {
      assert (a + b)[1..] == a[1..] + b;
      SimplePortsAppend(a[1..], b, port, mapping);
    }
  }

  /** The environment a target is sent with, if any. */
  function EnvOf(t: Target): Option<map<string, string>> {
    match t
    case DockerTarget(_, env, _, _) => Some(env)
    case ProcessTarget(_, _, env, _) => Some(env)
    case _ => None
  }

  /** The target has everything of the service type but its environment. */
  predicate TargetFits(t: ServiceType, target: Target) {
    && (t.Docker? ==> target.DockerTarget? && target.image == t.image && target.volumes == t.volumes
                      && target.ports == SimplePorts(t.ports))
    && (t.Process? ==> target.ProcessTarget? && target.binary == t.binary && target.args == t.args
                       && target.workingDir == t.workingDir)
    && (t.Remote? ==> target.RemoteLanTarget? && target.host == t.host && target.user == "root"
                      && target.binary == t.remoteBinary && target.args == t.remoteArgs)
    && (t.Package? ==> target.WireguardTarget? && target.host == t.packageHost && target.user == "root"
                       && target.package == t.package)
  }

  /** The check the orchestrator runs: always a command. */
  datatype OrchestratorCheck = OrchestratorCheck(
    command: string, args: seq<string>, interval: nat, retries: nat, timeout: nat)

  datatype ServiceConfig = ServiceConfig(
    name: string, target: Target, dependencies: seq<string>, healthCheck: Option<OrchestratorCheck>)

  /** Ports given as plain numbers; `host:container` mappings are skipped. */
  function SimplePorts(ports: seq<PortMapping>): seq<nat> {
    if ports == [] then [] else (if ports[0].Simple? then [ports[0].port] else []) + SimplePorts(ports[1..])
  }

  /** Remote and package services are sent without their environment. */
  function ToTarget(t: ServiceType, env: map<string, string>): Target {
    match t
    case Docker(image, ports, volumes) => DockerTarget(image, env, SimplePorts(ports), volumes)
    case Process(binary, args, workingDir) => ProcessTarget(binary, args, env, workingDir)
    case Remote(host, binary, args) => RemoteLanTarget(host, "root", binary, args)
    case Package(host, package) => WireguardTarget(host, "root", package)
  }

  function ConvertHealthCheck(hc: HealthCheck): OrchestratorCheck {
    var (command, args) := match hc.checkType {
      case CommandCheck(command, args) => (command, args)
      case HttpCheck(http) => ("curl", ["-f", http])
      case TcpCheck(port) => ("nc", ["-z", "localhost", Decimal(port)])
    };
    OrchestratorCheck(command, args, hc.interval, hc.retries, hc.timeout)
  }

  function ConvertedCheck(service: Service): Option<OrchestratorCheck> {
    if service.healthCheck.None? then None else Some(ConvertHealthCheck(service.healthCheck.value))
  }

  /** The check is run with the interval, retries and timeout configured; what it runs is a command, curl or nc. */
  predicate CheckFits(hc: HealthCheck, check: OrchestratorCheck) {
    && check.interval == hc.interval && check.retries == hc.retries && check.timeout == hc.timeout
    && (hc.checkType.CommandCheck? ==>
          check.command == hc.checkType.command && check.args == hc.checkType.commandArgs)
    && (hc.checkType.HttpCheck? ==>
          check.command == "curl" && |check.args| == 2 && check.args[0] == "-f" && check.args[1] == hc.checkType.http)
    && (hc.checkType.TcpCheck? ==>
          check.command == "nc" && |check.args| == 3 && check.args[0] == "-z" && check.args[1] == "localhost"
          && ReadDecimal(check.args[2]) == hc.checkType.tcpPort)
  }

  lemma ConvertedCheckFits(hc: HealthCheck)
    ensures CheckFits(hc, ConvertHealthCheck(hc))
  {
    hide Decimal, ReadDecimal;
    if hc.checkType.TcpCheck? {
      DecimalReadsBack(hc.checkType.tcpPort);
    }
  }

  /** The port that a TCP check connects to can be read off its command. */
  lemma TcpCheckKeepsPort(hc: HealthCheck)
    requires hc.checkType.TcpCheck?
    ensures var check := ConvertHealthCheck(hc);
      check.command == "nc" && |check.args| == 3 && ReadDecimal(check.args[2]) == hc.checkType.tcpPort
  {
    DecimalReadsBack(hc.checkType.tcpPort);
  }

  /** The conversion of a service whose environment has been resolved. */
  ghost predicate IsConversion(c: Config, name: string, ctx: Context, sc: ServiceConfig) {
    && name in c.services
    && exists env :: IsResolvedEnv(c.services[name].env, ctx, env)
                     && sc == ServiceConfig(name, ToTarget(c.services[name].serviceType, env),
                                         c.services[name].dependencies, ConvertedCheck(c.services[name]))
  }

  /** The conversion succeeds exactly when every value of the service's environment resolves. */
  ghost predicate Converts(c: Config, name: string, ctx: Context) {
    name in c.services && forall k :: k in c.services[name].env ==> Resolved(c.services[name].env[k], ctx).Ok?
  }

  method ConvertToOrchestrator(c: Config, name: string, ctx: Context) returns (r: Result<ServiceConfig, ConfigError>)
    ensures r.Ok? <==> Converts(c, name, ctx)
    ensures r.Ok? ==> IsConversion(c, name, ctx, r.value)
    ensures r.Ok? ==> r.value.name == name && r.value.dependencies == c.services[name].dependencies
    ensures r.Ok? ==> TargetFits(c.services[name].serviceType, r.value.target)
    ensures r.Ok? && EnvOf(r.value.target).Some? ==>
              IsResolvedEnv(c.services[name].env, ctx, EnvOf(r.value.target).value)
    ensures r.Ok? ==> match c.services[name].healthCheck
                      case None => r.value.healthCheck.None?
                      case Some(hc) => r.value.healthCheck.Some? && CheckFits(hc, r.value.healthCheck.value)
  {
    hide Resolved;
    if name !in c.services {
      return Err(ServiceNotFound);
    }
    var service := c.services[name];
    var env := ResolveServiceEnv(service, ctx);
    if env.Err? {
      return Err(env.error);
    }
    if service.healthCheck.Some? {
      ConvertedCheckFits(service.healthCheck.value);
    }
    var healthCheck := if service.healthCheck.None? then None else Some(ConvertHealthCheck(service.healthCheck.value));
    return Ok(ServiceConfig(name, ToTarget(service.serviceType, env.value), service.dependencies, healthCheck));
  }
}

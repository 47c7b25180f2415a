/** The part of a harness configuration that dependency ordering, resolution and start runs read. */
module Config {
  import opened Common
  import opened Graphs

  datatype PortMapping = Simple(port: nat) | Full(mapping: string)

  datatype ServiceType =
    | Docker(image: string, ports: seq<PortMapping>, volumes: seq<string>)
    | Process(binary: string, args: seq<string>, workingDir: Option<string>)
    | Remote(host: string, remoteBinary: string, remoteArgs: seq<string>)
    | Package(packageHost: string, package: string)

  datatype HealthCheckType =
    | CommandCheck(command: string, commandArgs: seq<string>)
    | HttpCheck(http: string)
    | TcpCheck(tcpPort: nat)

  datatype HealthCheck = HealthCheck(checkType: HealthCheckType, interval: nat, retries: nat, timeout: nat)

  datatype Service = Service(
    serviceType: ServiceType,
    network: string,
    env: map<string, string>,
    dependencies: seq<string>,
    healthCheck: Option<HealthCheck>)

  datatype Config = Config(version: string, networks: set<string>, services: map<string, Service>)

  /** The dependency relation: an edge from each service to each of its dependencies. */
  function DependencyGraph(c: Config): Graph {
    map s | s in c.services :: Elems(c.services[s].dependencies)
  }

  /** The dependents relation: an edge from each configured service to each service that depends on it. */
  function DependentsGraph(c: Config): Graph {
    map d | d in c.services :: set s | s in c.services && d in c.services[s].dependencies
  }

  /** Every dependency named in the configuration is configured. */
  ghost predicate DependenciesConfigured(c: Config) {
    forall s :: s in c.services ==> Elems(c.services[s].dependencies) <= c.services.Keys
  }
}

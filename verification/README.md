# Verified model of the service harness

A Dafny model of the parts of the harness in which order, text and shared state interact, with proofs of
what they promise. Each module models one component; `dafny verify dfyconfig.toml` verifies the project.

- `Graphs`, `Config`, `Dependencies`: start and stop orders. The recursive searches share the fields of
  `Traversal` and `Collector`; hash sets are enumerated by arbitrary choice, so every theorem holds for
  every iteration order, and termination is proved on cyclic graphs.
- `Shell`, `Printing`, `Layers`: printing an argv into a shell string and nesting it through SSH, Docker and
  local layers, against a reader of sections 2.2 (Quoting) and 2.3 (Token Recognition) of the Shell Command
  Language volume of IEEE Std 1003.1-2017. A text whose meaning would depend on an expansion has no reading.
- `Resolver`, `Substitution`, `Values`, `References`: the `${...}` grammar, the scanner, the substituter, what
  references resolve to, and the validation and conversion of a configuration.
- `IpAllocation`: address allocation for both address families, over the whole wrapping address space.
- `Connection`, `StartRun`, `StopRun`: the start and stop commands against a daemon that answers with an
  arbitrary script of replies. Ordering, resolution and conversion meet in `StartRun.RunStart`.
- `Registries`, `Managers`, `Health`: registry, service manager and health monitor, each operation one
  atomic step; executors give arbitrary results.
- `ProcessStream`: the event stream of a process over arbitrary schedules of its two pipes.
- `Correlation`: the request/response protocol as a state machine over client, server and an unreliable wire.

A method that updates state is proved against a function of the old state and states what becomes of its
fields; what the source promises is then proved about those functions, over all runs. What is printed, sent or
reported is also read back: settings from arguments, results from requests and replies, values from texts.

## Findings

Where the code does not do what its comments, messages or names say, the model follows the code.

- An SSH layer with both variables and a directory prints `K=V cd dir && program`: the variables are given to
  `cd` only (`Layers.SshEnvReachesProgram`), although the field is documented as the variables of the remote host
  (`crates/command-executor/src/layered/layers.rs:26`, printed at lines 146-172).
- The printer does not preserve empty arguments nor unquoted arguments that start with `#` or `~`
  (`crates/command-executor/src/layered/layers.rs:366-375`, `Printing.UnsafeArguments`), nor programs that are not
  plain words (lines 351 and 361-363, `Printing.UnsafePrograms`), nor environment keys that are not names (line
  155). `Printing.CommandReadsBack` and `Layers.HopReadsBack` give the exact condition.
- The start loop goes on after a failed conversion (`crates/harness/src/commands/start.rs:50`) or an unexpected
  response (lines 191-195), so a service can be started after its dependency failed
  (`StartRun.StartsPastFailedDependency`); `StartRun.StartsAreGuardedExactlyWhen` gives the exact condition on the
  configuration, the order and the replies. The summary nevertheless speaks of dependency failures (line 224).
- The stop summary counts services that were never asked to stop as stopped
  (`crates/harness/src/commands/stop.rs:168`): `StopRun.SummaryIsExactWhen` gives the exact condition, and
  `StopRun.SummaryCountsServicesNotAsked` an instance.
- `allocate_specific` on a name that has another address leaves the old one in use without a name
  (`crates/service-registry/src/network/ip_allocator.rs:97-101`, `IpAllocation.StepLeavesBehind`,
  `IpAllocation.CountedExactlyWhen`), and the reserved gateway address can be pinned and then released (lines 85-94
  and 106-113, `IpAllocation.PinnedGatewayIsReleased`, `IpAllocation.ReservedExactlyWhen`). After wrapping around,
  the network address is handed out too (lines 127-155, `IpAllocation.NthAddresses`).
- A manager start under a blank name returns an error and leaves the service active
  (`crates/service-orchestration/src/manager.rs:160-165`, `Managers.BlankNameStaysActive`); a stop that the executor
  refuses leaves it reported as stopped (lines 184-197, `Managers.FailedStopReportsStopped`).
  `Managers.RefusedChangesNothingExactlyWhen` and `Managers.BelievedExactlyWhen` give the exact conditions.
- A request made after the client's handler has stopped fails, but its id stays in the pending map
  (`crates/service-registry/src/client.rs:290-292`, `Correlation.PendingIsUncompletedExactlyWhen`).
- For a request that names an unconfigured dependency, the order of the names decides whether sorting fails
  (`crates/harness/src/commands/dependencies.rs:112-114`, `Dependencies.RequestOrderMatters`). Sorting a whole
  configuration would treat a dependency that is not configured as a leaf, but no caller can get there: the start
  and validate commands load the configuration through `validate_config`, which rejects it
  (`crates/harness-config/src/parser.rs:45-52`).
- Remote and package services are converted without their resolved environment
  (`crates/harness-config/src/parser.rs:200-227`): `StartRun.EnvironmentIsSentExactlyWhen`, with an instance in
  `StartRun.RemoteEnvironmentIsLost`.

## Model

| member | source | states |
|---|---|---|
| Dependencies.TopologicalSort | crates/harness/src/commands/dependencies.rs:60-86 | On success each service of the least dependency-closed set around the request appears once, after all of its dependencies; every error exhibits a real, reachable cycle or unknown dependency. For every request it succeeds exactly when no cycle is reachable and whatever a requested service reaches is configured or was requested no later than it; for the whole configuration, exactly when there is no cycle. Holds for every enumeration order. |
| Dependencies.RequestOrderMatters | crates/harness/src/commands/dependencies.rs:71-76 | A request that names an unconfigured dependency after its dependent fails, and before it succeeds. |
| Dependencies.ReverseTopologicalSort | crates/harness/src/commands/dependencies.rs:30-57 | The same over dependents: exactly the closure of the request, dependents first; it fails exactly when a cycle is reachable, and the error names a service on it. |
| Dependencies.Traversal.constructor | crates/harness/src/commands/dependencies.rs:60-67 | A new search has visited nothing. |
| Dependencies.Traversal.DfsForward | crates/harness/src/commands/dependencies.rs:157-187 | From a state in which the visiting stack is a dependency path, the search adds the service and only what it transitively depends on, keeps the order valid, restores the stack, and reports only services on a cycle below it. It terminates on cyclic graphs. |
| Dependencies.Traversal.DfsReverse | crates/harness/src/commands/dependencies.rs:124-154 | The same for the transposed graph. |
| Dependencies.Collector.constructor | crates/harness/src/commands/dependencies.rs:73-77 | A new collection is empty. |
| Dependencies.Collector.CollectDependencies | crates/harness/src/commands/dependencies.rs:104-121 | Adds all transitive dependencies and nothing outside any closed set around the service; an error names a configured service with an unconfigured dependency. It terminates on cyclic graphs. |
| Dependencies.Collector.CollectDependents | crates/harness/src/commands/dependencies.rs:88-101 | Adds all transitive dependents and nothing outside any closed set around the service. |
| Dependencies.BuildDependencyGraph | crates/harness/src/commands/dependencies.rs:8-27 | The loop builds exactly the transposed dependency relation of the configured services. |
| Dependencies.GetAffectedServices | crates/harness/src/commands/dependencies.rs:190-206 | The affected services are disjoint from the request, with it form the least set closed under dependents, and are listed once each in alphabetical order. |
| Common.Sort | crates/harness/src/commands/dependencies.rs:203-205 | The names of a set, once each and in the order of strings. |
| Common.AtMostExactly | crates/harness/src/commands/dependencies.rs:203-205 | In the order of strings a string comes before its extensions, else the first different character decides. |
| Dependencies.ReentryIsCycle | crates/harness/src/commands/dependencies.rs:168-172 | Meeting a service that is still being visited closes a dependency cycle through it. |
| Dependencies.EnterNode | crates/harness/src/commands/dependencies.rs:178-179 | Entering an unvisited successor keeps the stack a path outside the finished order. |
| Dependencies.LeaveNode | crates/harness/src/commands/dependencies.rs:182-185 | Finishing a service whose dependencies are finished keeps the order dependencies-first and without duplicates. |
| Dependencies.RealErrorsRefute | crates/harness/src/commands/dependencies.rs:60-187 | A reported error is a witness against acyclicity or configuredness of what the request reaches. |
| Dependencies.OrdersCoverAcyclicParts | crates/harness/src/commands/dependencies.rs:60-187 | An order exists only where no cycle is reachable, so success is impossible on a cyclic request. |
| Dependencies.WholeConfigurationIsAcyclic | crates/harness/src/commands/dependencies.rs:60-86 | Nothing reachable in the whole configuration lies on a cycle exactly when the dependency relation has no cycle at all. |
| Dependencies.PathsReverse | crates/harness/src/commands/dependencies.rs:8-27 | A dependency path read backwards is a path of dependents, and conversely, up to configuredness of its last service. |
| Dependencies.DependentsAreTransitive | crates/harness/src/commands/dependencies.rs:190-206 | The transitive dependents of a configured service are exactly the services that transitively depend on it. |
| Dependencies.CyclesReverse | crates/harness/src/commands/dependencies.rs:30-86 | Start and stop sorting meet the same cycles. |
| Dependencies.StopOrderIsRequestAndAffected | crates/harness/src/commands/dependencies.rs:30-57 | A stop order holds exactly the request and what it affects: the services outside it that transitively depend on it. |
| Dependencies.StopOrderReversedStarts | crates/harness/src/commands/dependencies.rs:30-57 | A stop order read backwards starts each service after its dependencies in the order. |
| Dependencies.WholeStopOrderReversed | crates/harness/src/commands/dependencies.rs:30-86 | For a whole validated configuration the reversed stop order meets the full specification of a start order. |
| Graphs.ClosureIsReachability | crates/harness/src/commands/dependencies.rs:88-121 | The least closed set around the roots is exactly the set of services reachable from them. |
| Graphs.PathsDescend | crates/harness/src/commands/dependencies.rs:60-86 | In a successors-first order, a path leads only to earlier positions. |
| Shell.FeedAppend | crates/command-executor/src/layered/layers.rs:104-180 | Tokenising a text in two parts is tokenising the whole (reader of sections 2.2 and 2.3 of the POSIX Shell Command Language). |
| Shell.ListNamesAreValid | crates/command-executor/src/layered/layers.rs:147-163 | Whatever text is printed, the shell assigns to names only. |
| Shell.FeedHolds | crates/command-executor/src/layered/layers.rs:350-375 | Reading never adds characters: a word cut short by a delimiter is shorter than the text it was read from. |
| Printing.FeedEscaped | crates/command-executor/src/layered/layers.rs:366-375 | An escaped string is recognised as exactly one word, at the start of a word or inside one, whatever quotes it holds. |
| Printing.CommandReadsBack | crates/command-executor/src/layered/layers.rs:350-375 | The printed command, after printed assignments, is read as exactly those assignments and the original argv if and only if everything printed is safe: a program whose characters are all literal, assignments to names, values and arguments that are not empty and start no comment or tilde. Only for a program that starts with a blank and also leaves a quotation open before arguments is the only-if part not claimed. |
| Printing.ProgramReadsBack | crates/command-executor/src/layered/layers.rs:350-364 | A program without arguments is read back exactly when it is a plain word that is not reserved. |
| Printing.UnsafePrograms | crates/command-executor/src/layered/layers.rs:351-364 | The programs `my tool`, `a;b` and `if` are not preserved by the printer, which leaves programs unescaped. |
| Printing.UnsafeArguments | crates/command-executor/src/layered/layers.rs:366-375 | The inputs "", "#" and "~" are not preserved by the printer. |
| Layers.WrapSsh | crates/command-executor/src/layered/layers.rs:104-180 | The step-by-step construction of the ssh command gives the wrapped command of the specification: options, destination, and the remote text as one last argument. |
| Layers.SshArgsReadBack | crates/command-executor/src/layered/layers.rs:114-144 | From the arguments before the remote text every setting of the layer can be read back: flags, port and identity file, then the options in order, then the destination. |
| Layers.WrapDocker | crates/command-executor/src/layered/layers.rs:249-285 | The step-by-step construction of the docker command gives the wrapped command of the specification: docker exec with the settings of the layer, the container, sh -c and the shell text as the last argument. |
| Layers.DockerArgsReadBack | crates/command-executor/src/layered/layers.rs:249-285 | From the arguments before the shell text every setting of the layer can be read back: interactive, tty, the user after -u, the directory after -w, each -e entry in order, then the container, sh and -c. |
| Layers.WrapLocal | crates/command-executor/src/layered/layers.rs:330-342 | Each variable gets the value of its last entry, or keeps its former one, and there are no others; the directory is the layer's if it has one; argv is untouched. |
| Layers.SetEnv | crates/command-executor/src/layered/layers.rs:330-342 | Inserting the entries one by one leaves each variable with the value of its last entry, or its former one. |
| Layers.HopReadsBack | crates/command-executor/src/layered/layers.rs:104-180 | The shell of one remote layer runs the wrapped command's exact argv, after exactly the layer's assignments and its `cd dir &&`, if and only if everything it prints is safe, environment keys and the program included. |
| Layers.SshRunsExactly | crates/command-executor/src/layered/layers.rs:145-177 | Spelled out for a safe command: the remote shell runs `K=V ... program args`, or with a directory `K=V ... cd dir` and then the program without the variables. |
| Layers.DockerRunsExactly | crates/command-executor/src/layered/layers.rs:249-285 | Spelled out for a safe command: the shell in the container runs exactly the program and its arguments. |
| Layers.ShellTextIsSafe | crates/command-executor/src/layered/layers.rs:145-177 | The text a remote layer makes of a command can be nested as one argument of the next layer, exactly unless it is only an unsafe program. |
| Layers.TransformCommand | crates/command-executor/src/layered/executor.rs:84-99 | The fold over the layers is the specification's stack of wrappings. |
| Layers.RemoteLayerIsTool | crates/command-executor/src/layered/executor.rs:84-99 | A remote layer on any stack runs ssh or docker, with its own arguments and the shell text of what the stack below made, and carries over neither environment nor directory. |
| Layers.LocalsMerge | crates/command-executor/src/layered/executor.rs:84-99 | Local layers on any stack keep its program and arguments; of each variable they set the last entry of all counts, and of the directories the last one. |
| Layers.StackReadsBack | crates/command-executor/src/layered/executor.rs:84-99 | For a stack of any depth, every hop's shell runs exactly what the layer below made if and only if the strings that get printed are safe: program, arguments, variables, directories and the settings of every remote layer but the outermost. |
| Layers.StackDelivers | crates/command-executor/src/layered/executor.rs:84-99 | Unwrapping a stack of any depth - last argument, tokenise, repeat - recovers the original program and arguments. |
| Layers.SshEnvReachesProgram | crates/command-executor/src/layered/layers.rs:145-177 | The SSH layer's environment reaches the wrapped program exactly when its keys are names and the layer does not also set a directory; otherwise it is given to `cd` alone. |
| Resolver.ServiceRefRoundTrip | crates/harness-config/src/resolver.rs:128-137 | A service reference parses to v exactly when v is a well-formed reference and the text is its printed form. |
| Resolver.EnvVarRoundTrip | crates/harness-config/src/resolver.rs:106-125 | Without a dot or closing brace, an environment expression parses to v exactly when v is well formed and the text is its printed form. |
| Resolver.ExprRoundTrip | crates/harness-config/src/resolver.rs:140-195 | The same for any expression without a closing brace: an expression with a dot is always a service reference. |
| Resolver.VariableRoundTrip | crates/harness-config/src/resolver.rs:198-213 | Parser and printer are inverse in both directions, for every variable, text and tail. |
| Resolver.EnvironmentIsRead | crates/harness-config/src/resolver.rs:70-125 | What a text without a dot is read as, character by character: a name of upper-case letters, digits and `_` that starts with a letter, alone or followed by `:-` and its default; anything else is an invalid name. |
| Resolver.ReferenceIsRead | crates/harness-config/src/resolver.rs:85-195 | What a text with a dot is read as: a service reference when a name that starts with a letter is followed by ip, port or host; else which of the two errors, decided by the first character. |
| Substitution.FindVariables | crates/harness-config/src/resolver.rs:216-248 | The scanning loop returns the findings of the recursive scan, with their offsets. |
| Substitution.FirstVariable | crates/harness-config/src/resolver.rs:216-248 | The first finding is what a one-pass reading of the text meets first, and the later findings are those of the text behind it. |
| Substitution.FindingsAreSpans | crates/harness-config/src/resolver.rs:216-248 | Every variable reported prints back to exactly its span; spans are ordered, disjoint and in bounds. |
| Substitution.TemplateRoundTrip | crates/harness-config/src/resolver.rs:216-248 | Scanning any alternation of literals free of ${ and printed well-formed variables yields exactly those variables at exactly their offsets. |
| Substitution.ResolveString | crates/harness-config/src/resolver.rs:251-315 | The loop gives the result of a one-pass reading: literal text is kept, each variable is replaced once, replacements are never rescanned. What the values and errors are, Values states of the texts. |
| Substitution.ResolvesExactlyWhen | crates/harness-config/src/resolver.rs:251-315 | Resolution succeeds exactly when every closed ${...} parses and has a value. |
| Substitution.FirstErrorDecides | crates/harness-config/src/resolver.rs:251-315 | The first closed ${...} that does not parse decides the error, whatever else is missing; when all parse, only names can be missing. |
| Substitution.TemplateResolves | crates/harness-config/src/resolver.rs:251-315 | A written template resolves exactly when each of its variables has a value, to its text with each replaced. |
| Substitution.ResolvedIsIdentity | crates/harness-config/src/resolver.rs:251-315 | Text without a closed ${...} resolves to itself. |
| Values.AddedServiceResolves | crates/harness-config/src/resolver.rs:49-55 | After a service has been added, ${s.ip}, ${s.host} and ${s.port} resolve to its address, its host and digits that read back to its port; without a port, ${s.port} is as before. |
| Values.UnknownServiceIsNamed | crates/harness-config/src/resolver.rs:251-315 | Before a service has been added a reference to it is an error that names the reference. |
| Values.OtherReferenceUnaffected | crates/harness-config/src/resolver.rs:49-55 | Adding a service leaves the references to every other service as they were. |
| Values.OtherTextsUnaffected | crates/harness-config/src/resolver.rs:49-55 | Adding a service changes no text, of any shape, that does not refer to it. |
| Values.GivenVariableFirst | crates/harness-config/src/resolver.rs:263-272 | A variable given to the context comes before the process environment and before the default. |
| Values.EnvironmentBeforeDefault | crates/harness-config/src/resolver.rs:263-272 | In a new context the process environment comes before the default; with neither, the error names the variable. |
| Values.LaterEnvironment | crates/harness-config/src/resolver.rs:263-272 | A variable that enters the process environment later counts only where the context was given none. |
| Values.ErrorsInOrder | crates/harness-config/src/resolver.rs:251-315 | The error of a written template lists every variable that does not resolve alone, in order. |
| References.ResolveServiceEnv | crates/harness-config/src/resolver.rs:318-330 | The resolved environment has the same keys, each value resolved; an error is that of some value. |
| References.FindAllReferences | crates/harness-config/src/resolver.rs:333-357 | On success the two sets hold exactly the names of the variables mentioned anywhere in the configuration; an error is a malformed mention. |
| References.ReferenceSplits | crates/harness-config/src/resolver.rs:364-368 | Cutting a collected reference at its first dot recovers the service name. |
| References.ValidateReferences | crates/harness-config/src/resolver.rs:360-393 | Accepts exactly when every mention parses and every service reference names a configured service. |
| References.ValidateConfig | crates/harness-config/src/parser.rs:26-59 | Accepts exactly the valid configurations: version, networks, dependencies and references. |
| References.ConvertToOrchestrator | crates/harness-config/src/parser.rs:148-243 | Succeeds exactly when the service is configured and every value of its environment resolves. The result has the name, the dependencies, everything of the service type, the resolved environment where the target carries one, and the health check with its interval, retries and timeout. |
| References.SimplePortsAppend | crates/harness-config/src/parser.rs:171-179 | The ports sent are the plain mappings, in order; a full mapping gives none. |
| References.ConvertedCheckFits | crates/harness-config/src/parser.rs:246-271 | The converted check runs the command configured, `curl -f URL`, or `nc -z localhost PORT`, with the interval, retries and timeout configured. |
| References.TcpCheckKeepsPort | crates/harness-config/src/parser.rs:246-271 | A TCP health check becomes an nc command from which its port can be read back. |
| IpAllocation.IpAllocator.constructor | crates/service-registry/src/network/ip_allocator.rs:25-55 | A new allocator, over any subnet whose gateway address exists, has only that address in use. |
| IpAllocation.IpAllocator.Allocate | crates/service-registry/src/network/ip_allocator.rs:58-73 | A name that holds an address is told it again and nothing changes. Else it is told the first free address, which is recorded in all three collections. It is refused exactly when it has no address and every address of the subnet is taken, and then nothing changes. |
| IpAllocation.IpAllocator.AllocateSpecific | crates/service-registry/src/network/ip_allocator.rs:76-103 | Accepts exactly addresses of the subnet that no other name holds, with the original's two error kinds; the three collections after it, and no change when it refuses. |
| IpAllocation.IpAllocator.Release | crates/service-registry/src/network/ip_allocator.rs:106-114 | Frees the name's address and returns it. |
| IpAllocation.IpAllocator.FindNextAvailable | crates/service-registry/src/network/ip_allocator.rs:127-171 | The wrap-around loop terminates and returns the first free address of the cyclic scan. |
| IpAllocation.IpAllocator.AllocatedCount | crates/service-registry/src/network/ip_allocator.rs:179-181 | The number of addresses in use. |
| IpAllocation.FirstFreeIsFirst | crates/service-registry/src/network/ip_allocator.rs:127-171 | The scan finds the free address nearest after base+2 modulo the address space, and none exactly when every address of the subnet is in use. |
| IpAllocation.FirstFreeIsUnique | crates/service-registry/src/network/ip_allocator.rs:127-171 | Nothing else meets that specification. |
| IpAllocation.RunsAgree | crates/service-registry/src/network/ip_allocator.rs:40-114 | After every run of operations names and addresses map to each other, lie in the subnet, and no two names share an address. |
| IpAllocation.AnswersOverRuns | crates/service-registry/src/network/ip_allocator.rs:58-73 | After any run a name is told the address it then holds: an address of the subnet that no other name holds, and not the gateway's unless that was pinned. It is refused exactly when it has none and all addresses are taken. |
| IpAllocation.StepLeavesBehind | crates/service-registry/src/network/ip_allocator.rs:76-103 | Moving a name by allocate_specific leaves exactly its old address in use without a name; no other operation leaves one. |
| IpAllocation.CountSplits | crates/service-registry/src/network/ip_allocator.rs:179-181 | The addresses in use are one for the gateway, one for each name, and those left behind. |
| IpAllocation.CountedExactlyWhen | crates/service-registry/src/network/ip_allocator.rs:40-114 | In a run that does not pin the gateway, the count is one plus the number of names at every point exactly when no name is moved. |
| IpAllocation.ReservedExactlyWhen | crates/service-registry/src/network/ip_allocator.rs:40-114 | The gateway's address stays reserved at every point of a run exactly when no operation pins it under the name "gateway". |
| IpAllocation.PinnedGatewayIsReleased | crates/service-registry/src/network/ip_allocator.rs:76-114 | A run that loses the reserved address: pinned under the name "gateway" and released, it is free. |
| IpAllocation.Capacity | crates/service-registry/src/network/ip_allocator.rs:25-73 | Over 2^h addresses exactly 2^h - 1 distinct names are served, and every further name is refused. |
| IpAllocation.NthAddresses | crates/service-registry/src/network/ip_allocator.rs:127-171 | The addresses served are pairwise different and are exactly those of the subnet but the gateway's: the network address comes last. |
| IpAllocation.NextFree | crates/service-registry/src/network/ip_allocator.rs:127-155 | After n allocations of fresh names the search yields the next address in order, and none when all are taken. |
| Connection.Daemon.constructor | crates/harness/src/client/mod.rs:102-130 | A new connection has sent nothing. |
| Connection.Daemon.Send | crates/harness/src/client/mod.rs:102-130 | A request is recorded and answered by the next of an arbitrary script of replies. |
| Connection.PollsExactly | crates/harness/src/commands/start.rs:83-117 | A wait ends with the first reply that does not keep it waiting, or when its time is up. |
| StartRun.StartServices | crates/harness/src/commands/start.rs:27-227 | The loop, with its waits for health checks, sends the requests, and starts, fails and leaves out the services, that the recursive specification prescribes; it ends in an error exactly when it meets an unconfigured service. |
| StartRun.WaitForHealth | crates/harness/src/commands/start.rs:83-117 | The wait sends status requests until the service runs or has failed, another reply comes, or the time is up, and consumes exactly their replies. |
| StartRun.StartsAwait | crates/harness/src/commands/start.rs:83-120 | In every run, a start that worked of a service with a health check is followed by status requests for it, as long as the replies keep it waiting within its time; nothing else is. |
| StartRun.WaitsExactlyWhen | crates/harness/src/commands/start.rs:83-117 | A start is followed by a status request exactly for a service with a health check whose timeout leaves time for one. |
| StartRun.StartsAreReplies | crates/harness/src/commands/start.rs:66-203 | Read off requests and replies: the services reported started are those whose start request got ServiceStarted or Success, and every other one fails with the reason of its reply. |
| StartRun.EndsAtRefusal | crates/harness/src/commands/start.rs:183-203 | A rejected or unanswered start is the last request, the rest of the order is left over, and otherwise nothing is. |
| StartRun.AskedAreReported | crates/harness/src/commands/start.rs:27-203 | Exactly the services started, and those that failed otherwise than in conversion, were asked to start, in this order; status requests ask for nothing. |
| StartRun.EnvironmentIsSentExactlyWhen | crates/harness-config/src/parser.rs:160-227 | What is sent to the daemon depends on the resolved environment exactly for Docker and process services. |
| StartRun.RemoteEnvironmentIsLost | crates/harness-config/src/parser.rs:200-215 | A remote service whose variable is resolved and not sent. |
| StartRun.RunStart | crates/harness/src/commands/start.rs:8-227 | End to end: the order meets the start-order specification; configuration and sort errors are exact; and in a ready configuration with good replies every service of the order is started, none fails and none is left out. |
| StartRun.RunPartitions | crates/harness/src/commands/start.rs:27-198 | Over every run, started and failed services interleave to a prefix of the order and the rest is not started; only a rejection or a lost connection leaves a rest, and it is the last failure. |
| StartRun.NotStartedIsRest | crates/harness/src/commands/start.rs:214-220 | The summary's filter lists exactly the part of the order behind the failures. |
| StartRun.ConvertsAfterDependencies | crates/harness/src/commands/start.rs:41-56 | Once the services it transitively depends on have started, a service's conversion cannot fail. |
| StartRun.StartedServiceResolves | crates/harness/src/commands/start.rs:66-80 | After a ServiceStarted reply the references to the service resolve to the address, host and port of the reply; after Success, to 127.0.0.1 and the service's local name. |
| StartRun.RequestsCarry | crates/harness/src/commands/start.rs:41-66 | Over the rest of a run, every start request whose service has a variable with such a reference carries the value it resolves to, whatever else is started. |
| StartRun.DependentsAreTold | crates/harness/src/commands/start.rs:66-80 | Once the daemon has reported a service's address, all later start requests whose variables refer to it carry that address and host. |
| StartRun.StartsEverything | crates/harness/src/commands/start.rs:27-203 | Whatever has started so far, good replies start the whole rest of the order. |
| StartRun.FatalFailuresOnly | crates/harness/src/commands/start.rs:27-198 | When every failure is fatal, exactly a prefix of the order is started and at most one service fails. |
| StartRun.StartsAreGuardedExactlyWhen | crates/harness/src/commands/start.rs:41-203 | Before the run it is determined whether every started service comes after all of its dependencies have started: exactly when no service that the daemon will start depends on one that fails to convert or gets an unexpected response. |
| StartRun.StartsPastFailedDependency | crates/harness/src/commands/start.rs:183-203 | A run in which a service is started after its dependency failed. |
| StopRun.StopServices | crates/harness/src/commands/stop.rs:98-165 | The loop, with its waits, sends the requests and collects the failures that the recursive specification prescribes. |
| StopRun.WaitForStop | crates/harness/src/commands/stop.rs:112-140 | The wait sends status requests until the service has stopped, another reply comes, or the time is up, and consumes exactly their replies. |
| StopRun.StopsAwait | crates/harness/src/commands/stop.rs:109-140 | In every run with a timeout, a successful stop is followed by status requests for the service, as long as the replies keep it waiting within its time; nothing else is. |
| StopRun.WaitsExactlyWhen | crates/harness/src/commands/stop.rs:112-140 | A status request follows a successful stop exactly when a timeout is given that leaves time for one. |
| StopRun.StopsAreReplies | crates/harness/src/commands/stop.rs:98-165 | Read off requests and replies: the failures are the services whose stop request got another reply than a success; without force nothing follows a refusal, and services are left out only behind one. |
| StopRun.TraceIsFaithful | crates/harness/src/commands/stop.rs:98-165 | Among all requests of the loop, status requests included, exactly the services reported as asked are asked to stop, in order. |
| StopRun.RunStop | crates/harness/src/commands/stop.rs:8-165 | End to end, in terms of the names given and the statuses listed: a service is asked to stop only if it is configured, is neither stopped nor failed, and is named or transitively depends on a named running one; once, and only after every running service that transitively depends on it. Without failures or with force all of these are asked. Without names every running service counts as named. Each outcome and error occurs in exactly its case. |
| StopRun.RequestMeans | crates/harness/src/commands/stop.rs:34-80 | What the request selects, affects and concerns, in terms of the names given, the statuses listed and the dependency relation. |
| StopRun.TransitiveDependentsFirst | crates/harness/src/commands/stop.rs:82-89 | In a stop order every transitive dependent comes earlier. |
| StopRun.PlanIsSafe | crates/harness/src/commands/stop.rs:82-89 | Filtering a stop order by what runs keeps it duplicate-free and dependents first, and leaves exactly the concerned services. |
| StopRun.StopIsPrefix | crates/harness/src/commands/stop.rs:98-165 | Whatever the daemon replies, the services asked are a prefix of the plan, and all of it with force or without failures. |
| StopRun.SummaryIsExactWhen | crates/harness/src/commands/stop.rs:167-170 | The printed number of stopped services is right exactly when all ordered services are configured and no failure cuts the run short; otherwise it is too large. |
| StopRun.SummaryCountsServicesNotAsked | crates/harness/src/commands/stop.rs:167-170 | A run that stops nothing and reports one service stopped. |
| Registries.Registry.constructor | crates/service-registry/src/registry.rs:36-46 | A new registry is empty. |
| Registries.Registry.Register | crates/service-registry/src/registry.rs:86-109 | Accepted exactly for new names; the new state, and for every address the exact messages returned. |
| Registries.Registry.UpdateState | crates/service-registry/src/registry.rs:181-217 | Accepted exactly for valid transitions of known services; returns the old state; exact messages; exact errors. |
| Registries.Registry.Deregister | crates/service-registry/src/registry.rs:260-282 | Accepted exactly for known services; returns the entry; exact messages. |
| Registries.Registry.Subscribe | crates/service-registry/src/registry.rs:112-121 | Replaces the address's subscriptions. |
| Registries.Registry.Unsubscribe | crates/service-registry/src/registry.rs:124-136 | Removes the kinds, and the subscriber when none is left. |
| Registries.Registry.RemoveSubscriber | crates/service-registry/src/registry.rs:139-143 | Removes the subscriber. |
| Registries.Registry.EmitEvent | crates/service-registry/src/registry.rs:146-165 | Exactly one message to each subscriber of the kind and none to others, in any order. |
| Registries.NewEntry | crates/service-registry/src/models.rs:266-299 | An entry is built exactly when neither name nor version is blank, and is Registered. |
| Registries.LifePathsExactly | crates/service-registry/src/registry.rs:320-345 | A sequence of states is a path of valid transitions from Registered exactly when each state is one that may precede the next: Running comes only from Starting, Stopped only from Stopping, nothing returns to Registered. |
| Registries.LifePathsAlternate | crates/service-registry/src/registry.rs:320-345 | Between two times at which a service runs it starts, and between two starts it stops or fails. |
| Registries.HistoriesAreLifePaths | crates/service-registry/src/registry.rs:181-217 | Over any run each service's history is a path of valid transitions from Registered to its current state. |
| Registries.EventsRebuildStates | crates/service-registry/src/registry.rs:146-165 | Folding the events returned for an address subscribed throughout reproduces the current states of all services. |
| Registries.ObservedStep | crates/service-registry/src/registry.rs:86-109 | One operation's event, observed, changes the states exactly as the operation does. |
| Registries.RefusedLeaveNoTrace | crates/service-registry/src/registry.rs:86-109 | Over any run, leaving out the refused operations changes neither the states nor the events that any address is sent. |
| Managers.ServiceManager.constructor | crates/service-orchestration/src/manager.rs:39-85 | A new manager has no active service. |
| Managers.ServiceManager.StartService | crates/service-orchestration/src/manager.rs:99-178 | The active services, the monitors and the registry's entries in every case, with the exact success condition and errors. |
| Managers.ServiceManager.StopService | crates/service-orchestration/src/manager.rs:181-211 | The active services, the monitors and the registry's entries in every case, with the exact success condition and errors. |
| Managers.ServiceManager.GetServiceStatus | crates/service-orchestration/src/manager.rs:228-274 | An active service is Unhealthy exactly when its monitor says so, else Running; an inactive one is Running or Failed exactly when the registry says so, else Stopped. |
| Managers.ServiceManager.ListServices | crates/service-orchestration/src/manager.rs:277-280 | The active names. |
| Managers.StepKeepsRegistered | crates/service-orchestration/src/manager.rs:99-211 | Manager operations leave every registry entry Registered, and a stop changes no entry: Registered to Stopped is not a valid transition. |
| Managers.StoppedMeansInactive | crates/service-orchestration/src/manager.rs:228-280 | Over any run from a registry without other entries a status is Stopped exactly for names not listed active. |
| Managers.RecordedHealthIsReported | crates/service-orchestration/src/manager.rs:258-274 | Health recorded for a monitored active service decides its status, and that of no other service; without a monitor nothing changes. |
| Managers.RefusedChangesNothingExactlyWhen | crates/service-orchestration/src/manager.rs:99-211 | A refused operation changes nothing, except exactly a start that works under a blank name and a stop that the executor refuses; what these change is stated. |
| Managers.BelievedExactlyWhen | crates/service-orchestration/src/manager.rs:99-211 | At every point of a run the results of the calls tell which services are active, exactly when the run holds no such start and no such stop. |
| Managers.ActiveSinceLastStop | crates/service-orchestration/src/manager.rs:99-211 | After any run from an empty manager a service is active exactly when some start of it worked since it was last asked to stop. |
| Managers.BlankNameStaysActive | crates/service-orchestration/src/manager.rs:133-165 | A start under a blank name returns an error and leaves the service active, not reported stopped, and unregistered. |
| Managers.FailedStopReportsStopped | crates/service-orchestration/src/manager.rs:184-197 | A stop that the executor refuses returns an error, and leaves the service reported as stopped and its monitor in place. |
| Health.HealthMonitor.constructor | crates/service-orchestration/src/health.rs:101-108 | A new monitor has no failures and an unknown status. |
| Health.HealthMonitor.Check | crates/service-orchestration/src/health.rs:111-132 | A failure counts one more, a pass resets the counter; the status becomes the reported one except for a failure short of the retries. |
| Health.CheckHealth | crates/service-orchestration/src/health.rs:38-75 | A check passes exactly when its command was executed and succeeded, and is never unknown. |
| Health.StatusFollowsHistory | crates/service-orchestration/src/health.rs:111-132 | After any run of checks the counter is the length of the trailing failure streak; the status is the latest failure once the streak reaches the retries, else whether any check ever passed. |
| ProcessStream.ProcessEventStream.constructor | crates/command-executor/src/backends/launcher.rs:81-88 | A new stream has the pipes it is given and has not reported Started. |
| ProcessStream.ProcessEventStream.PollNext | crates/command-executor/src/backends/launcher.rs:250-315 | One poll meets the poll specification: Started first; ready output of stdout before any of stderr; each line is reported or filtered, never skipped; the end is reported exactly when both pipes are dropped; every poll makes progress. Event and pipes are spelled out for a kept line of stdout, a kept line of stderr behind a silent stdout, and two silent pipes. |
| ProcessStream.FilteredAppend | crates/command-executor/src/backends/launcher.rs:264-275 | Each line is replaced by what the filter makes of it, or dropped, in order. |
| ProcessStream.LinesUntilEnd | crates/command-executor/src/backends/launcher.rs:262-286 | A pipe gives the line of each reading before it is first closed or fails, and nothing after. |
| ProcessStream.LinesReadyAreFirst | crates/command-executor/src/backends/launcher.rs:262-286 | The lines ready are the longest run of lines at the front of the schedule. |
| ProcessStream.RunsConserve | crates/command-executor/src/backends/launcher.rs:250-315 | At every point of a run, what was emitted of a source followed by what is to come is the same: an order-preserving merge without loss or repetition. |
| ProcessStream.StartedOnceAndFirst | crates/command-executor/src/backends/launcher.rs:252-257 | Started is reported at the first poll and at no other. |
| ProcessStream.EndedForGood | crates/command-executor/src/backends/launcher.rs:307-310 | Once ended the stream stays ended, and everything that was to come has been emitted. |
| ProcessStream.StreamCompletes | crates/command-executor/src/backends/launcher.rs:250-315 | When both pipes close or fail, the stream ends within one poll per schedule entry and two more, having emitted exactly the filtered lines of each source. |
| ProcessStream.OnlyErrorsLoseLines | crates/command-executor/src/backends/launcher.rs:274-281 | The lines lost are exactly those after a read error. |
| Correlation.WsClient.constructor | crates/service-registry/src/client.rs:46-59 | A new client has no pending request. |
| Correlation.WsClient.Request | crates/service-registry/src/client.rs:277-303 | A request is registered under its id and, while the handler runs, queued behind the earlier ones; one that cannot be queued fails but stays registered. |
| Correlation.WsClient.Cancel | crates/service-registry/src/client.rs:296-302 | A request whose channel is dropped cleans up its id and fails. |
| Correlation.NoneIsCancelled | crates/service-registry/src/client.rs:268-303 | With fresh ids that never happens: in every run each uncompleted call is pending under its own id, and none is cancelled. |
| Correlation.QueuedExactly | crates/service-registry/src/client.rs:277-291 | In every run, what is queued for the server is exactly the requests made before the handler stopped, in order. |
| Correlation.SentCallsAreQueuedOnce | crates/service-registry/src/client.rs:277-291 | Every call that did not fail to be sent is queued just once, and the server may get its request at any time. |
| Correlation.WsClient.HandleMessage | crates/service-registry/src/client.rs:224-250 | A response completes the call registered under its id and unregisters it; anything else changes nothing. |
| Correlation.WsClient.Stop | crates/service-registry/src/client.rs:111-148 | Leaving the handler loop keeps the pending map. |
| Correlation.ConnectionHandler.constructor | crates/service-registry/src/websocket.rs:127-141 | A new connection has sent nothing and subscribed to nothing. |
| Correlation.ConnectionHandler.SendInitialState | crates/service-registry/src/websocket.rs:178-187 | The initial state is sent whether or not it is subscribed to. |
| Correlation.ConnectionHandler.Subscribe | crates/service-registry/src/websocket.rs:282-291 | The loop adds exactly the events named. |
| Correlation.ConnectionHandler.Unsubscribe | crates/service-registry/src/websocket.rs:304-314 | The loop removes exactly the events named. |
| Correlation.ConnectionHandler.HandleText | crates/service-registry/src/websocket.rs:141-223 | Exactly one response, under the request's own id, to a request; one error without an id to a text that does not parse; nothing to anything else. |
| Correlation.ConnectionHandler.SendResponse | crates/service-registry/src/websocket.rs:332-340 | Sends the data under the id. |
| Correlation.ConnectionHandler.SendErrorResponse | crates/service-registry/src/websocket.rs:343-355 | Sends the error under the id. |
| Correlation.ConnectionHandler.SendEvent | crates/service-registry/src/websocket.rs:364-377 | An event is sent exactly to a connection that has subscribed to it, and carries no id. |
| Correlation.RunsKeepInv | crates/service-registry/src/client.rs:224-303 | In every interleaving, with deliveries delayed, repeated, reordered or lost, a completed call was told what the server responded to that very request, and the pending ids are exactly those of the unanswered calls. |
| Correlation.ResponseBelongsToCall | crates/service-registry/src/websocket.rs:190-223 | A response on its way under a call's id was sent in answer to that call's request. |
| Correlation.CompletedByFirstResponse | crates/service-registry/src/client.rs:224-303 | The calls of a run are its requests in order, and each call's outcome is that of the first response delivered under its id, or the send failure when the handler had stopped before it; nothing else in the run matters. |
| Correlation.CompletedOnce | crates/service-registry/src/client.rs:224-303 | A call completes at most once: no later step changes its outcome. |
| Correlation.PendingIsUncompletedExactlyWhen | crates/service-registry/src/client.rs:268-303 | Every pending id belongs to an uncompleted call exactly when no request was made after the handler had stopped. |
| Correlation.FailedCallStaysPending | crates/service-registry/src/client.rs:277-292 | A run that leaves the id of a failed call in the pending map. |
| Correlation.ToldTheAnswer | crates/service-registry/src/websocket.rs:332-355 | A caller is told the server's answer, except that an answer of null is told as an empty response. |

## Left out

- StartRun.WaitForHealth: wall-clock time; how many status requests fit before the timeout of a service is an arbitrary number. The printed endpoint list is not modelled.
- StopRun.RunStop: the confirmation prompt is a parameter, and how many status requests fit before the timeout is an arbitrary number.
- Resolver.VariableRoundTrip: of a malformed variable only the kind of error is kept, and offsets count characters, not UTF-8 bytes.
- Printing.CommandReadsBack: for a program that starts with a blank or a line continuation, leaves a quotation open and has arguments, only the if part of the condition is stated; lossy conversion of operating-system strings is not modelled.
- Layers.StackDelivers: the theorem is about program and arguments. A command's own environment, directory and standard input are not printed by remote layers, and the execution context is ignored by all three.
- Layers.WrapSsh: a layer's environment is the sequence of its entries in iteration order.
- Shell grammar beyond simple commands joined by `&&`: redirections, here-documents, IO numbers, compound commands. Such texts have no reading.
- Correlation.WsClient.Request: ids are fresh and not empty, as random UUIDs are taken to be.
- Correlation.ConnectionHandler.HandleText: what an action's handler answers is arbitrary; failing sockets, ping frames and serialisation are not modelled.
- Health.HealthMonitor.Check: a failure needs the counter to be below its 32-bit maximum; scheduling of checks, and the separate `run_health_checks` of the manager, are not modelled.
- Managers.ServiceManager.StartService: network injection and finding an executor are one arbitrary result, and each operation is one atomic step.
- Registries.Registry.Register: of an entry only name and state are kept; endpoints, timestamps, persistence and `add_or_update`, which skips the transition rule, are left out.
- IpAllocation.IpAllocator.FindNextAvailable: the search needs base + 2 below the end of the address space, where the original's addition overflows; alignment of the network address is not needed by the proofs.
- ProcessStream.ProcessEventStream.PollNext: schedules are finite; wake-ups are not modelled.
- References.ConvertToOrchestrator: the start period of a health check, which the original does not convert either, and the unused `substitute_env_vars` and `substitute_service_refs`.
- Executors, process spawning, signals, sockets, TLS, storage, YAML and JSON, printing, discovery, deployment and the daemon's own services: foreign calls, formatting or placeholders.

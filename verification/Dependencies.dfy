/**
 Start and stop orders (crates/harness/src/commands/dependencies.rs).

 Hash maps and hash sets are enumerated by `:|`, so every contract holds for every enumeration
 order. The two depth-first searches and the two closure collectors share state through
 `&mut` parameters in the original; here that state is the fields of Traversal and Collector.
 */
module Dependencies {
  import opened Common
  import opened Graphs
  import opened Config

  datatype SortError =
    | CircularDependency(service: string)
    | UnknownDependency(dependent: string, dependency: string)

  /** No node reachable from the roots lies on a cycle. */
  ghost predicate AcyclicFrom(g: Graph, roots: set<string>) {
    forall n :: ReachableFrom(g, roots, n) ==> !OnCycle(g, n)
  }

  /** Every node reachable from the roots is configured. */
  ghost predicate ConfiguredFrom(g: Graph, roots: set<string>) {
    forall n :: ReachableFrom(g, roots, n) ==> n in g
  }

  /** Each node of the closure of the roots exactly once, after all of its successors. */
  ghost predicate IsOrderOf(g: Graph, roots: set<string>, order: seq<string>) {
    NoDuplicates(order) && SuccessorsFirst(g, order) && IsClosure(g, roots, Elems(order))
  }

  // ----- Closure collectors -----

  /** The set `collected` that the collectors grow. */
  class Collector {
    var collected: set<string>

    constructor ()
      ensures collected == {}
    {
      collected := {};
    }

    /** Every collected node outside `open` has all of its successors collected. */
    ghost predicate ClosedBut(g: Graph, open: set<string>)
      reads this
    {
      forall n :: n in collected ==> n in open || Succ(g, n) <= collected
    }

    method CollectDependencies(c: Config, service: string, ghost open: set<string>) returns (r: Result<(), SortError>)
      requires ClosedBut(DependencyGraph(c), open + {service})
      modifies this
      ensures old(collected) <= collected
      ensures r.Ok? ==> Succ(DependencyGraph(c), service) <= collected
      ensures r.Ok? ==> ClosedBut(DependencyGraph(c), open)
      ensures collected - old(collected) <= c.services.Keys
      ensures forall t {:trigger Closed(DependencyGraph(c), t)} ::
              Closed(DependencyGraph(c), t) && old(collected) + {service} <= t ==> collected <= t
      ensures r.Err? ==> IsUnknownDependency(DependencyGraph(c), r.error) && r.error.dependency !in old(collected)
      ensures r.Err? ==>
              forall t {:trigger Closed(DependencyGraph(c), t)} ::
                  Closed(DependencyGraph(c), t) && old(collected) + {service} <= t ==> r.error.dependent in t
      decreases c.services.Keys - collected
    {
      ghost var g := DependencyGraph(c);
      if service in c.services {
        var deps := c.services[service].dependencies;
        for i := 0 to |deps|
          invariant old(collected) <= collected
          invariant Elems(deps[..i]) <= collected
          invariant ClosedBut(g, open + {service})
          invariant collected - old(collected) <= c.services.Keys
          invariant forall t {:trigger Closed(g, t)} :: Closed(g, t) && old(collected) + {service} <= t ==>
                    collected <= t
        {
          var dep := deps[i];
          assert dep in Succ(g, service);
          if dep !in collected {
            if dep !in c.services {
              return Err(UnknownDependency(service, dep));
            }
            collected := collected + {dep};
            r := CollectDependencies(c, dep, open + {service});
            if r.Err? {
              return;
            }
          }
          assert deps[..i + 1] == deps[..i] + [dep];
        }
        assert deps[..|deps|] == deps;
      }
      return Ok(());
    }

    method CollectDependents(g: Graph, service: string, ghost open: set<string>)
      requires ClosedBut(g, open + {service})
      modifies this
      ensures old(collected) <= collected
      ensures Succ(g, service) <= collected
      ensures ClosedBut(g, open)
      ensures forall t {:trigger Closed(g, t)} :: Closed(g, t) && old(collected) + {service} <= t ==> collected <= t
      decreases Nodes(g) - collected
    {
      if service in g {
        var todo := g[service];
        while todo != {}
          invariant old(collected) <= collected
          invariant todo <= g[service] && g[service] - todo <= collected
          invariant ClosedBut(g, open + {service})
          invariant forall t {:trigger Closed(g, t)} :: Closed(g, t) && old(collected) + {service} <= t ==>
                    collected <= t
          decreases todo
        {
          var dependent :| dependent in todo;
          todo := todo - {dependent};
          assert dependent in Succ(g, service);
          if dependent !in collected {
            collected := collected + {dependent};
            CollectDependents(g, dependent, open + {service});
          }
        }
      }
    }
  }

  /** The error names a configured service and one of its dependencies that is not configured. */
  ghost predicate IsUnknownDependency(g: Graph, e: SortError) {
    e.UnknownDependency? && e.dependency in Succ(g, e.dependent) && e.dependency !in g
  }

  /** The error exhibits a node reachable from the roots: one on a cycle, or one with an unconfigured successor. */
  ghost predicate IsRealError(g: Graph, roots: set<string>, e: SortError) {
    match e
    case CircularDependency(n) => ReachableFrom(g, roots, n) && OnCycle(g, n)
    case UnknownDependency(n, _) => ReachableFrom(g, roots, n) && IsUnknownDependency(g, e)
  }

  // ----- Depth-first searches -----

  /** The `visited`, `visiting` and `result` that the depth-first searches share. */
  class Traversal {
    var visited: set<string>
    var visiting: set<string>
    var result: seq<string>
    ghost var stack: seq<string>  // the nodes being visited, in the order they were entered

    constructor ()
      ensures visited == {} && visiting == {} && result == [] && stack == []
    {
      visited, visiting, result, stack := {}, {}, [], [];
    }

    ghost predicate Valid(g: Graph)
      reads this
    {
      && visited == Elems(result) && visiting == Elems(stack)
      && ValidSearch(g, result, stack)
    }

    /** `service` may be entered now: the search starts here, or it is a successor of the last node entered. */
    ghost predicate MayEnter(g: Graph, service: string)
      reads this
    {
      service !in visited && (stack == [] || service in Succ(g, stack[|stack| - 1]))
    }

    /** Only nodes that every closed set around `service` contains have been added to `before`. */
    ghost predicate AddedBelow(g: Graph, service: string, before: set<string>)
      reads this
    {
      forall t {:trigger Closed(g, t)} :: Closed(g, t) && service in t ==> visited <= before + t
    }

    method DfsForward(c: Config, service: string, ghost g: Graph) returns (r: Result<(), SortError>)
      requires g == DependencyGraph(c)
      requires Valid(g) && MayEnter(g, service)
      modifies this
      ensures r.Ok? ==> Valid(g) && stack == old(stack)
      ensures r.Ok? ==> old(visited) + {service} <= visited && AddedBelow(g, service, old(visited))
      ensures r.Err? ==> r.error.CircularDependency? && OnCycle(g, r.error.service)
      ensures r.Err? ==> Reaches(g, service, r.error.service)
      decreases Nodes(g) + {service} - visiting
    {
      ReachesSelf(g, service);
      if service in visiting {
        ReentryIsCycle(g, stack, service);
        return Err(CircularDependency(service));
      }
      EnterNode(g, result, stack, service);
      visiting := visiting + {service};
      stack := stack + [service];
      if service in c.services {
        var deps := c.services[service].dependencies;
        assert Succ(g, service) == Elems(deps);
        for i := 0 to |deps|
          invariant Valid(g) && stack == old(stack) + [service]
          invariant old(visited) <= visited && AddedBelow(g, service, old(visited))
          invariant forall j :: 0 <= j < i ==> deps[j] in visited
        {
          var dep := deps[i];
          assert dep in Succ(g, service);
          if dep !in visited {
            r := DfsForward(c, dep, g);
            if r.Err? {
              ReachesVia(g, service, dep, r.error.service);
              return;
            }
          }
        }
      }
      LeaveNode(g, result, old(stack), service);
      visiting := visiting - {service};
      visited := visited + {service};
      result := result + [service];
      stack := old(stack);
      return Ok(());
    }

    method DfsReverse(g: Graph, service: string) returns (r: Result<(), SortError>)
      requires Valid(g) && MayEnter(g, service)
      modifies this
      ensures r.Ok? ==> Valid(g) && stack == old(stack)
      ensures r.Ok? ==> old(visited) + {service} <= visited && AddedBelow(g, service, old(visited))
      ensures r.Err? ==> r.error.CircularDependency? && OnCycle(g, r.error.service)
      ensures r.Err? ==> Reaches(g, service, r.error.service)
      decreases Nodes(g) + {service} - visiting
    {
      ReachesSelf(g, service);
      if service in visiting {
        ReentryIsCycle(g, stack, service);
        return Err(CircularDependency(service));
      }
      EnterNode(g, result, stack, service);
      visiting := visiting + {service};
      stack := stack + [service];
      if service in g {
        var todo := g[service];
        while todo != {}
          invariant Valid(g) && stack == old(stack) + [service]
          invariant todo <= g[service] && old(visited) + (g[service] - todo) <= visited
          invariant AddedBelow(g, service, old(visited))
          decreases todo
        {
          var dependent :| dependent in todo;
          todo := todo - {dependent};
          assert dependent in Succ(g, service);
          if dependent !in visited {
            r := DfsReverse(g, dependent);
            if r.Err? {
              ReachesVia(g, service, dependent, r.error.service);
              return;
            }
          }
        }
      }
      LeaveNode(g, result, old(stack), service);
      visiting := visiting - {service};
      visited := visited + {service};
      result := result + [service];
      stack := old(stack);
      return Ok(());
    }
  }

  /** The result is an order of what it holds, and the nodes on the stack form a path outside it. */
  ghost predicate ValidSearch(g: Graph, result: seq<string>, stack: seq<string>) {
    && NoDuplicates(result) && SuccessorsFirst(g, result)
    && NoDuplicates(stack) && Elems(stack) !! Elems(result)
    && (stack != [] ==> IsPath(g, stack))
  }

  lemma NewSearch(g: Graph)
    ensures ValidSearch(g, [], [])
  {
  }

  lemma EnterNode(g: Graph, result: seq<string>, stack: seq<string>, n: string)
    requires ValidSearch(g, result, stack)
    requires n !in result && n !in stack && (stack == [] || n in Succ(g, stack[|stack| - 1]))
    ensures ValidSearch(g, result, stack + [n])
    ensures Elems(stack + [n]) == Elems(stack) + {n}
  {
    var longer := stack + [n];
    forall i | 0 <= i < |longer| - 1
      ensures longer[i + 1] in Succ(g, longer[i])
    {
      if i < |stack| - 1 {
        assert stack[i + 1] in Succ(g, stack[i]);
      }
    }
  }

  lemma LeaveNode(g: Graph, result: seq<string>, stack: seq<string>, n: string)
    requires ValidSearch(g, result, stack + [n]) && Succ(g, n) <= Elems(result)
    ensures ValidSearch(g, result + [n], stack)
    ensures Elems(result + [n]) == Elems(result) + {n} && Elems(stack + [n]) - {n} == Elems(stack)
  {
    var pushed, longer := stack + [n], result + [n];
    assert forall i :: 0 <= i < |stack| ==> stack[i] == pushed[i];
    assert pushed[|stack|] == n && n in Elems(pushed) && n !in Elems(result) && n !in stack;
    assert forall x :: x in stack ==> x in Elems(pushed);
    forall i | 0 <= i < |longer|
      ensures Succ(g, longer[i]) <= Elems(longer[..i])
    {
      assert longer[..i] == result[..i];
    }
    forall i | 0 <= i < |stack| - 1
      ensures stack[i + 1] in Succ(g, stack[i])
    {
      assert pushed[i + 1] in Succ(g, pushed[i]);
    }
  }

  /** A node met again while it is being visited closes a cycle. */
  lemma ReentryIsCycle(g: Graph, stack: seq<string>, service: string)
    requires IsPath(g, stack) && service in stack && service in Succ(g, stack[|stack| - 1])
    ensures OnCycle(g, service)
  {
    var k :| 0 <= k < |stack| && stack[k] == service;
    var p := stack[k..] + [service];
    forall i | 0 <= i < |p| - 1
      ensures p[i + 1] in Succ(g, p[i])
    {
      if i < |p| - 2 {
        assert stack[(k + i) + 1] in Succ(g, stack[k + i]);
      }
    }
    assert PathBetween(g, p, service, service);
  }

  lemma ReachesVia(g: Graph, a: string, b: string, n: string)
    requires b in Succ(g, a) && Reaches(g, b, n)
    ensures Reaches(g, a, n)
  {
    var p :| PathBetween(g, p, b, n);
    var q := [a] + p;
    forall i | 0 <= i < |q| - 1
      ensures q[i + 1] in Succ(g, q[i])
    {
      if i > 0 {
        assert p[(i - 1) + 1] in Succ(g, p[i - 1]);
      }
    }
    assert PathBetween(g, q, a, n);
  }

  // ----- Entry points -----

  lemma OrderIsClosed(g: Graph, order: seq<string>)
    requires SuccessorsFirst(g, order)
    ensures Closed(g, Elems(order))
  {
  }


  function StartRoots(c: Config, services: seq<string>): set<string> {
    if services == [] then c.services.Keys else Elems(services)
  }

  method BuildDependencyGraph(c: Config) returns (graph: Graph)
    ensures graph == DependentsGraph(c)
  {
    graph := map s | s in c.services :: {};
    var todo := c.services.Keys;
    while todo != {}
      invariant todo <= c.services.Keys && graph.Keys == c.services.Keys
      invariant forall d, s :: d in graph ==>
                (s in graph[d] <==> s in c.services && s !in todo && d in c.services[s].dependencies)
      decreases todo
    {
      var service :| service in todo;
      todo := todo - {service};
      var deps := c.services[service].dependencies;
      ghost var before := graph;
      for i := 0 to |deps|
        invariant graph.Keys == c.services.Keys
        invariant forall d, s :: d in graph ==> (s in graph[d] <==> s in before[d] || (s == service && d in deps[..i]))
      {
        if deps[i] in graph {
          graph := graph[deps[i] := graph[deps[i]] + {service}];
        }
        assert deps[..i + 1] == deps[..i] + [deps[i]];
      }
      assert deps[..|deps|] == deps;
    }
    forall d | d in graph
      ensures graph[d] == DependentsGraph(c)[d]
    {
    }
  }

  lemma RealErrorsRefute(g: Graph, roots: set<string>, e: SortError)
    requires IsRealError(g, roots, e)
    ensures e.CircularDependency? ==> !AcyclicFrom(g, roots)
    ensures e.UnknownDependency? ==> !ConfiguredFrom(g, roots)
  {
    if e.UnknownDependency? {
      ReachesSelf(g, e.dependent);
      ReachesStep(g, e.dependent, e.dependent, e.dependency);
      ReachableThrough(g, roots, e.dependent, e.dependency);
    }
  }

  lemma OrdersCoverAcyclicParts(g: Graph, roots: set<string>, order: seq<string>)
    requires IsOrderOf(g, roots, order)
    ensures AcyclicFrom(g, roots)
    ensures Elems(order) <= g.Keys <==> ConfiguredFrom(g, roots)
  {
    OrdersAreAcyclic(g, order);
    ClosureIsReachability(g, roots, Elems(order));
  }

  /** What the first n requested services reach is configured, or was itself requested no later than they were. */
  ghost predicate Announced(g: Graph, services: seq<string>, n: nat)
    requires n <= |services|
  {
    forall i, d :: 0 <= i < n && Reaches(g, services[i], d) ==> d in g || d in services[..i + 1]
  }

  lemma NothingAnnounced(g: Graph, services: seq<string>)
    ensures Announced(g, services, 0)
  {
  }

  lemma CollectedIsAnnounced(g: Graph, services: seq<string>, i: nat, collected: set<string>)
    requires i < |services| && Announced(g, services, i) && Closed(g, collected)
    requires services[i] in collected && collected <= Elems(services[..i + 1]) + g.Keys
    ensures Announced(g, services, i + 1)
  {
    forall d | Reaches(g, services[i], d)
      ensures d in g || d in services[..i + 1]
    {
      assert ReachableFrom(g, {services[i]}, d);
      ReachableInClosedSets(g, {services[i]}, collected, d);
    }
  }

  lemma UnknownIsNotAnnounced(g: Graph, services: seq<string>, i: nat, e: SortError)
    requires i < |services| && IsUnknownDependency(g, e) && e.dependency !in services[..i + 1]
    requires ReachableFrom(g, Elems(services[..i + 1]), e.dependent)
    ensures ReachableFrom(g, Elems(services), e.dependent)
    ensures !Announced(g, services, |services|)
  {
    var root :| root in Elems(services[..i + 1]) && Reaches(g, root, e.dependent);
    var j :| 0 <= j <= i && services[j] == root;
    assert root in Elems(services);
    ReachesStep(g, root, e.dependent, e.dependency);
    assert services[..j + 1] <= services[..i + 1];
  }

  /**
   A finished search that holds the roots, and nothing that some closed set around them does not, is an order
   of them.
   */
  lemma SearchIsOrder(g: Graph, roots: set<string>, result: seq<string>)
    requires ValidSearch(g, result, []) && roots <= Elems(result)
    requires forall t {:trigger Closed(g, t)} :: Closed(g, t) && roots <= t ==> Elems(result) <= t
    ensures IsOrderOf(g, roots, result)
  {
    OrderIsClosed(g, result);
  }

  lemma CycleIsReal(g: Graph, roots: set<string>, service: string, e: SortError)
    requires forall t {:trigger Closed(g, t)} :: Closed(g, t) && roots <= t ==> service in t
    requires e.CircularDependency? && OnCycle(g, e.service) && Reaches(g, service, e.service)
    ensures IsRealError(g, roots, e)
  {
    InEveryClosedSetIsReachable(g, roots, service);
    ReachableThrough(g, roots, service, e.service);
  }

  lemma SortedMeans(c: Config, services: seq<string>, order: seq<string>)
    requires IsOrderOf(DependencyGraph(c), StartRoots(c, services), order)
    requires Announced(DependencyGraph(c), services, |services|)
    ensures var g, roots := DependencyGraph(c), StartRoots(c, services);
      && AcyclicFrom(g, roots)
      && (Elems(services) <= c.services.Keys && services != [] ==> ConfiguredFrom(g, roots))
      && (services == [] ==> !Cyclic(g))
  {
    var g, roots := DependencyGraph(c), StartRoots(c, services);
    OrdersCoverAcyclicParts(g, roots, order);
    if services == [] {
      WholeConfigurationIsAcyclic(g);
      assert roots == g.Keys;
    } else if Elems(services) <= c.services.Keys {
      forall d | ReachableFrom(g, roots, d)
        ensures d in g
      {
        var r :| r in roots && Reaches(g, r, d);
        var i :| 0 <= i < |services| && services[i] == r;
        assert d in services[..i + 1] ==> d in Elems(services);
      }
    }
  }

  lemma RefusedMeans(c: Config, services: seq<string>, e: SortError)
    requires IsRealError(DependencyGraph(c), StartRoots(c, services), e)
    requires e.UnknownDependency? ==> services != [] && !Announced(DependencyGraph(c), services, |services|)
    ensures var g, roots := DependencyGraph(c), StartRoots(c, services);
      && !(AcyclicFrom(g, roots) && Announced(g, services, |services|))
      && !(AcyclicFrom(g, roots) && (services != [] ==> ConfiguredFrom(g, roots)))
      && (services == [] ==> Cyclic(g))
  {
    hide Announced;
    var g, roots := DependencyGraph(c), StartRoots(c, services);
    RealErrorsRefute(g, roots, e);
  }

  /** For `a` with an unconfigured dependency `x`, the order of the request decides. */
  lemma RequestOrderMatters(g: Graph)
    requires g == map["a" := {"x"}]
    ensures !Announced(g, ["a", "x"], 2) && Announced(g, ["x", "a"], 2)
  {
    ReachesSelf(g, "a");
    ReachesStep(g, "a", "a", "x");
    assert !("x" in g || "x" in ["a", "x"][..0 + 1]) && Reaches(g, ["a", "x"][0], "x");
    assert ["x", "a"][..1] == ["x"] && ["x", "a"][..2] == ["x", "a"];
    forall i, d | 0 <= i < 2 && Reaches(g, ["x", "a"][i], d)
      ensures d in g || d in ["x", "a"][..i + 1]
    {
      assert ReachableFrom(g, {["x", "a"][i]}, d);
      ReachableInClosedSets(g, {["x", "a"][i]}, if i == 0 then {"x"} else {"x", "a"}, d);
    }
  }

  /** Start order: dependencies first. An empty request means every configured service. */
  method TopologicalSort(c: Config, services: seq<string>) returns (r: Result<seq<string>, SortError>)
    ensures r.Ok? ==> IsOrderOf(DependencyGraph(c), StartRoots(c, services), r.value)
    ensures r.Ok? ==>
            IsOrderOf(DependencyGraph(c), if services == [] then c.services.Keys else Elems(services), r.value)
    ensures r.Err? ==> IsRealError(DependencyGraph(c), StartRoots(c, services), r.error)
    ensures Elems(services) <= c.services.Keys ==>
              (r.Ok? <==> AcyclicFrom(DependencyGraph(c), StartRoots(c, services))
                          && (services != [] ==> ConfiguredFrom(DependencyGraph(c), StartRoots(c, services))))
    ensures r.Ok? <==>
            AcyclicFrom(DependencyGraph(c), StartRoots(c, services))
                && Announced(DependencyGraph(c), services, |services|)
    ensures services == [] ==> (r.Ok? <==> !Cyclic(DependencyGraph(c)))
  {
    hide Cyclic, AcyclicFrom, ConfiguredFrom, Announced, OnCycle, Reaches, ReachableFrom, IsUnknownDependency;
    hide IsOrderOf, IsClosure, ValidSearch, SuccessorsFirst, NoDuplicates, IsPath;
    NothingAnnounced(DependencyGraph(c), services);
    ghost var g, roots := DependencyGraph(c), StartRoots(c, services);
    var toStart := c.services.Keys;
    if services != [] {
      var toStartSet := new Collector();
      for i := 0 to |services|
        invariant Elems(services[..i]) <= toStartSet.collected <= Elems(services[..i]) + c.services.Keys
        invariant toStartSet.ClosedBut(g, {}) && Announced(g, services, i)
        invariant forall t {:trigger Closed(g, t)} :: Closed(g, t) && Elems(services[..i]) <= t ==>
                  toStartSet.collected <= t
      {
        toStartSet.collected := toStartSet.collected + {services[i]};
        assert services[..i + 1] == services[..i] + [services[i]];
        var collected := toStartSet.CollectDependencies(c, services[i], {});
        if collected.Err? {
          InEveryClosedSetIsReachable(g, Elems(services[..i + 1]), collected.error.dependent);
          UnknownIsNotAnnounced(g, services, i, collected.error);
          RefusedMeans(c, services, collected.error);
          return Err(collected.error);
        }
        CollectedIsAnnounced(g, services, i, toStartSet.collected);
      }
      assert services[..|services|] == services;
      toStart := toStartSet.collected;
    }
    ghost var all := toStart;
    var traversal := new Traversal();
    NewSearch(g);
    while toStart != {}
      invariant traversal.Valid(g) && traversal.stack == []
      invariant toStart <= all && all - toStart <= traversal.visited
      invariant forall t {:trigger Closed(g, t)} :: Closed(g, t) && roots <= t ==> traversal.visited <= t
      decreases toStart
    {
      var service :| service in toStart;
      toStart := toStart - {service};
      if service !in traversal.visited {
        var visited := traversal.DfsForward(c, service, g);
        if visited.Err? {
          CycleIsReal(g, roots, service, visited.error);
          RefusedMeans(c, services, visited.error);
          return Err(visited.error);
        }
      }
    }
    SearchIsOrder(g, roots, traversal.result);
    SortedMeans(c, services, traversal.result);
    return Ok(traversal.result);
  }

  /** Stop order: dependents first. An empty request means every configured service. */
  method ReverseTopologicalSort(c: Config, services: seq<string>) returns (r: Result<seq<string>, SortError>)
    ensures r.Ok? ==> IsOrderOf(DependentsGraph(c), StartRoots(c, services), r.value)
    ensures r.Ok? ==>
            IsOrderOf(DependentsGraph(c), if services == [] then c.services.Keys else Elems(services), r.value)
    ensures r.Err? ==> r.error.CircularDependency? && IsRealError(DependentsGraph(c), StartRoots(c, services), r.error)
    ensures r.Ok? <==> AcyclicFrom(DependentsGraph(c), StartRoots(c, services))
    ensures services == [] ==> (r.Ok? <==> !Cyclic(DependentsGraph(c)))
  {
    hide Cyclic, OnCycle, Reaches, ReachableFrom, IsOrderOf;
    hide IsClosure, ValidSearch, SuccessorsFirst, NoDuplicates, IsPath;
    WholeConfigurationIsAcyclic(DependentsGraph(c));
    ghost var roots := StartRoots(c, services);
    var g := BuildDependencyGraph(c);
    var toStop := c.services.Keys;
    assert g.Keys == c.services.Keys;
    if services != [] {
      var toStopSet := new Collector();
      for i := 0 to |services|
        invariant Elems(services[..i]) <= toStopSet.collected
        invariant toStopSet.ClosedBut(g, {})
        invariant forall t {:trigger Closed(g, t)} :: Closed(g, t) && roots <= t ==> toStopSet.collected <= t
      {
        toStopSet.collected := toStopSet.collected + {services[i]};
        assert services[..i + 1] == services[..i] + [services[i]];
        toStopSet.CollectDependents(g, services[i], {});
      }
      assert services[..|services|] == services;
      toStop := toStopSet.collected;
    }
    ghost var all := toStop;
    var traversal := new Traversal();
    NewSearch(g);
    while toStop != {}
      invariant traversal.Valid(g) && traversal.stack == []
      invariant toStop <= all && all - toStop <= traversal.visited
      invariant forall t {:trigger Closed(g, t)} :: Closed(g, t) && roots <= t ==> traversal.visited <= t
      decreases toStop
    {
      var service :| service in toStop;
      toStop := toStop - {service};
      if service !in traversal.visited {
        var visited := traversal.DfsReverse(g, service);
        if visited.Err? {
          CycleIsReal(g, roots, service, visited.error);
          RealErrorsRefute(g, roots, visited.error);
          return Err(visited.error);
        }
      }
    }
    SearchIsOrder(g, roots, traversal.result);
    OrdersCoverAcyclicParts(g, roots, traversal.result);
    return Ok(traversal.result);
  }

  /** The services that stopping the given ones would affect, in alphabetical order. */
  method GetAffectedServices(c: Config, services: seq<string>) returns (affected: seq<string>)
    ensures Elems(affected) !! Elems(services) && IsSorted(affected) && NoDuplicates(affected)
    ensures IsClosure(DependentsGraph(c), Elems(services), Elems(services) + Elems(affected))
  {
    ghost var roots := Elems(services);
    var g := BuildDependencyGraph(c);
    var collector := new Collector();
    for i := 0 to |services|
      invariant collector.ClosedBut(g, {})
      invariant forall s :: s in services[..i] ==> Succ(g, s) <= collector.collected
      invariant forall t {:trigger Closed(g, t)} :: Closed(g, t) && roots <= t ==> collector.collected <= t
    {
      collector.CollectDependents(g, services[i], {});
      assert services[..i + 1] == services[..i] + [services[i]];
    }
    assert services[..|services|] == services;
    var affectedSet := collector.collected - Elems(services);
    assert Elems(services) + affectedSet == Elems(services) + collector.collected;
    affected := Sort(affectedSet);
  }

  // ----- What the orders mean -----

  /** Sorting the whole configuration fails exactly when the dependency relation has a cycle. */
  lemma WholeConfigurationIsAcyclic(g: Graph)
    ensures AcyclicFrom(g, g.Keys) <==> !Cyclic(g)
  {
    forall n | OnCycle(g, n)
      ensures ReachableFrom(g, g.Keys, n)
    {
      var p :| PathBetween(g, p, n, n) && |p| >= 2;
      assert p[0 + 1] in Succ(g, p[0]);
      ReachesSelf(g, n);
    }
  }

  /** A path of dependencies between configured services is a path of dependents read backwards. */
  lemma PathsReverse(c: Config, p: seq<string>)
    requires |p| > 0
    ensures IsPath(DependentsGraph(c), Reversed(p)) <==>
            IsPath(DependencyGraph(c), p) && (|p| > 1 ==> p[|p| - 1] in c.services)
  {
    var g, h, q := DependencyGraph(c), DependentsGraph(c), Reversed(p);
    if IsPath(h, q) {
      forall i | 0 <= i < |p| - 1
        ensures p[i + 1] in Succ(g, p[i])
      {
        assert q[(|p| - 2 - i) + 1] in Succ(h, q[|p| - 2 - i]);
      }
      if |p| > 1 {
        assert q[0 + 1] in Succ(h, q[0]);
      }
    }
    if IsPath(g, p) && (|p| > 1 ==> p[|p| - 1] in c.services) {
      forall i | 0 <= i < |p| - 1
        ensures q[i + 1] in Succ(h, q[i])
      {
        var k := |p| - 2 - i;
        assert p[k + 1] in Succ(g, p[k]);
        if k + 1 < |p| - 1 {
          assert p[(k + 1) + 1] in Succ(g, p[k + 1]);
        }
      }
    }
  }

  /** The dependents of a configured service are the services that transitively depend on it. */
  lemma DependentsAreTransitive(c: Config, s: string, n: string)
    requires s in c.services
    ensures Reaches(DependentsGraph(c), s, n) <==> Reaches(DependencyGraph(c), n, s)
  {
    var g, h := DependencyGraph(c), DependentsGraph(c);
    if Reaches(h, s, n) {
      var q :| PathBetween(h, q, s, n);
      assert Reversed(Reversed(q)) == q;
      PathsReverse(c, Reversed(q));
      assert PathBetween(g, Reversed(q), n, s);
    }
    if Reaches(g, n, s) {
      var p :| PathBetween(g, p, n, s);
      PathsReverse(c, p);
      if |p| == 1 {
        assert PathBetween(h, p, s, n);
      } else {
        assert PathBetween(h, Reversed(p), s, n);
      }
    }
  }

  /** Both sorts meet the same cycles: a service is on a dependency cycle iff it is on a cycle of dependents. */
  lemma CyclesReverse(c: Config, n: string)
    ensures OnCycle(DependencyGraph(c), n) <==> OnCycle(DependentsGraph(c), n)
  {
    var g, h := DependencyGraph(c), DependentsGraph(c);
    if OnCycle(g, n) {
      var p :| PathBetween(g, p, n, n) && |p| >= 2;
      assert p[0 + 1] in Succ(g, p[0]);
      PathsReverse(c, p);
      assert PathBetween(h, Reversed(p), n, n);
    }
    if OnCycle(h, n) {
      var q :| PathBetween(h, q, n, n) && |q| >= 2;
      assert Reversed(Reversed(q)) == q;
      PathsReverse(c, Reversed(q));
      assert PathBetween(g, Reversed(q), n, n);
    }
  }

  /** A stop order holds exactly the requested services and the ones they affect. */
  lemma StopOrderIsRequestAndAffected(c: Config, services: seq<string>, order: seq<string>, affected: set<string>)
    requires services != [] && IsOrderOf(DependentsGraph(c), StartRoots(c, services), order)
    requires affected !! Elems(services) && IsClosure(DependentsGraph(c), Elems(services), Elems(services) + affected)
    ensures Elems(order) == Elems(services) + affected
    ensures Elems(services) <= c.services.Keys ==> forall n :: n in affected <==>
              n !in services && exists s :: s in services && Reaches(DependencyGraph(c), n, s)
  {
    var h := DependentsGraph(c);
    ClosuresAreUnique(h, Elems(services), Elems(order), Elems(services) + affected);
    ClosureIsReachability(h, Elems(services), Elems(order));
    if Elems(services) <= c.services.Keys {
      forall n | n !in services
        ensures n in affected <==> exists s :: s in services && Reaches(DependencyGraph(c), n, s)
      {
        forall s | s in services
          ensures Reaches(h, s, n) <==> Reaches(DependencyGraph(c), n, s)
        {
          DependentsAreTransitive(c, s, n);
        }
        assert n in affected <==> ReachableFrom(h, Elems(services), n);
      }
    }
  }

  /** Each service comes after those of its dependencies that are configured and in the order. */
  ghost predicate DependenciesFirstWithin(c: Config, order: seq<string>) {
    forall i, d :: 0 <= i < |order| && d in Succ(DependencyGraph(c), order[i]) && d in order && d in c.services
      ==> d in order[..i]
  }

  /** Read backwards, a stop order starts each service after those of its dependencies that are in the order. */
  lemma StopOrderReversedStarts(c: Config, roots: set<string>, order: seq<string>)
    requires IsOrderOf(DependentsGraph(c), roots, order)
    ensures NoDuplicates(Reversed(order)) && DependenciesFirstWithin(c, Reversed(order))
  {
    var g, h, start, n := DependencyGraph(c), DependentsGraph(c), Reversed(order), |order|;
    forall i, d | 0 <= i < n && d in Succ(g, start[i]) && d in order && d in c.services
      ensures d in start[..i]
    {
      var j :| 0 <= j < n && order[j] == d;
      assert start[i] in Succ(h, order[j]);
      var k :| 0 <= k < j && order[k] == start[i];
      assert order[n - 1 - i] == order[k];
      assert start[n - 1 - j] == d;
    }
    assert forall d :: d in start ==> d in order;
  }

  /** The reversal of a stop order of a whole validated configuration is one of its start orders. */
  lemma WholeStopOrderReversed(c: Config, order: seq<string>)
    requires DependenciesConfigured(c)
    requires IsOrderOf(DependentsGraph(c), c.services.Keys, order)
    ensures IsOrderOf(DependencyGraph(c), c.services.Keys, Reversed(order))
  {
    assert Closed(DependentsGraph(c), c.services.Keys) && Closed(DependencyGraph(c), c.services.Keys);
    StopOrderReversedStarts(c, c.services.Keys, order);
    ReversedElems(order);
  }

  lemma ReversedElems<T>(s: seq<T>)
    ensures Elems(Reversed(s)) == Elems(s)
  {
    forall x | x in s
      ensures x in Reversed(s)
    {
      var j :| 0 <= j < |s| && s[j] == x;
      assert Reversed(s)[|s| - 1 - j] == x;
    }
  }
}

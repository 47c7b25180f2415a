/**
 Finite directed graphs over service names. A name without an entry is a leaf, as it is for the
 traversals of crates/harness/src/commands/dependencies.rs.
 */
module Graphs {
  import opened Common

  type Graph = map<string, set<string>>

  function Succ(g: Graph, n: string): set<string> {
    if n in g then g[n] else {}
  }

  /** Every node of p but the first is a successor of the node before it. */
  ghost predicate IsPath(g: Graph, p: seq<string>) {
    |p| > 0 && forall i :: 0 <= i < |p| - 1 ==> p[i + 1] in Succ(g, p[i])
  }

  ghost predicate PathBetween(g: Graph, p: seq<string>, a: string, b: string) {
    IsPath(g, p) && p[0] == a && p[|p| - 1] == b
  }

  ghost predicate Reaches(g: Graph, a: string, b: string) {
    exists p :: PathBetween(g, p, a, b)
  }

  ghost predicate ReachableFrom(g: Graph, roots: set<string>, n: string) {
    exists r :: r in roots && Reaches(g, r, n)
  }

  /** n lies on a cycle; a self-loop is a cycle. */
  ghost predicate OnCycle(g: Graph, n: string) {
    exists p :: PathBetween(g, p, n, n) && |p| >= 2
  }

  ghost predicate Cyclic(g: Graph) {
    exists n :: OnCycle(g, n)
  }

  ghost predicate Closed(g: Graph, s: set<string>) {
    forall n :: n in s ==> Succ(g, n) <= s
  }

  /** s is the least set that contains the roots and is closed under successors. */
  ghost predicate IsClosure(g: Graph, roots: set<string>, s: set<string>) {
    && roots <= s
    && Closed(g, s)
    && forall t {:trigger Closed(g, t)} :: Closed(g, t) && roots <= t ==> s <= t
  }

  /** Each node of the order comes after all of its successors. */
  ghost predicate SuccessorsFirst(g: Graph, order: seq<string>) {
    forall i :: 0 <= i < |order| ==> Succ(g, order[i]) <= Elems(order[..i])
  }

  /** A set that contains the graph's nodes and all their successors. */
  function Nodes(g: Graph): (s: set<string>)
    ensures Closed(g, s) && g.Keys <= s
  {
    g.Keys + set n, m | n in g && m in g[n] :: m
  }

  lemma ClosuresAreUnique(g: Graph, roots: set<string>, s: set<string>, t: set<string>)
    requires IsClosure(g, roots, s) && IsClosure(g, roots, t)
    ensures s == t
  {
    assert s <= t && t <= s;
  }

  lemma PathTail(g: Graph, p: seq<string>)
    requires IsPath(g, p) && |p| >= 2
    ensures IsPath(g, p[1..]) && p[1] in Succ(g, p[0])
  {
    var q := p[1..];
    assert p[0 + 1] in Succ(g, p[0]);
    forall i | 0 <= i < |q| - 1
      ensures q[i + 1] in Succ(g, q[i])
    {
      assert p[(i + 1) + 1] in Succ(g, p[i + 1]);
    }
  }

  lemma {:induction false} PathsStayInClosedSets(g: Graph, p: seq<string>, s: set<string>)
    requires IsPath(g, p) && Closed(g, s) && p[0] in s
    ensures p[|p| - 1] in s
  {
    if |p| > 1 {
      PathTail(g, p);
      PathsStayInClosedSets(g, p[1..], s);
    }
  }

  /** A path may be extended by one edge. */
  lemma ReachesStep(g: Graph, a: string, b: string, c: string)
    requires Reaches(g, a, b) && c in Succ(g, b)
    ensures Reaches(g, a, c)
  {
    var p :| PathBetween(g, p, a, b);
    assert PathBetween(g, p + [c], a, c);
  }

  lemma ReachesSelf(g: Graph, a: string)
    ensures Reaches(g, a, a)
  {
    assert PathBetween(g, [a], a, a);
  }

  lemma ReachableInClosedSets(g: Graph, roots: set<string>, s: set<string>, n: string)
    requires Closed(g, s) && roots <= s && ReachableFrom(g, roots, n)
    ensures n in s
  {
    var r :| r in roots && Reaches(g, r, n);
    var p :| PathBetween(g, p, r, n);
    PathsStayInClosedSets(g, p, s);
  }

  /** The set of reachable nodes is the least closed set around the roots. */
  ghost function ReachableSet(g: Graph, roots: set<string>): (s: set<string>)
    ensures forall n :: n in s <==> ReachableFrom(g, roots, n)
    ensures IsClosure(g, roots, s)
  {
    var universe := Nodes(g) + roots;
    var s := set n | n in universe && ReachableFrom(g, roots, n);
    assert forall n :: n in s <==> ReachableFrom(g, roots, n) by {
      forall n | ReachableFrom(g, roots, n)
        ensures n in universe
      {
        ReachableInClosedSets(g, roots, universe, n);
      }
    }
    assert IsClosure(g, roots, s) by {
      ReachableIsLeastClosed(g, roots, s);
    }
    s
  }

  lemma ReachableIsLeastClosed(g: Graph, roots: set<string>, s: set<string>)
    requires forall n :: n in s <==> ReachableFrom(g, roots, n)
    ensures IsClosure(g, roots, s)
  {
    forall r | r in roots
      ensures r in s
    {
      ReachesSelf(g, r);
    }
    forall n, m | n in s && m in Succ(g, n)
      ensures m in s
    {
      var r :| r in roots && Reaches(g, r, n);
      ReachesStep(g, r, n, m);
    }
    forall t, n | Closed(g, t) && roots <= t && n in s
      ensures n in t
    {
      ReachableInClosedSets(g, roots, t, n);
    }
  }

  /** The least closed set is the set of reachable nodes. */
  lemma ClosureIsReachability(g: Graph, roots: set<string>, s: set<string>)
    requires IsClosure(g, roots, s)
    ensures forall n :: n in s <==> ReachableFrom(g, roots, n)
  {
    ClosuresAreUnique(g, roots, s, ReachableSet(g, roots));
  }

  lemma InEveryClosedSetIsReachable(g: Graph, roots: set<string>, n: string)
    requires forall t {:trigger Closed(g, t)} :: Closed(g, t) && roots <= t ==> n in t
    ensures ReachableFrom(g, roots, n)
  {
    var s := ReachableSet(g, roots);
    assert Closed(g, s);
  }

  lemma ReachableThrough(g: Graph, roots: set<string>, n: string, m: string)
    requires ReachableFrom(g, roots, n) && Reaches(g, n, m)
    ensures ReachableFrom(g, roots, m)
  {
    var s := ReachableSet(g, roots);
    assert n in s;
    var p :| PathBetween(g, p, n, m);
    PathsStayInClosedSets(g, p, s);
  }

  /** Along a path that starts inside a successors-first order, positions only go down. */
  lemma {:induction false} PathsDescend(g: Graph, order: seq<string>, p: seq<string>, i: nat)
    requires SuccessorsFirst(g, order) && IsPath(g, p)
    requires i < |order| && order[i] == p[0] && |p| >= 2
    ensures exists j :: 0 <= j < i && order[j] == p[|p| - 1]
  {
    PathTail(g, p);
    assert p[1] in Elems(order[..i]);
    var j :| 0 <= j < i && order[j] == p[1];
    if |p| > 2 {
      PathsDescend(g, order, p[1..], j);
    }
  }

  /** A successors-first order without repetitions holds no node of a cycle. */
  lemma OrdersAreAcyclic(g: Graph, order: seq<string>)
    requires NoDuplicates(order) && SuccessorsFirst(g, order)
    ensures forall n :: n in order ==> !OnCycle(g, n)
  {
    forall n | n in order
      ensures !OnCycle(g, n)
    {
      if OnCycle(g, n) {
        var p :| PathBetween(g, p, n, n) && |p| >= 2;
        var i :| 0 <= i < |order| && order[i] == n;
        PathsDescend(g, order, p, i);
      }
    }
  }
}

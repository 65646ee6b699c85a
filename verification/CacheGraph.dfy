/**
 The dependency graph behind cascading invalidation (pkg/clients/cache_manager.go).

 `Visit` is the recursion of invalidateDependencies with an explicit depth
 budget, so that a call that never returns is a value (`None` for every budget)
 rather than something the model cannot talk about.  The main results say
 exactly when the recursion returns, what it removes and how often it counts.
 */
module CacheGraph {
  import opened Common

  datatype Key = Key(name: string)

  type Graph = map<Key, seq<Key>>

  /** What one completed call leaves: the remaining graph, and the keys it removed from the caches, in order. */
  datatype Outcome = Outcome(graph: Graph, visited: seq<Key>)

  /** AddDependency never leaves an empty list behind. */
  ghost predicate NoEmptyLists(g: Graph) {
    forall k <- g :: g[k] != []
  }

  /** invalidateDependencies: nothing to do without dependencies; otherwise recurse, then drop the key's own list. */
  function Visit(budget: nat, key: Key, g: Graph): Option<Outcome>
    decreases budget, 0
  {
    if key !in g || g[key] == [] then Some(Outcome(g, []))
    else if budget == 0 then None
    else
      match VisitAll(budget - 1, g[key], g)
      case None => None
      case Some(o) => Some(Outcome(o.graph - {key}, o.visited))
  }

  /** The loop over one dependency list. */
  function VisitAll(budget: nat, deps: seq<Key>, g: Graph): Option<Outcome>
    decreases budget, 1, |deps|
  {
    if deps == [] then Some(Outcome(g, []))
    else
      match Visit(budget, deps[0], g)
      case None => None
      case Some(first) =>
        match VisitAll(budget, deps[1..], first.graph)
        case None => None
        case Some(rest) => Some(Outcome(rest.graph, [deps[0]] + first.visited + rest.visited))
  }

  // ---------------------------------------------------------------- reachability

  ghost predicate IsPath(g: Graph, p: seq<Key>) {
    p != [] && forall i :: 0 <= i < |p| - 1 ==> p[i] in g && p[i + 1] in g[p[i]]
  }

  ghost predicate PathBetween(g: Graph, a: Key, b: Key, p: seq<Key>) {
    IsPath(g, p) && p[0] == a && p[|p| - 1] == b
  }

  ghost predicate Reaches(g: Graph, a: Key, b: Key) {
    exists p :: PathBetween(g, a, b, p)
  }

  ghost function Reachable(g: Graph, a: Key): iset<Key> {
    iset b | Reaches(g, a, b)
  }

  ghost predicate AnyReaches(g: Graph, from: seq<Key>, b: Key) {
    exists a :: a in from && Reaches(g, a, b)
  }

  ghost function ReachableFromAny(g: Graph, from: seq<Key>): iset<Key> {
    iset b | AnyReaches(g, from, b)
  }

  /** Every path leaving `key` has at most `n` edges. */
  ghost predicate PathsBounded(g: Graph, key: Key, n: nat)
    decreases n
  {
    key in g ==> forall d :: d in g[key] ==> n > 0 && PathsBounded(g, d, n - 1)
  }

  /** No cycle can be reached from `key`. */
  ghost predicate Acyclic(g: Graph, key: Key) {
    exists n: nat :: PathsBounded(g, key, n)
  }

  lemma ReachesItself(g: Graph, a: Key)
    ensures Reaches(g, a, a)
  {
    assert PathBetween(g, a, a, [a]);
  }

  lemma ReachesThrough(g: Graph, a: Key, d: Key, b: Key)
    requires a in g && d in g[a] && Reaches(g, d, b)
    ensures Reaches(g, a, b)
  {
    var p :| PathBetween(g, d, b, p);
    assert PathBetween(g, a, b, [a] + p);
  }

  lemma ReachesSplit(g: Graph, a: Key, b: Key)
    requires Reaches(g, a, b) && a != b
    ensures a in g && exists d :: d in g[a] && Reaches(g, d, b)
  {
    var p :| PathBetween(g, a, b, p);
    assert PathBetween(g, p[1], b, p[1..]);
    assert Reaches(g, p[1], b);
  }

  lemma ReachableUnfold(g: Graph, a: Key)
    ensures Reachable(g, a) == iset{a} + if a in g then ReachableFromAny(g, g[a]) else iset{}
  {
    ReachesItself(g, a);
    forall b | b in Reachable(g, a) && b != a
      ensures a in g && b in ReachableFromAny(g, g[a])
    {
      ReachesSplit(g, a, b);
    }
    if a in g {
      forall b | b in ReachableFromAny(g, g[a])
        ensures b in Reachable(g, a)
      {
        var d :| d in g[a] && Reaches(g, d, b);
        ReachesThrough(g, a, d, b);
      }
    }
  }

  lemma ReachableFromAnyUnfold(g: Graph, from: seq<Key>)
    requires from != []
    ensures ReachableFromAny(g, from) == Reachable(g, from[0]) + ReachableFromAny(g, from[1..])
  {
    assert from == [from[0]] + from[1..];
  }

  // ---------------------------------------------------------------- counting edges

  ghost function Edges(g: Graph): nat {
    if g == map[] then 0
    else
      var k :| k in g;
      |g[k]| + Edges(g - {k})
  }

  lemma {:induction false} EdgesRemove(g: Graph, k: Key)
    requires k in g
    ensures Edges(g) == |g[k]| + Edges(g - {k})
    decreases |g|
  {
    var j :| j in g && Edges(g) == |g[j]| + Edges(g - {j});
    if j != k {
      EdgesRemove(g - {j}, k);
      EdgesRemove(g - {k}, j);
      assert g - {j} - {k} == g - {k} - {j};
    }
  }

  ghost function Without(g: Graph, gone: iset<Key>): Graph {
    map k | k in g && k !in gone :: g[k]
  }

  ghost function Within(g: Graph, part: iset<Key>): Graph {
    map k | k in g && k in part :: g[k]
  }

  /** Removing a key commutes with splitting the graph. */
  lemma SplitRemove(g: Graph, part: iset<Key>, k: Key)
    requires k in g
    ensures k in part ==> Within(g - {k}, part) == Within(g, part) - {k} && Without(g - {k}, part) == Without(g, part)
    ensures k !in part ==> Without(g - {k}, part) == Without(g, part) - {k} && Within(g - {k}, part) == Within(g, part)
  {
  }

  lemma {:induction false} EdgesSplit(g: Graph, part: iset<Key>)
    ensures Edges(g) == Edges(Within(g, part)) + Edges(Without(g, part))
    decreases |g|
  {
    if g == map[] {
      assert Within(g, part) == map[] && Without(g, part) == map[];
    } else {
      var k :| k in g;
      EdgesRemove(g, k);
      EdgesSplit(g - {k}, part);
      SplitRemove(g, part, k);
      if k in part {
        EdgesRemove(Within(g, part), k);
      } else {
        EdgesRemove(Without(g, part), k);
      }
    }
  }

  // ---------------------------------------------------------------- what a completed call does

  /** `gone` already contains everything its members depend on. */
  ghost predicate Closed(g: Graph, gone: iset<Key>) {
    forall k, d :: k in gone && k in g && d in g[k] ==> d in gone
  }

  lemma {:induction false} ClosedContainsReachable(g: Graph, gone: iset<Key>, k: Key, p: seq<Key>, b: Key)
    requires Closed(g, gone) && k in gone && PathBetween(g, k, b, p)
    ensures b in gone
    decreases |p|
  {
    if |p| > 1 {
      ClosedContainsReachable(g, gone, p[1], p[1..], b);
    }
  }

  lemma {:induction false} BoundedAlong(g: Graph, p: seq<Key>, n: nat)
    requires IsPath(g, p) && PathsBounded(g, p[0], n)
    ensures |p| - 1 <= n && PathsBounded(g, p[|p| - 1], n - (|p| - 1))
    decreases |p|
  {
    if |p| > 1 {
      assert p[1] in g[p[0]];
      BoundedAlong(g, p[1..], n - 1);
    }
  }

  lemma {:induction false} NotBelowItself(g: Graph, key: Key, n: nat)
    requires key in g && PathsBounded(g, key, n)
    ensures key !in ReachableFromAny(g, g[key])
  {
    if key in ReachableFromAny(g, g[key]) {
      var d :| d in g[key] && Reaches(g, d, key);
      var p :| PathBetween(g, d, key, p);
      BoundedAlong(g, [key] + p, n);
      NotBelowItself(g, key, n - |p|);
    }
  }

  /**
   A call that starts with `gone` already removed ends with `gone + from` removed;
   it visits only `from`, visits all of `covered` that was not already gone, and
   the edges it removed are its visits less the `extra` visits of an open loop.
   */
  ghost predicate VisitSpec(g: Graph, gone: iset<Key>, from: iset<Key>, covered: iset<Key>, extra: nat, o: Option<Outcome>) {
    && o.Some?
    && o.value.graph == Without(g, gone + from)
    && Closed(g, gone + from)
    && (forall k <- o.value.visited :: k in from)
    && (forall k :: k in covered ==> k in gone || k in o.value.visited)
    && |o.value.visited| + Edges(o.value.graph) == Edges(Without(g, gone)) + extra
  }

  /** Nothing is left to do below a key that is a leaf or already removed. */
  lemma NothingLeft(g: Graph, gone: iset<Key>, key: Key)
    requires Closed(g, gone) && (key !in g || key in gone)
    ensures VisitSpec(g, gone, Reachable(g, key), Reachable(g, key) - iset{key}, 0, Some(Outcome(Without(g, gone), [])))
  {
    ReachableUnfold(g, key);
    var all := gone + Reachable(g, key);
    if key in gone {
      forall b | b in Reachable(g, key) ensures b in gone {
        var p :| PathBetween(g, key, b, p);
        ClosedContainsReachable(g, gone, key, p, b);
      }
      assert all == gone;
    } else {
      assert all == gone + iset{key};
      assert Without(g, all) == Without(g, gone);
    }
  }

  /** Closing the loop over `g[key]` by dropping the key's own list. */
  lemma DropOwnList(g: Graph, gone: iset<Key>, key: Key, o: Outcome)
    requires key in g && key !in gone
    requires key !in ReachableFromAny(g, g[key])
    requires VisitSpec(g, gone, ReachableFromAny(g, g[key]), ReachableFromAny(g, g[key]), |g[key]|, Some(o))
    ensures VisitSpec(g, gone, Reachable(g, key), Reachable(g, key) - iset{key}, 0, Some(Outcome(o.graph - {key}, o.visited)))
  {
    var below := ReachableFromAny(g, g[key]);
    ReachableUnfold(g, key);
    var all := gone + Reachable(g, key);
    assert all == gone + below + iset{key};
    assert Without(g, all) == Without(g, gone + below) - {key};
    EdgesRemove(o.graph, key);
    forall d | d in g[key] ensures d in below {
      ReachesItself(g, d);
    }
  }

  lemma {:induction false} VisitRemovesReachable(budget: nat, key: Key, g: Graph, gone: iset<Key>, n: nat)
    requires NoEmptyLists(g) && Closed(g, gone)
    requires PathsBounded(g, key, n) && n <= budget
    ensures VisitSpec(g, gone, Reachable(g, key), Reachable(g, key) - iset{key}, 0,
                      Visit(budget, key, Without(g, gone)))
    decreases budget, 0
  {
    if key !in g || key in gone {
      NothingLeft(g, gone, key);
    } else {
      assert g[key][0] in g[key];
      VisitAllRemovesReachable(budget - 1, g[key], g, gone, n - 1);
      NotBelowItself(g, key, n);
      DropOwnList(g, gone, key, VisitAll(budget - 1, g[key], Without(g, gone)).value);
    }
  }

  lemma {:induction false} VisitAllRemovesReachable(budget: nat, deps: seq<Key>, g: Graph, gone: iset<Key>, n: nat)
    requires NoEmptyLists(g) && Closed(g, gone)
    requires n <= budget && forall d <- deps :: PathsBounded(g, d, n)
    ensures VisitSpec(g, gone, ReachableFromAny(g, deps), ReachableFromAny(g, deps), |deps|,
                      VisitAll(budget, deps, Without(g, gone)))
    decreases budget, 1, |deps|
  {
    if deps == [] {
      assert gone + ReachableFromAny(g, deps) == gone;
    } else {
      var here := Reachable(g, deps[0]);
      VisitRemovesReachable(budget, deps[0], g, gone, n);
      VisitAllRemovesReachable(budget, deps[1..], g, gone + here, n);
      ReachableFromAnyUnfold(g, deps);
      ReachesItself(g, deps[0]);
      assert gone + here + ReachableFromAny(g, deps[1..]) == gone + ReachableFromAny(g, deps);
    }
  }

  // ---------------------------------------------------------------- when the recursion returns

  /** Every member still has its list, and one entry of it leads back into the set. */
  ghost predicate Trap(g: Graph, trap: iset<Key>) {
    forall k {:trigger HasNext(g, trap, k)} :: k in trap ==> HasNext(g, trap, k)
  }

  ghost predicate HasNext(g: Graph, trap: iset<Key>, k: Key) {
    k in g && Touches(g[k], trap)
  }

  ghost predicate Touches(deps: seq<Key>, trap: iset<Key>) {
    exists d :: d in deps && d in trap
  }

  lemma TrapSurvivesRemoval(g: Graph, trap: iset<Key>, k: Key)
    requires Trap(g, trap) && k !in trap
    ensures Trap(g - {k}, trap)
  {
    forall t | t in trap ensures HasNext(g - {k}, trap, t) {
      assert HasNext(g, trap, t);
    }
  }

  lemma {:induction false} TrapNeverReturns(budget: nat, key: Key, g: Graph, trap: iset<Key>)
    requires Trap(g, trap)
    ensures key in trap ==> Visit(budget, key, g).None?
    ensures Visit(budget, key, g).Some? ==> Trap(Visit(budget, key, g).value.graph, trap)
    decreases budget, 0
  {
    assert key in trap ==> HasNext(g, trap, key);
    if key in g && g[key] != [] && budget > 0 {
      TrapLoopNeverReturns(budget - 1, g[key], g, trap);
      if key !in trap && VisitAll(budget - 1, g[key], g).Some? {
        TrapSurvivesRemoval(VisitAll(budget - 1, g[key], g).value.graph, trap, key);
      }
    }
  }

  lemma {:induction false} TrapLoopNeverReturns(budget: nat, deps: seq<Key>, g: Graph, trap: iset<Key>)
    requires Trap(g, trap)
    ensures Touches(deps, trap) ==> VisitAll(budget, deps, g).None?
    ensures VisitAll(budget, deps, g).Some? ==> Trap(VisitAll(budget, deps, g).value.graph, trap)
    decreases budget, 1, |deps|
  {
    if deps != [] {
      TrapNeverReturns(budget, deps[0], g, trap);
      if Visit(budget, deps[0], g).Some? {
        TrapLoopNeverReturns(budget, deps[1..], Visit(budget, deps[0], g).value.graph, trap);
      }
    }
  }

  lemma {:induction false} PathsBoundedMonotone(g: Graph, key: Key, n: nat, m: nat)
    requires PathsBounded(g, key, n) && n <= m
    ensures PathsBounded(g, key, m)
    decreases n
  {
    if key in g {
      forall d | d in g[key] ensures m > 0 && PathsBounded(g, d, m - 1) {
        PathsBoundedMonotone(g, d, n - 1, m - 1);
      }
    }
  }

  /** One bound serves a whole list of acyclic keys. */
  lemma {:induction false} CommonBound(g: Graph, deps: seq<Key>) returns (n: nat)
    requires forall d <- deps :: Acyclic(g, d)
    ensures forall d <- deps :: PathsBounded(g, d, n)
  {
    if deps == [] {
      n := 0;
    } else {
      var m := CommonBound(g, deps[1..]);
      assert Acyclic(g, deps[0]);
      var m0: nat :| PathsBounded(g, deps[0], m0);
      n := if m < m0 then m0 else m;
      forall d | d in deps ensures PathsBounded(g, d, n) {
        if d == deps[0] {
          PathsBoundedMonotone(g, d, m0, n);
        } else {
          PathsBoundedMonotone(g, d, m, n);
        }
      }
    }
  }

  lemma CyclicKeysAreATrap(g: Graph)
    ensures Trap(g, iset j | !Acyclic(g, j))
  {
    forall k | !Acyclic(g, k)
      ensures HasNext(g, (iset j | !Acyclic(g, j)), k)
    {
      if k !in g {
        assert PathsBounded(g, k, 0);
      } else if forall d :: d in g[k] ==> Acyclic(g, d) {
        var n := CommonBound(g, g[k]);
        assert PathsBounded(g, k, n + 1);
      }
    }
  }

  /** The recursion returns if and only if no cycle is reachable from the key. */
  lemma ReturnsIffAcyclic(key: Key, g: Graph)
    requires NoEmptyLists(g)
    ensures (exists budget: nat :: Visit(budget, key, g).Some?) <==> Acyclic(g, key)
  {
    if Acyclic(g, key) {
      var n: nat :| PathsBounded(g, key, n);
      CascadeExact(n, key, g, n);
    } else {
      var trap := iset j | !Acyclic(g, j);
      CyclicKeysAreATrap(g);
      forall budget: nat ensures Visit(budget, key, g).None? {
        TrapNeverReturns(budget, key, g, trap);
      }
    }
  }

  /**
   A returning cascade drops exactly the reachable keys' lists, removes exactly
   the reachable keys (the key itself is removed by the caller), and counts
   each edge that leaves a reachable key exactly once.
   */
  lemma CascadeExact(budget: nat, key: Key, g: Graph, n: nat)
    requires NoEmptyLists(g)
    requires PathsBounded(g, key, n) && n <= budget
    ensures Visit(budget, key, g).Some?
    ensures
      var o := Visit(budget, key, g).value;
      && o.graph == Without(g, Reachable(g, key))
      && (forall k :: k == key || k in o.visited <==> Reaches(g, key, k))
      && |o.visited| == Edges(Within(g, Reachable(g, key)))
  {
    assert Without(g, iset{}) == g;
    VisitRemovesReachable(budget, key, g, iset{}, n);
    EdgesSplit(g, Reachable(g, key));
    ReachesItself(g, key);
    var o := Visit(budget, key, g).value;
    assert iset{} + Reachable(g, key) == Reachable(g, key);
    forall k | Reaches(g, key, k) && k != key ensures k in o.visited {
      assert k in Reachable(g, key) - iset{key};
    }
  }

  // ---------------------------------------------------------------- following the loop step by step

  ghost predicate Subgraph(h: Graph, g: Graph) {
    forall k :: k in h ==> k in g && h[k] == g[k]
  }

  lemma {:induction false} SubgraphBounded(h: Graph, g: Graph, key: Key, n: nat)
    requires Subgraph(h, g) && PathsBounded(g, key, n)
    ensures PathsBounded(h, key, n)
    decreases n
  {
    if key in h {
      forall d | d in h[key] ensures n > 0 && PathsBounded(h, d, n - 1) {
        SubgraphBounded(h, g, d, n - 1);
      }
    }
  }

  lemma {:induction false} VisitShrinks(budget: nat, key: Key, g: Graph)
    requires Visit(budget, key, g).Some?
    ensures Subgraph(Visit(budget, key, g).value.graph, g)
    decreases budget, 0
  {
    if key in g && g[key] != [] {
      VisitAllShrinks(budget - 1, g[key], g);
    }
  }

  lemma {:induction false} VisitAllShrinks(budget: nat, deps: seq<Key>, g: Graph)
    requires VisitAll(budget, deps, g).Some?
    ensures Subgraph(VisitAll(budget, deps, g).value.graph, g)
    decreases budget, 1, |deps|
  {
    if deps != [] {
      VisitShrinks(budget, deps[0], g);
      VisitAllShrinks(budget, deps[1..], Visit(budget, deps[0], g).value.graph);
    }
  }

  /** One more round of the loop. */
  lemma {:induction false} VisitAllSnoc(budget: nat, deps: seq<Key>, d: Key, g: Graph)
    requires VisitAll(budget, deps, g).Some?
    requires Visit(budget, d, VisitAll(budget, deps, g).value.graph).Some?
    ensures
      var o := VisitAll(budget, deps, g).value;
      var next := Visit(budget, d, o.graph).value;
      VisitAll(budget, deps + [d], g) == Some(Outcome(next.graph, o.visited + [d] + next.visited))
    decreases |deps|
  {
    var all := deps + [d];
    if deps == [] {
      assert all[1..] == [];
      var next := Visit(budget, d, g).value;
      assert VisitAll(budget, [], next.graph) == Some(Outcome(next.graph, []));
      assert [d] + next.visited + [] == [] + [d] + next.visited;
    } else {
      assert all[0] == deps[0] && all[1..] == deps[1..] + [d];
      var first := Visit(budget, deps[0], g).value;
      VisitAllSnoc(budget, deps[1..], d, first.graph);
      var rest := VisitAll(budget, deps[1..], first.graph).value;
      var next := Visit(budget, d, rest.graph).value;
      assert [deps[0]] + first.visited + (rest.visited + [d] + next.visited)
          == [deps[0]] + first.visited + rest.visited + [d] + next.visited;
    }
  }

  // ---------------------------------------------------------------- growing the graph

  function DependenciesOf(g: Graph, k: Key): seq<Key> {
    if k in g then g[k] else []
  }

  /** AddDependency: append the child unless it is already listed. */
  function AddEdge(g: Graph, parent: Key, child: Key): Graph {
    if child in DependenciesOf(g, parent) then g
    else g[parent := DependenciesOf(g, parent) + [child]]
  }

  ghost predicate Distinct(s: seq<Key>) {
    forall i, j :: 0 <= i < j < |s| ==> s[i] != s[j]
  }

  /** No dependency is listed twice. */
  ghost predicate NoRepeats(g: Graph) {
    forall k <- g :: Distinct(g[k])
  }

  predicate HasEdge(g: Graph, a: Key, b: Key) {
    a in g && b in g[a]
  }

  /** The graph gains exactly this edge, listed once and last, and keeps every other list as it was. */
  lemma AddEdgeExact(g: Graph, parent: Key, child: Key)
    requires NoRepeats(g)
    ensures var g' := AddEdge(g, parent, child);
            && NoRepeats(g')
            && (forall a, b :: HasEdge(g', a, b) <==> HasEdge(g, a, b) || (a == parent && b == child))
            && (forall a :: a != parent ==> (a in g' <==> a in g) && (a in g' ==> g'[a] == g[a]))
            && parent in g' && (parent in g ==> g[parent] <= g'[parent])
  {
    var g' := AddEdge(g, parent, child);
    assert g'[parent] == DependenciesOf(g, parent) || g'[parent] == DependenciesOf(g, parent) + [child];
  }

  ghost predicate AllAcyclic(g: Graph) {
    forall k :: Acyclic(g, k)
  }

  /** A key that cannot reach the new edge keeps its bound. */
  lemma {:induction false} BoundKeptAway(g: Graph, parent: Key, child: Key, k: Key, n: nat)
    requires PathsBounded(g, k, n) && !Reaches(g, k, parent)
    ensures PathsBounded(AddEdge(g, parent, child), k, n)
    decreases n
  {
    ReachesItself(g, k);
    var g' := AddEdge(g, parent, child);
    if k in g' {
      assert g'[k] == g[k];
      forall d | d in g'[k] ensures n > 0 && PathsBounded(g', d, n - 1) {
        if Reaches(g, d, parent) {
          ReachesThrough(g, k, d, parent);
        }
        BoundKeptAway(g, parent, child, d, n - 1);
      }
    }
  }

  /** Elsewhere the bound grows by at most one detour through the new edge. */
  lemma {:induction false} BoundWithDetour(g: Graph, parent: Key, child: Key, k: Key, n: nat, m: nat)
    requires PathsBounded(g, k, n) && PathsBounded(AddEdge(g, parent, child), child, m)
    ensures PathsBounded(AddEdge(g, parent, child), k, n + 1 + m)
    decreases n
  {
    var g' := AddEdge(g, parent, child);
    if k in g' {
      forall d | d in g'[k] ensures PathsBounded(g', d, n + m) {
        if d in DependenciesOf(g, k) {
          BoundWithDetour(g, parent, child, d, n - 1, m);
        } else {
          PathsBoundedMonotone(g', child, m, n + m);
        }
      }
    }
  }

  lemma {:induction false} PathKept(g: Graph, parent: Key, child: Key, p: seq<Key>)
    requires IsPath(g, p)
    ensures IsPath(AddEdge(g, parent, child), p)
  {
    var g' := AddEdge(g, parent, child);
    forall i | 0 <= i < |p| - 1 ensures p[i] in g' && p[i + 1] in g'[p[i]] {
      assert p[i + 1] in g[p[i]];
    }
  }

  /**
   AddDependency itself never looks for cycles.  It keeps every later
   invalidation returning if and only if the child does not already reach the parent.
   */
  lemma AddEdgeSafeIff(g: Graph, parent: Key, child: Key)
    requires NoEmptyLists(g) && AllAcyclic(g)
    ensures NoEmptyLists(AddEdge(g, parent, child))
    ensures AllAcyclic(AddEdge(g, parent, child)) <==> !Reaches(g, child, parent)
  {
    var g' := AddEdge(g, parent, child);
    if Reaches(g, child, parent) {
      var p :| PathBetween(g, child, parent, p);
      PathKept(g, parent, child, p);
      assert PathBetween(g', child, parent, p);
      assert Reaches(g', child, parent) && AnyReaches(g', g'[parent], parent);
      if Acyclic(g', parent) {
        var n: nat :| PathsBounded(g', parent, n);
        NotBelowItself(g', parent, n);
      }
    } else {
      assert Acyclic(g, child);
      var m: nat :| PathsBounded(g, child, m);
      BoundKeptAway(g, parent, child, child, m);
      forall k ensures Acyclic(g', k) {
        assert Acyclic(g, k);
        var n: nat :| PathsBounded(g, k, n);
        BoundWithDetour(g, parent, child, k, n, m);
      }
    }
  }
}

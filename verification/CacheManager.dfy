/**
 The two-level cache of pkg/clients/cache_manager.go: an in-memory level that may
 lose any entry at any time (an LRU cache), a remote level that loses entries only
 by expiry or deletion, and cascading invalidation over the dependency graph.

 Every method is one atomic step.  The ghost `log` is the history of what was
 stored and dropped; `Valid` ties both levels to it, so what `Get` promises is
 promised for every run of the methods below.
 */
module CacheManager {
  import opened Common
  import opened CacheGraph

  /** The marshalled form of a value; marshalling is taken to be exact. */
  type Data = string

  datatype Entry = Entry(data: Data, cachedAt: Time, ttl: int)

  /** A remote entry; without a positive time to live the remote store keeps it forever. */
  datatype Remote = Remote(data: Data, expires: Option<Time>)

  datatype Config = Config(l1TTL: int, l2Enabled: bool, l2TTL: int)

  datatype Event =
    | Stored(key: Key, data: Data, at: Time, ttl: int)
    | Dropped(keys: set<Key>)
    | Evicted(keys: set<Key>)

  /** The store that governs `key`: the last one not followed by a drop of the key. */
  function Latest(log: seq<Event>, key: Key): (r: Option<Event>)
    ensures r.Some? ==> r.value.Stored? && r.value.key == key && r.value in log
  {
    if log == [] then None
    else
      var last, before := log[|log| - 1], log[..|log| - 1];
      match last
      case Stored(k, _, _, _) => if k == key then Some(last) else Latest(before, key)
      case Dropped(keys) => if key in keys then None else Latest(before, key)
      case Evicted(_) => Latest(before, key)
  }

  /** The store of `key` that nothing has touched since: no later store, drop or eviction of the key. */
  function Resting(log: seq<Event>, key: Key): (r: Option<Event>)
    ensures r.Some? ==> r.value.Stored? && r.value.key == key && r.value in log
  {
    if log == [] then None
    else
      var last, before := log[|log| - 1], log[..|log| - 1];
      match last
      case Stored(k, _, _, _) => if k == key then Some(last) else Resting(before, key)
      case Dropped(keys) => if key in keys then None else Resting(before, key)
      case Evicted(keys) => if key in keys then None else Resting(before, key)
  }

  function EffectiveTTL(cfg: Config, ttl: int): int {
    if ttl == 0 then cfg.l1TTL else ttl
  }

  function RemoteTTL(cfg: Config, ttl: int): int {
    Max(EffectiveTTL(cfg, ttl), cfg.l2TTL)
  }

  function RemoteExpiry(cfg: Config, at: Time, ttl: int): Option<Time> {
    if RemoteTTL(cfg, ttl) <= 0 then None else Some(at + RemoteTTL(cfg, ttl))
  }

  predicate Live(e: Remote, now: Time) {
    e.expires.Some? ==> now < e.expires.value
  }

  /** No answer for this store can be given at or after this time; `None` means it may be given forever. */
  function Deadline(cfg: Config, e: Event): Option<Time>
    requires e.Stored?
  {
    if !cfg.l2Enabled then Some(e.at + EffectiveTTL(cfg, e.ttl))
    else if RemoteTTL(cfg, e.ttl) <= 0 then None
    else Some(e.at + RemoteTTL(cfg, e.ttl) + Max(cfg.l1TTL, 0))
  }

  ghost predicate LocalAgrees(cfg: Config, l1: map<Key, Entry>, log: seq<Event>) {
    forall k :: k in l1 ==>
      && Latest(log, k).Some?
      && var e := Latest(log, k).value;
         && l1[k].data == e.data
         && (Deadline(cfg, e).Some? ==> l1[k].cachedAt + l1[k].ttl <= Deadline(cfg, e).value)
  }

  /** An untouched store is in the in-memory level until its time to live is over. */
  ghost predicate LocalHolds(cfg: Config, l1: map<Key, Entry>, log: seq<Event>, clock: Time) {
    forall k :: Resting(log, k).Some? ==>
      var e := Resting(log, k).value;
      clock < e.at + EffectiveTTL(cfg, e.ttl) ==> k in l1 && l1[k] == Entry(e.data, e.at, EffectiveTTL(cfg, e.ttl))
  }

  ghost predicate RemoteAgrees(cfg: Config, l2: map<Key, Remote>, log: seq<Event>) {
    forall k ::
      if cfg.l2Enabled && Latest(log, k).Some? then
        var e := Latest(log, k).value;
        k in l2 && l2[k] == Remote(e.data, RemoteExpiry(cfg, e.at, e.ttl))
      else k !in l2
  }

  function Minus<V>(m: map<Key, V>, gone: seq<Key>): map<Key, V> {
    m - set k | k in gone
  }

  lemma MinusMore<V>(m: map<Key, V>, gone: seq<Key>, k: Key, more: seq<Key>)
    ensures Minus(Minus(m, gone) - {k}, more) == Minus(m, gone + [k] + more)
  {
  }

  lemma DropKeepsAgreement(cfg: Config, l1: map<Key, Entry>, l2: map<Key, Remote>, log: seq<Event>, gone: set<Key>)
    requires LocalAgrees(cfg, l1, log) && RemoteAgrees(cfg, l2, log)
    ensures LocalAgrees(cfg, l1 - gone, log + [Dropped(gone)])
    ensures RemoteAgrees(cfg, l2 - gone, log + [Dropped(gone)])
    ensures !cfg.l2Enabled ==> l2 - gone == l2
  {
    var log' := log + [Dropped(gone)];
    assert log'[..|log'| - 1] == log;
    assert forall k :: Latest(log', k) == if k in gone then None else Latest(log, k);
  }

  lemma LossKeepsHolding(cfg: Config, l1: map<Key, Entry>, log: seq<Event>, clock: Time, gone: set<Key>, e: Event)
    requires LocalHolds(cfg, l1, log, clock) && (e == Dropped(gone) || e == Evicted(gone))
    ensures LocalHolds(cfg, l1 - gone, log + [e], clock)
  {
    var log' := log + [e];
    assert log'[..|log'| - 1] == log;
    assert forall k :: Resting(log', k) == if k in gone then None else Resting(log, k);
  }

  lemma EvictKeepsAgreement(cfg: Config, l1: map<Key, Entry>, l2: map<Key, Remote>, log: seq<Event>, gone: set<Key>)
    requires LocalAgrees(cfg, l1, log) && RemoteAgrees(cfg, l2, log)
    ensures LocalAgrees(cfg, l1 - gone, log + [Evicted(gone)]) && RemoteAgrees(cfg, l2, log + [Evicted(gone)])
  {
    var log' := log + [Evicted(gone)];
    assert log'[..|log'| - 1] == log;
    assert forall k :: Latest(log', k) == Latest(log, k);
  }

  lemma StoreKeepsHolding(cfg: Config, l1: map<Key, Entry>, log: seq<Event>, clock: Time, e: Event)
    requires LocalHolds(cfg, l1, log, clock) && e.Stored?
    ensures LocalHolds(cfg, l1[e.key := Entry(e.data, e.at, EffectiveTTL(cfg, e.ttl))], log + [e], Max(clock, e.at))
  {
    var log' := log + [e];
    assert log'[..|log'| - 1] == log;
    assert forall k :: Resting(log', k) == if k == e.key then Some(e) else Resting(log, k);
  }

  lemma StoreKeepsAgreement(cfg: Config, l1: map<Key, Entry>, l2: map<Key, Remote>, log: seq<Event>, e: Event)
    requires LocalAgrees(cfg, l1, log) && RemoteAgrees(cfg, l2, log) && e.Stored?
    ensures LocalAgrees(cfg, l1[e.key := Entry(e.data, e.at, EffectiveTTL(cfg, e.ttl))], log + [e])
    ensures RemoteAgrees(cfg, if cfg.l2Enabled then l2[e.key := Remote(e.data, RemoteExpiry(cfg, e.at, e.ttl))] else l2,
                         log + [e])
  {
    var log' := log + [e];
    assert log'[..|log'| - 1] == log;
    assert forall k :: Latest(log', k) == if k == e.key then Some(e) else Latest(log, k);
  }

  /** A lookup: the in-memory level after it, and the answer. */
  function Lookup(cfg: Config, l1: map<Key, Entry>, l2: map<Key, Remote>, key: Key, now: Time): (map<Key, Entry>, Option<Data>) {
    if key in l1 && now - l1[key].cachedAt < l1[key].ttl then (l1, Some(l1[key].data))
    else if cfg.l2Enabled && key in l2 && Live(l2[key], now) then
      (l1[key := Entry(l2[key].data, now, cfg.l1TTL)], Some(l2[key].data))
    else (l1 - {key}, None)
  }

  lemma LookupKeepsAgreement(cfg: Config, l1: map<Key, Entry>, l2: map<Key, Remote>, log: seq<Event>, key: Key, now: Time)
    requires LocalAgrees(cfg, l1, log) && RemoteAgrees(cfg, l2, log)
    ensures LocalAgrees(cfg, Lookup(cfg, l1, l2, key, now).0, log)
  {
    assert Latest(log, key).Some? ==> Latest(log, key).value.Stored?;
  }

  lemma LookupKeepsHolding(cfg: Config, l1: map<Key, Entry>, l2: map<Key, Remote>, log: seq<Event>, clock: Time, key: Key, now: Time)
    requires LocalHolds(cfg, l1, log, clock)
    ensures LocalHolds(cfg, Lookup(cfg, l1, l2, key, now).0, log, Max(clock, now))
  {
  }

  /** A hit is the data of the store that governs the key, in time. */
  ghost predicate HitIsRight(cfg: Config, log: seq<Event>, key: Key, now: Time, found: Option<Data>) {
    found.Some? ==>
      && Latest(log, key).Some?
      && var e := Latest(log, key).value;
         var ttl := if e.ttl == 0 then cfg.l1TTL else e.ttl;
         && found.value == e.data
         && (!cfg.l2Enabled ==> now < e.at + ttl)
         && (cfg.l2Enabled && Max(ttl, cfg.l2TTL) > 0 ==> now < e.at + Max(ttl, cfg.l2TTL) + Max(cfg.l1TTL, 0))
  }

  /** A store that nothing has touched is found while its time to live lasts, and one that is live in the remote level anyway. */
  ghost predicate FindsLive(cfg: Config, log: seq<Event>, clock: Time, key: Key, now: Time, found: Option<Data>) {
    && (clock <= now && Resting(log, key).Some? ==>
          var e := Resting(log, key).value;
          now < e.at + (if e.ttl == 0 then cfg.l1TTL else e.ttl) ==> found == Some(e.data))
    && (cfg.l2Enabled && Latest(log, key).Some? ==>
          var e := Latest(log, key).value;
          var ttl := Max(if e.ttl == 0 then cfg.l1TTL else e.ttl, cfg.l2TTL);
          ttl <= 0 || now < e.at + ttl ==> found.Some?)
  }

  lemma LookupIsRight(cfg: Config, l1: map<Key, Entry>, l2: map<Key, Remote>, log: seq<Event>, key: Key, now: Time)
    requires LocalAgrees(cfg, l1, log) && RemoteAgrees(cfg, l2, log)
    ensures HitIsRight(cfg, log, key, now, Lookup(cfg, l1, l2, key, now).1)
  {
  }

  lemma LookupFindsLive(cfg: Config, l1: map<Key, Entry>, l2: map<Key, Remote>, log: seq<Event>, clock: Time, key: Key, now: Time)
    requires LocalHolds(cfg, l1, log, clock) && RemoteAgrees(cfg, l2, log)
    ensures FindsLive(cfg, log, clock, key, now, Lookup(cfg, l1, l2, key, now).1)
  {
  }

  class Cache {
    const config: Config
    var l1: map<Key, Entry>
    var l2: map<Key, Remote>
    var dependencies: Graph
    var invalidations: nat
    var cascades: nat
    ghost var log: seq<Event>
    ghost var clock: Time // the latest time a method was told

    ghost predicate Valid()
      reads this
    {
      && LocalAgrees(config, l1, log)
      && LocalHolds(config, l1, log, clock)
      && RemoteAgrees(config, l2, log)
      && NoEmptyLists(dependencies) && NoRepeats(dependencies)
    }

    constructor (config: Config, now: Time)
      ensures Valid() && this.config == config && clock == now
      ensures log == [] && dependencies == map[] && invalidations == 0 && cascades == 0
    {
      this.config := config;
      l1, l2, dependencies := map[], map[], map[];
      invalidations, cascades, log, clock := 0, 0, [], now;
    }

    /** The in-memory level makes room, or simply forgets. */
    method Evict(keys: set<Key>)
      requires Valid()
      modifies this`l1, this`log
      ensures Valid() && l1 == old(l1) - keys && log == old(log) + [Evicted(keys)]
    {
      LossKeepsHolding(config, l1, log, clock, keys, Evicted(keys));
      EvictKeepsAgreement(config, l1, l2, log, keys);
      l1 := l1 - keys;
      log := log + [Evicted(keys)];
    }

    /** Writes both levels and touches no other key. */
    method Set(key: Key, data: Data, ttl: int, now: Time)
      requires Valid()
      modifies this`l1, this`l2, this`log, this`clock
      ensures Valid() && log == old(log) + [Stored(key, data, now, ttl)] && clock == Max(old(clock), now)
      ensures var effective := if ttl == 0 then config.l1TTL else ttl;
              && l1 == old(l1)[key := Entry(data, now, effective)]
              && l2 == if config.l2Enabled then old(l2)[key := Remote(data, RemoteExpiry(config, now, ttl))] else old(l2)
    {
      StoreKeepsHolding(config, l1, log, clock, Stored(key, data, now, ttl));
      StoreKeepsAgreement(config, l1, l2, log, Stored(key, data, now, ttl));
      Store(key, data, ttl, now);
      log := log + [Stored(key, data, now, ttl)];
      clock := Max(clock, now);
    }

    /** The writes to both levels. */
    method Store(key: Key, data: Data, ttl: int, now: Time)
      modifies this`l1, this`l2
      ensures l1 == old(l1)[key := Entry(data, now, EffectiveTTL(config, ttl))]
      ensures l2 == if config.l2Enabled then old(l2)[key := Remote(data, RemoteExpiry(config, now, ttl))] else old(l2)
    {
      var effective := if ttl == 0 then config.l1TTL else ttl;
      l1 := l1[key := Entry(data, now, effective)];
      if config.l2Enabled {
        var remoteTTL := if effective < config.l2TTL then config.l2TTL else effective;
        l2 := l2[key := Remote(data, if remoteTTL <= 0 then None else Some(now + remoteTTL))];
      }
    }

    /**
     A hit returns the data of the store that governs the key, before that
     store's deadline, however often the entry was promoted in between.  A store that
     nothing has touched since is found while its own time to live lasts, and with the
     remote level on every governing store is found as long as it is live there.
     */
    method Get(key: Key, now: Time) returns (found: Option<Data>)
      requires Valid()
      modifies this`l1, this`clock
      ensures Valid() && clock == Max(old(clock), now)
      ensures HitIsRight(config, log, key, now, found)
      ensures FindsLive(config, log, old(clock), key, now, found)
      ensures if key in old(l1) && now - old(l1)[key].cachedAt < old(l1)[key].ttl then l1 == old(l1)
              else if found.Some? then l1 == old(l1)[key := Entry(found.value, now, config.l1TTL)]
              else l1 == old(l1) - {key}
    {
      LookupKeepsAgreement(config, l1, l2, log, key, now);
      LookupKeepsHolding(config, l1, l2, log, clock, key, now);
      LookupIsRight(config, l1, l2, log, key, now);
      LookupFindsLive(config, l1, l2, log, clock, key, now);
      clock := Max(clock, now);
      found := Look(key, now);
    }

    /** getL1, and behind it the remote level with promotion. */
    method Look(key: Key, now: Time) returns (found: Option<Data>)
      modifies this`l1
      ensures (l1, found) == Lookup(config, old(l1), l2, key, now)
    {
      if key in l1 {
        if now - l1[key].cachedAt < l1[key].ttl {
          return Some(l1[key].data);
        }
        l1 := l1 - {key};
      }
      assert l1 == old(l1) - {key};
      if config.l2Enabled && key in l2 && Live(l2[key], now) {
        found := Some(l2[key].data);
        assert l1[key := Entry(l2[key].data, now, config.l1TTL)] == old(l1)[key := Entry(l2[key].data, now, config.l1TTL)];
        l1 := l1[key := Entry(l2[key].data, now, config.l1TTL)];
      } else {
        found := None;
      }
    }

    method AddDependency(parent: Key, child: Key)
      requires Valid()
      modifies this`dependencies
      ensures Valid() && dependencies == AddEdge(old(dependencies), parent, child)
      ensures forall a, b :: HasEdge(dependencies, a, b) <==> HasEdge(old(dependencies), a, b) || (a == parent && b == child)
    {
      AddEdgeExact(dependencies, parent, child);
      var listed := DependenciesOf(dependencies, parent);
      for i := 0 to |listed|
        invariant child !in listed[..i]
      {
        if listed[i] == child {
          return;
        }
      }
      assert listed[..|listed|] == listed;
      dependencies := dependencies[parent := listed + [child]];
    }

    /** The recursion of invalidateDependencies; `n` bounds its depth. */
    method InvalidateDependencies(key: Key, ghost n: nat)
      requires NoEmptyLists(dependencies) && PathsBounded(dependencies, key, n)
      modifies this`l1, this`l2, this`dependencies, this`cascades
      ensures Visit(n, key, old(dependencies)).Some?
      ensures var o := Visit(n, key, old(dependencies)).value;
              && dependencies == o.graph
              && l1 == Minus(old(l1), o.visited)
              && l2 == (if config.l2Enabled then Minus(old(l2), o.visited) else old(l2))
              && cascades == old(cascades) + |o.visited|
      decreases n, 0
    {
      ghost var g := dependencies;
      var deps := DependenciesOf(dependencies, key);
      if |deps| == 0 {
        return;
      }
      assert deps[0] in g[key];
      ghost var visited: seq<Key> := [];
      for i := 0 to |deps|
        invariant VisitAll(n - 1, deps[..i], g) == Some(Outcome(dependencies, visited))
        invariant Subgraph(dependencies, g)
        invariant l1 == Minus(old(l1), visited)
        invariant l2 == (if config.l2Enabled then Minus(old(l2), visited) else old(l2))
        invariant cascades == old(cascades) + |visited|
      {
        var dep := deps[i];
        assert dep in g[key];
        SubgraphBounded(dependencies, g, dep, n - 1);
        ghost var more := InvalidateDependency(dep, n - 1);
        VisitAllSnoc(n - 1, deps[..i], dep, g);
        assert deps[..i + 1] == deps[..i] + [dep];
        MinusMore(old(l1), visited, dep, more);
        MinusMore(old(l2), visited, dep, more);
        visited := visited + [dep] + more;
      }
      assert deps[..|deps|] == deps;
      dependencies := dependencies - {key};
    }

    /** One round of that loop: remove the dependency from both levels, count it, and recurse. */
    method InvalidateDependency(dep: Key, ghost n: nat) returns (ghost visited: seq<Key>)
      requires NoEmptyLists(dependencies) && PathsBounded(dependencies, dep, n)
      modifies this`l1, this`l2, this`dependencies, this`cascades
      ensures Visit(n, dep, old(dependencies)) == Some(Outcome(dependencies, visited))
      ensures Subgraph(dependencies, old(dependencies))
      ensures l1 == Minus(old(l1) - {dep}, visited)
      ensures l2 == (if config.l2Enabled then Minus(old(l2) - {dep}, visited) else old(l2))
      ensures cascades == old(cascades) + 1 + |visited|
      decreases n, 1
    {
      l1 := l1 - {dep};
      if config.l2Enabled {
        l2 := l2 - {dep};
      }
      cascades := cascades + 1;
      InvalidateDependencies(dep, n);
      visited := Visit(n, dep, old(dependencies)).value.visited;
      VisitShrinks(n, dep, old(dependencies));
    }

    /** The removals of Invalidate: the key itself, then the cascade. */
    method RemoveWithDependents(key: Key, ghost n: nat) returns (ghost gone: set<Key>)
      requires NoEmptyLists(dependencies) && PathsBounded(dependencies, key, n)
      modifies this`l1, this`l2, this`dependencies, this`cascades
      ensures forall k :: k in gone <==> Reaches(old(dependencies), key, k)
      ensures l1 == old(l1) - gone
      ensures l2 == (if config.l2Enabled then old(l2) - gone else old(l2))
      ensures dependencies == Without(old(dependencies), Reachable(old(dependencies), key))
      ensures cascades == old(cascades) + Edges(Within(old(dependencies), Reachable(old(dependencies), key)))
    {
      CascadeExact(n, key, dependencies, n);
      ghost var visited := Visit(n, key, dependencies).value.visited;
      gone := {key} + set k | k in visited;
      l1 := l1 - {key};
      if config.l2Enabled {
        l2 := l2 - {key};
      }
      InvalidateDependencies(key, n);
      MinusMore(old(l1), [], key, visited);
      MinusMore(old(l2), [], key, visited);
    }

    /**
     Removes exactly the keys reachable from `key` from both levels and drops
     exactly their dependency lists, counting every edge that leaves one of them once.
     */
    method Invalidate(key: Key) returns (ghost gone: set<Key>)
      requires Valid() && Acyclic(dependencies, key)
      modifies this`l1, this`l2, this`dependencies, this`cascades, this`invalidations, this`log
      ensures Valid()
      ensures forall k :: k in gone <==> Reaches(old(dependencies), key, k)
      ensures l1 == old(l1) - gone && l2 == old(l2) - gone
      ensures dependencies == Without(old(dependencies), Reachable(old(dependencies), key))
      ensures cascades == old(cascades) + Edges(Within(old(dependencies), Reachable(old(dependencies), key)))
      ensures invalidations == old(invalidations) + 1
      ensures log == old(log) + [Dropped(gone)]
    {
      ghost var n: nat :| PathsBounded(dependencies, key, n);
      gone := RemoveWithDependents(key, n);
      invalidations := invalidations + 1;
      log := log + [Dropped(gone)];
      DropKeepsAgreement(config, old(l1), old(l2), old(log), gone);
      LossKeepsHolding(config, old(l1), old(log), clock, gone, Dropped(gone));
    }
  }
}

/**
 Agent configurations (pkg/agents/config.go, repository.go, service.go): a table of
 versioned rows of which at most one per agent is active, and a cache of the active
 rows in front of it.

 Every method is one atomic step.  Fresh ids, clock readings and the success of a
 database statement are parameters; a failed statement leaves the table alone.
 */
module ConfigService {
  import opened Common

  type Id = nat

  datatype Preference = Preference(task: string, primary: seq<string>, fallback: seq<string>, weight: real)

  /** The two limits Validate looks at, and the rest. */
  datatype Constraints = Constraints(maxCost: real, minSLA: real, others: string)

  datatype Config = Config(
    id: Id, agent: string, version: int, strategy: string, preferences: seq<Preference>, constraints: Constraints,
    fallback: string, metadata: map<string, string>, active: bool, createdAt: Time, updatedAt: Time, createdBy: string)

  /** ConfigUpdateRequest; an absent field is a nil pointer, slice or map. */
  datatype Update = Update(
    strategy: Option<string>, preferences: Option<seq<Preference>>, constraints: Option<Constraints>,
    fallback: Option<string>, metadata: Option<map<string, string>>, updatedBy: string)

  datatype Problem =
    | NoAgent | NoPreferences | DuplicateTask(task: string) | NoPrimary(task: string) | BadCost | BadSLA

  datatype Outcome<T> = Ok(value: T) | Invalid | Exists | NotFound | StoreFailed

  // ---------------------------------------------------------------- one configuration

  ghost predicate DistinctTasks(ps: seq<Preference>) {
    forall i, j :: 0 <= i < j < |ps| ==> ps[i].task != ps[j].task
  }

  ghost predicate WellFormed(c: Config) {
    && c.agent != "" && c.preferences != []
    && DistinctTasks(c.preferences)
    && (forall i :: 0 <= i < |c.preferences| ==> c.preferences[i].primary != [])
    && c.constraints.maxCost >= 0.0 && 0.0 <= c.constraints.minSLA <= 1.0
  }

  /** Finds nothing wrong exactly with the well-formed configurations, and what it reports is there. */
  method Validate(c: Config) returns (problem: Option<Problem>)
    ensures problem.None? <==> WellFormed(c)
    ensures problem == Some(NoAgent) <==> c.agent == ""
    ensures problem == Some(NoPreferences) <==> c.agent != "" && c.preferences == []
    ensures problem == Some(BadCost) ==> c.constraints.maxCost < 0.0
    ensures problem == Some(BadSLA) ==> c.constraints.minSLA < 0.0 || c.constraints.minSLA > 1.0
    ensures problem.Some? && problem.value.DuplicateTask? ==>
              exists i, j :: 0 <= i < j < |c.preferences|
                             && c.preferences[i].task == c.preferences[j].task == problem.value.task
    ensures problem.Some? && problem.value.NoPrimary? ==>
              exists i :: 0 <= i < |c.preferences|
                          && c.preferences[i].task == problem.value.task && c.preferences[i].primary == []
  {
    if c.agent == "" {
      return Some(NoAgent);
    }
    if |c.preferences| == 0 {
      return Some(NoPreferences);
    }
    var seen: set<string> := {};
    for i := 0 to |c.preferences|
      invariant seen == set j | 0 <= j < i :: c.preferences[j].task
      invariant DistinctTasks(c.preferences[..i])
      invariant forall j :: 0 <= j < i ==> c.preferences[j].primary != []
    {
      var p := c.preferences[i];
      if p.task in seen {
        return Some(DuplicateTask(p.task));
      }
      seen := seen + {p.task};
      if |p.primary| == 0 {
        return Some(NoPrimary(p.task));
      }
    }
    assert c.preferences[..|c.preferences|] == c.preferences;
    if c.constraints.maxCost < 0.0 {
      return Some(BadCost);
    }
    if c.constraints.minSLA < 0.0 || c.constraints.minSLA > 1.0 {
      return Some(BadSLA);
    }
    return None;
  }

  /** The index of the first preference for the task type, or the number of preferences. */
  function FirstFor(ps: seq<Preference>, task: string): nat {
    if ps == [] || ps[0].task == task then 0 else 1 + FirstFor(ps[1..], task)
  }

  lemma {:induction false} FirstForFinds(ps: seq<Preference>, task: string, i: nat)
    requires i <= |ps| && (forall j :: 0 <= j < i ==> ps[j].task != task) && (i < |ps| ==> ps[i].task == task)
    ensures FirstFor(ps, task) == i
    decreases |ps|
  {
    if i > 0 {
      assert forall j :: 0 <= j < i - 1 ==> ps[1..][j] == ps[j + 1];
      FirstForFinds(ps[1..], task, i - 1);
    }
  }

  /** The first preference for the task type, or else the first for "general_qa". */
  method GetModelsForTask(c: Config, task: string) returns (found: Option<Preference>)
    ensures var i, g := FirstFor(c.preferences, task), FirstFor(c.preferences, "general_qa");
            if i < |c.preferences| then found == Some(c.preferences[i])
            else if g < |c.preferences| then found == Some(c.preferences[g])
            else found == None
  {
    for i := 0 to |c.preferences|
      invariant forall j :: 0 <= j < i ==> c.preferences[j].task != task
    {
      if c.preferences[i].task == task {
        FirstForFinds(c.preferences, task, i);
        return Some(c.preferences[i]);
      }
    }
    FirstForFinds(c.preferences, task, |c.preferences|);
    for i := 0 to |c.preferences|
      invariant forall j :: 0 <= j < i ==> c.preferences[j].task != "general_qa"
    {
      if c.preferences[i].task == "general_qa" {
        FirstForFinds(c.preferences, "general_qa", i);
        return Some(c.preferences[i]);
      }
    }
    FirstForFinds(c.preferences, "general_qa", |c.preferences|);
    return None;
  }

  // ---------------------------------------------------------------- the table

  predicate ActiveFor(c: Config, agent: string) {
    c.agent == agent && c.active
  }

  /** GetConfig of the repository: the active row of the agent with the highest version. */
  function Current(rows: seq<Config>, agent: string): Option<Config> {
    if rows == [] then None
    else
      var rest, last := Current(rows[..|rows| - 1], agent), rows[|rows| - 1];
      if !ActiveFor(last, agent) || (rest.Some? && rest.value.version >= last.version) then rest else Some(last)
  }

  function ById(rows: seq<Config>, id: Id): Option<Config> {
    if rows == [] then None
    else if rows[|rows| - 1].id == id then Some(rows[|rows| - 1])
    else ById(rows[..|rows| - 1], id)
  }

  function Off(c: Config, now: Time): Config {
    c.(active := false, updatedAt := now)
  }

  /** UPDATE ... SET is_active = false WHERE agent_id = $2 AND is_active = true. */
  function DeactivateAgent(rows: seq<Config>, agent: string, now: Time): seq<Config> {
    seq(|rows|, i requires 0 <= i < |rows| => if ActiveFor(rows[i], agent) then Off(rows[i], now) else rows[i])
  }

  /** UPDATE ... SET is_active = false WHERE id = $2. */
  function DeactivateId(rows: seq<Config>, id: Id, now: Time): seq<Config> {
    seq(|rows|, i requires 0 <= i < |rows| => if rows[i].id == id then Off(rows[i], now) else rows[i])
  }

  function FirstVersion(c: Config, id: Id, now: Time): Config {
    c.(id := id, version := 1, active := true, createdAt := now, updatedAt := now)
  }

  /** The next version: a clone of the current row with the update's fields laid over it. */
  function NextVersion(c: Config, u: Update, id: Id, now: Time): Config {
    Config(id, c.agent, c.version + 1,
           if u.strategy.Some? then u.strategy.value else c.strategy,
           if u.preferences.Some? then u.preferences.value else c.preferences,
           if u.constraints.Some? then u.constraints.value else c.constraints,
           if u.fallback.Some? then u.fallback.value else c.fallback,
           if u.metadata.Some? then c.metadata + u.metadata.value else c.metadata,
           c.active, now, now, u.updatedBy)
  }

  function Later<T>(first: Option<T>, second: Option<T>): Option<T> {
    if second.Some? then second else first
  }

  /** One update that stands for two in a row. */
  function Merge(u: Update, v: Update): Update {
    Update(Later(u.strategy, v.strategy), Later(u.preferences, v.preferences), Later(u.constraints, v.constraints),
           Later(u.fallback, v.fallback),
           if u.metadata.Some? && v.metadata.Some? then Some(u.metadata.value + v.metadata.value)
           else Later(u.metadata, v.metadata),
           v.updatedBy)
  }

  /** The update that names every setting of a configuration. */
  function Naming(d: Config): Update {
    Update(Some(d.strategy), Some(d.preferences), Some(d.constraints), Some(d.fallback), Some(d.metadata), d.createdBy)
  }

  const NoChange: Update := Update(None, None, None, None, None, "")

  /**
   Updates compose: two versions on, a row is as if changed by the merged update.  An empty
   update keeps every setting, and one that names every setting takes each, laying metadata over the old.
   */
  lemma UpdatesCompose(c: Config, d: Config, u: Update, v: Update, id: Id, id': Id, now: Time, now': Time)
    ensures NextVersion(NextVersion(c, u, id, now), v, id', now')
         == NextVersion(c, Merge(u, v), id', now').(version := c.version + 2)
    ensures NextVersion(c, NoChange, id, now)
         == c.(id := id, version := c.version + 1, createdAt := now, updatedAt := now, createdBy := "")
    ensures NextVersion(c, Naming(d), id, now)
         == d.(id := id, agent := c.agent, version := c.version + 1, metadata := c.metadata + d.metadata,
               active := c.active, createdAt := now, updatedAt := now)
  {
    if u.metadata.Some? && v.metadata.Some? {
      assert c.metadata + u.metadata.value + v.metadata.value == c.metadata + (u.metadata.value + v.metadata.value);
    }
  }

  ghost predicate DistinctIds(rows: seq<Config>) {
    forall i, j :: 0 <= i < j < |rows| ==> rows[i].id != rows[j].id
  }

  ghost predicate OneActive(rows: seq<Config>) {
    forall i, j :: 0 <= i < j < |rows| && rows[i].active && rows[j].active ==> rows[i].agent != rows[j].agent
  }

  ghost predicate AllWellFormed(rows: seq<Config>) {
    forall i :: 0 <= i < |rows| ==> WellFormed(rows[i])
  }

  ghost predicate FreshId(rows: seq<Config>, id: Id) {
    forall i :: 0 <= i < |rows| ==> rows[i].id != id
  }

  /** How many rows the agent has. */
  function Count(rows: seq<Config>, agent: string): nat {
    if rows == [] then 0
    else Count(rows[..|rows| - 1], agent) + if rows[|rows| - 1].agent == agent then 1 else 0
  }

  /** The rows of an agent carry the versions 1, 2, .. in row order, and only the last of them may be active. */
  ghost predicate Versioned(rows: seq<Config>) {
    rows == [] ||
    var init, last := rows[..|rows| - 1], rows[|rows| - 1];
    && Versioned(init) && last.version == Count(init, last.agent) + 1
    && forall i :: 0 <= i < |init| && init[i].agent == last.agent ==> !init[i].active
  }

  ghost predicate TableInv(rows: seq<Config>) {
    DistinctIds(rows) && OneActive(rows) && AllWellFormed(rows) && Versioned(rows)
  }

  /**
   What the schema refuses to insert: a second row with the same agent and version, and
   with the later unique index any second row of an agent.
   */
  predicate Conflicts(oneRowPerAgent: bool, rows: seq<Config>, c: Config) {
    exists i :: 0 <= i < |rows| && rows[i].agent == c.agent && (oneRowPerAgent || rows[i].version == c.version)
  }

  /** The agent's configuration was deactivated or deleted. */
  predicate Retired(rows: seq<Config>, agent: string) {
    Count(rows, agent) > 0 && Current(rows, agent).None?
  }

  lemma {:induction false} VersionsOf(rows: seq<Config>, agent: string)
    requires Versioned(rows)
    ensures forall i :: 0 <= i < |rows| && rows[i].agent == agent ==> 1 <= rows[i].version <= Count(rows, agent)
    ensures forall i :: 0 <= i < |rows| && ActiveFor(rows[i], agent) ==> rows[i].version == Count(rows, agent)
    ensures Count(rows, agent) > 0 <==> exists i :: 0 <= i < |rows| && rows[i].agent == agent && rows[i].version == 1
    decreases |rows|
  {
    if rows != [] {
      var n := |rows| - 1;
      VersionsOf(rows[..n], agent);
      assert forall i :: 0 <= i < n ==> rows[i] == rows[..n][i];
      if Count(rows[..n], agent) > 0 {
        var i :| 0 <= i < n && rows[..n][i].agent == agent && rows[..n][i].version == 1;
        assert rows[i].agent == agent && rows[i].version == 1;
      }
      if rows[n].agent == agent && Count(rows[..n], agent) == 0 {
        assert rows[n].version == 1;
      }
    }
  }

  /** The first version of an agent is refused exactly when the agent has a row, whatever indexes there are. */
  lemma FirstVersionConflicts(oneRowPerAgent: bool, rows: seq<Config>, c: Config)
    requires Versioned(rows) && c.version == 1
    ensures Conflicts(oneRowPerAgent, rows, c) <==> Count(rows, c.agent) > 0
  {
    VersionsOf(rows, c.agent);
    if Count(rows, c.agent) > 0 {
      var i :| 0 <= i < |rows| && rows[i].agent == c.agent && rows[i].version == 1;
    }
    if Conflicts(oneRowPerAgent, rows, c) {
      var i :| 0 <= i < |rows| && rows[i].agent == c.agent;
      assert rows[i].version <= Count(rows, c.agent);
    }
  }

  /** The next version of an agent is refused exactly when an agent may have one row only. */
  lemma NextVersionConflicts(oneRowPerAgent: bool, rows: seq<Config>, c: Config)
    requires Versioned(rows) && Count(rows, c.agent) > 0 && c.version == Count(rows, c.agent) + 1
    ensures Conflicts(oneRowPerAgent, rows, c) <==> oneRowPerAgent
  {
    VersionsOf(rows, c.agent);
    var i :| 0 <= i < |rows| && rows[i].agent == c.agent && rows[i].version == 1;
  }

  lemma CurrentVersion(rows: seq<Config>, agent: string)
    requires Versioned(rows) && Current(rows, agent).Some?
    ensures Current(rows, agent).value.agent == agent && Current(rows, agent).value.version == Count(rows, agent) > 0
  {
    CurrentIsActive(rows, agent);
    VersionsOf(rows, agent);
    var i :| 0 <= i < |rows| && rows[i] == Current(rows, agent).value;
  }

  /** Rows are only switched off. */
  ghost predicate OnlyOff(rows: seq<Config>, rows': seq<Config>) {
    && |rows'| == |rows|
    && forall i :: 0 <= i < |rows| ==>
         rows'[i].agent == rows[i].agent && rows'[i].version == rows[i].version && (rows'[i].active ==> rows[i].active)
  }

  lemma {:induction false} OnlyOffKeepsVersions(rows: seq<Config>, rows': seq<Config>)
    requires OnlyOff(rows, rows')
    ensures forall a :: Count(rows', a) == Count(rows, a)
    ensures Versioned(rows) ==> Versioned(rows')
    decreases |rows|
  {
    if rows != [] {
      OnlyOffKeepsVersions(rows[..|rows| - 1], rows'[..|rows| - 1]);
    }
  }

  ghost predicate CacheAgrees(rows: seq<Config>, cache: map<string, Config>) {
    forall a :: a in cache ==> Current(rows, a) == Some(cache[a])
  }

  /** Current finds an active row of the agent whenever there is one. */
  lemma {:induction false} CurrentIsActive(rows: seq<Config>, agent: string)
    ensures Current(rows, agent).Some? ==>
              Current(rows, agent).value in rows && ActiveFor(Current(rows, agent).value, agent)
    ensures Current(rows, agent).None? ==> forall i :: 0 <= i < |rows| ==> !ActiveFor(rows[i], agent)
    ensures Current(rows, agent).Some? ==>
              forall i :: 0 <= i < |rows| && ActiveFor(rows[i], agent) ==> rows[i].version <= Current(rows, agent).value.version
    decreases |rows|
  {
    if rows != [] {
      CurrentIsActive(rows[..|rows| - 1], agent);
    }
  }

  /** With one active row per agent, that row is the current one. */
  lemma TheActiveRowIsCurrent(rows: seq<Config>, i: nat)
    requires OneActive(rows) && i < |rows| && rows[i].active
    ensures Current(rows, rows[i].agent) == Some(rows[i])
  {
    CurrentIsActive(rows, rows[i].agent);
    var c := Current(rows, rows[i].agent).value;
    var j :| 0 <= j < |rows| && rows[j] == c;
  }

  lemma SameActiveRowsSameCurrent(rows: seq<Config>, rows': seq<Config>, agent: string)
    requires OneActive(rows) && OneActive(rows')
    requires forall i :: 0 <= i < |rows| && ActiveFor(rows[i], agent) ==> rows[i] in rows'
    requires forall i :: 0 <= i < |rows'| && ActiveFor(rows'[i], agent) ==> rows'[i] in rows
    ensures Current(rows', agent) == Current(rows, agent)
  {
    CurrentIsActive(rows, agent);
    CurrentIsActive(rows', agent);
    if Current(rows, agent).Some? {
      var i :| 0 <= i < |rows'| && rows'[i] == Current(rows, agent).value;
      TheActiveRowIsCurrent(rows', i);
    }
  }

  lemma {:induction false} ByIdFinds(rows: seq<Config>, id: Id)
    ensures ById(rows, id).Some? ==> ById(rows, id).value in rows && ById(rows, id).value.id == id
    ensures ById(rows, id).None? ==> FreshId(rows, id)
    decreases |rows|
  {
    if rows != [] {
      ByIdFinds(rows[..|rows| - 1], id);
    }
  }

  /** Two rows that differ in the active flag and the time of the last change at most. */
  predicate SameContent(c: Config, d: Config) {
    c == d.(active := c.active, updatedAt := c.updatedAt)
  }

  /** Exactly the agent's rows are switched off, and no row loses its content. */
  lemma DeactivateAgentKeepsContent(rows: seq<Config>, agent: string, now: Time, i: nat)
    requires i < |rows|
    ensures var rows' := DeactivateAgent(rows, agent, now);
            && |rows'| == |rows| && SameContent(rows'[i], rows[i])
            && (rows'[i].active <==> rows[i].active && rows[i].agent != agent)
            && rows'[i].updatedAt == if rows[i].active && rows[i].agent == agent then now else rows[i].updatedAt
  {
  }

  /** Exactly the row with the id is switched off, and no row loses its content. */
  lemma DeactivateIdKeepsContent(rows: seq<Config>, id: Id, now: Time, i: nat)
    requires i < |rows|
    ensures var rows' := DeactivateId(rows, id, now);
            && |rows'| == |rows| && SameContent(rows'[i], rows[i])
            && (rows'[i].active <==> rows[i].active && rows[i].id != id)
            && rows'[i].updatedAt == if rows[i].id == id then now else rows[i].updatedAt
  {
  }

  lemma DeactivateAgentKeepsTable(rows: seq<Config>, agent: string, now: Time)
    requires TableInv(rows)
    ensures TableInv(DeactivateAgent(rows, agent, now))
    ensures forall a :: Count(DeactivateAgent(rows, agent, now), a) == Count(rows, a)
    ensures forall id :: FreshId(rows, id) ==> FreshId(DeactivateAgent(rows, agent, now), id)
  {
    OnlyOffKeepsVersions(rows, DeactivateAgent(rows, agent, now));
  }

  lemma DeactivateIdKeepsTable(rows: seq<Config>, id: Id, now: Time)
    requires TableInv(rows)
    ensures TableInv(DeactivateId(rows, id, now))
    ensures forall a :: Count(DeactivateId(rows, id, now), a) == Count(rows, a)
  {
    OnlyOffKeepsVersions(rows, DeactivateId(rows, id, now));
  }

  lemma DeactivateAgentSparesOthers(rows: seq<Config>, agent: string, now: Time, a: string)
    requires OneActive(rows) && a != agent
    ensures Current(DeactivateAgent(rows, agent, now), a) == Current(rows, a)
  {
    var rows' := DeactivateAgent(rows, agent, now);
    assert forall i :: 0 <= i < |rows| && rows[i].agent == a ==> rows'[i] == rows[i];
    SameActiveRowsSameCurrent(rows, rows', a);
  }

  /** Deactivating an agent's rows leaves it without a current row and every other agent untouched. */
  lemma DeactivateAgentEffect(rows: seq<Config>, agent: string, now: Time)
    requires TableInv(rows)
    ensures TableInv(DeactivateAgent(rows, agent, now))
    ensures Current(DeactivateAgent(rows, agent, now), agent) == None
    ensures forall a :: a != agent ==> Current(DeactivateAgent(rows, agent, now), a) == Current(rows, a)
    ensures forall id :: FreshId(rows, id) ==> FreshId(DeactivateAgent(rows, agent, now), id)
    ensures forall a :: Count(DeactivateAgent(rows, agent, now), a) == Count(rows, a)
  {
    var rows' := DeactivateAgent(rows, agent, now);
    DeactivateAgentKeepsTable(rows, agent, now);
    CurrentIsActive(rows', agent);
    forall a | a != agent ensures Current(rows', a) == Current(rows, a) {
      DeactivateAgentSparesOthers(rows, agent, now, a);
    }
  }

  /** Deactivating one row changes at most its own agent's current row, and only if it was that row. */
  lemma DeactivateIdEffect(rows: seq<Config>, id: Id, now: Time)
    requires TableInv(rows)
    ensures TableInv(DeactivateId(rows, id, now))
    ensures forall a :: Count(DeactivateId(rows, id, now), a) == Count(rows, a)
    ensures forall a :: Current(DeactivateId(rows, id, now), a)
                        == if Current(rows, a).Some? && Current(rows, a).value.id == id then None else Current(rows, a)
  {
    var rows' := DeactivateId(rows, id, now);
    DeactivateIdKeepsTable(rows, id, now);
    forall a ensures Current(rows', a)
                     == if Current(rows, a).Some? && Current(rows, a).value.id == id then None else Current(rows, a) {
      CurrentIsActive(rows, a);
      CurrentIsActive(rows', a);
      if Current(rows, a).Some? {
        var i :| 0 <= i < |rows| && rows[i] == Current(rows, a).value;
        if rows[i].id == id {
          assert !rows'[i].active;
          assert forall j :: 0 <= j < |rows'| ==> !ActiveFor(rows'[j], a);
        } else {
          assert rows'[i] == rows[i];
          TheActiveRowIsCurrent(rows', i);
        }
      } else {
        assert forall j :: 0 <= j < |rows'| ==> !ActiveFor(rows'[j], a);
      }
    }
  }

  lemma CountSnoc(rows: seq<Config>, c: Config, agent: string)
    ensures Count(rows + [c], agent) == Count(rows, agent) + if agent == c.agent then 1 else 0
  {
    assert (rows + [c])[..|rows|] == rows;
  }

  lemma InsertKeepsVersions(rows: seq<Config>, c: Config)
    requires Versioned(rows) && c.version == Count(rows, c.agent) + 1
    requires forall i :: 0 <= i < |rows| ==> !ActiveFor(rows[i], c.agent)
    ensures Versioned(rows + [c])
  {
    assert (rows + [c])[..|rows|] == rows;
  }

  lemma InsertCurrent(rows: seq<Config>, c: Config, agent: string)
    requires c.active && Current(rows, c.agent) == None
    ensures Current(rows + [c], agent) == if agent == c.agent then Some(c) else Current(rows, agent)
  {
    assert (rows + [c])[..|rows|] == rows;
  }

  lemma InsertKeepsTable(rows: seq<Config>, c: Config)
    requires TableInv(rows) && WellFormed(c) && FreshId(rows, c.id) && c.active
    requires Current(rows, c.agent) == None && c.version == Count(rows, c.agent) + 1
    ensures TableInv(rows + [c])
  {
    CurrentIsActive(rows, c.agent);
    InsertKeepsVersions(rows, c);
    InsertSafeIff(rows, c);
  }

  /** A new active row becomes its agent's current row, if the agent had none. */
  lemma InsertEffect(rows: seq<Config>, c: Config)
    requires TableInv(rows) && WellFormed(c) && FreshId(rows, c.id) && c.active
    requires Current(rows, c.agent) == None && c.version == Count(rows, c.agent) + 1
    ensures TableInv(rows + [c])
    ensures forall a :: Count(rows + [c], a) == Count(rows, a) + if a == c.agent then 1 else 0
    ensures forall a :: Current(rows + [c], a) == if a == c.agent then Some(c) else Current(rows, a)
  {
    InsertKeepsTable(rows, c);
    forall a ensures Count(rows + [c], a) == Count(rows, a) + if a == c.agent then 1 else 0 {
      CountSnoc(rows, c, a);
    }
    forall a ensures Current(rows + [c], a) == if a == c.agent then Some(c) else Current(rows, a) {
      InsertCurrent(rows, c, a);
    }
  }

  /** Inserting keeps one active row per agent if and only if the agent had none. */
  lemma InsertSafeIff(rows: seq<Config>, c: Config)
    requires OneActive(rows) && c.active
    ensures OneActive(rows + [c]) <==> Current(rows, c.agent) == None
  {
    CurrentIsActive(rows, c.agent);
    if Current(rows, c.agent).Some? {
      var i :| 0 <= i < |rows| && rows[i] == Current(rows, c.agent).value;
      assert (rows + [c])[i] == rows[i] && (rows + [c])[|rows|] == c;
    }
  }

  // ---------------------------------------------------------------- listing

  function ActiveRows(rows: seq<Config>): seq<Config> {
    if rows == [] then []
    else ActiveRows(rows[..|rows| - 1]) + if rows[|rows| - 1].active then [rows[|rows| - 1]] else []
  }

  function InsertNewestFirst(c: Config, sorted: seq<Config>): seq<Config> {
    if sorted == [] || c.createdAt >= sorted[0].createdAt then [c] + sorted
    else [sorted[0]] + InsertNewestFirst(c, sorted[1..])
  }

  function NewestFirst(rows: seq<Config>): seq<Config> {
    if rows == [] then [] else InsertNewestFirst(rows[0], NewestFirst(rows[1..]))
  }

  /** ListConfigs with IsActive set: newest first, at most `limit` rows. */
  function ListActive(rows: seq<Config>, limit: nat): seq<Config> {
    var all := NewestFirst(ActiveRows(rows));
    if |all| <= limit then all else all[..limit]
  }

  lemma {:induction false} InsertKeepsRows(c: Config, sorted: seq<Config>)
    ensures multiset(InsertNewestFirst(c, sorted)) == multiset{c} + multiset(sorted)
    ensures |InsertNewestFirst(c, sorted)| == |sorted| + 1
    decreases |sorted|
  {
    if sorted != [] {
      assert sorted == [sorted[0]] + sorted[1..];
      InsertKeepsRows(c, sorted[1..]);
    }
  }

  lemma {:induction false} SortKeepsRows(rows: seq<Config>)
    ensures multiset(NewestFirst(rows)) == multiset(rows) && |NewestFirst(rows)| == |rows|
    decreases |rows|
  {
    if rows != [] {
      assert rows == [rows[0]] + rows[1..];
      SortKeepsRows(rows[1..]);
      InsertKeepsRows(rows[0], NewestFirst(rows[1..]));
    }
  }

  lemma {:induction false} ActiveRowsAre(rows: seq<Config>, c: Config)
    ensures c in ActiveRows(rows) <==> c in rows && c.active
    decreases |rows|
  {
    if rows != [] {
      assert rows == rows[..|rows| - 1] + [rows[|rows| - 1]];
      ActiveRowsAre(rows[..|rows| - 1], c);
    }
  }

  ghost predicate SortedNewestFirst(rows: seq<Config>) {
    forall i, j :: 0 <= i < j < |rows| ==> rows[i].createdAt >= rows[j].createdAt
  }

  lemma {:induction false} InsertKeepsOrder(c: Config, sorted: seq<Config>)
    requires SortedNewestFirst(sorted)
    ensures SortedNewestFirst(InsertNewestFirst(c, sorted))
    decreases |sorted|
  {
    if sorted != [] && c.createdAt < sorted[0].createdAt {
      var rest := InsertNewestFirst(c, sorted[1..]);
      InsertKeepsOrder(c, sorted[1..]);
      InsertKeepsRows(c, sorted[1..]);
      forall j | 0 <= j < |rest| ensures sorted[0].createdAt >= rest[j].createdAt {
        assert rest[j] in multiset(rest);
        assert rest[j] == c || rest[j] in multiset(sorted[1..]);
      }
    }
  }

  lemma {:induction false} SortSorts(rows: seq<Config>)
    ensures SortedNewestFirst(NewestFirst(rows))
    decreases |rows|
  {
    if rows != [] {
      SortSorts(rows[1..]);
      InsertKeepsOrder(rows[0], NewestFirst(rows[1..]));
    }
  }

  /** What is listed is active; an active row is left out only when the limit is exceeded, and then it is no newer. */
  lemma ListedRows(rows: seq<Config>, limit: nat, c: Config)
    ensures c in ListActive(rows, limit) ==> c in rows && c.active
    ensures |ListActive(rows, limit)| <= limit
    ensures forall i, j :: 0 <= i < j < |ListActive(rows, limit)| ==>
              ListActive(rows, limit)[i].createdAt >= ListActive(rows, limit)[j].createdAt
    ensures c in rows && c.active && c !in ListActive(rows, limit) ==>
              |ActiveRows(rows)| > limit && forall d :: d in ListActive(rows, limit) ==> d.createdAt >= c.createdAt
  {
    var all := NewestFirst(ActiveRows(rows));
    SortKeepsRows(ActiveRows(rows));
    SortSorts(ActiveRows(rows));
    ActiveRowsAre(rows, c);
    assert c in all <==> c in multiset(all);
    assert c in ActiveRows(rows) <==> c in multiset(ActiveRows(rows));
  }

  // ---------------------------------------------------------------- the service

  class Service {
    var rows: seq<Config>
    var cache: map<string, Config>
    const oneRowPerAgent: bool // the unique index on agent_id is in place

    ghost predicate Valid()
      reads this
    {
      TableInv(rows) && CacheAgrees(rows, cache)
    }

    constructor (oneRowPerAgent: bool)
      ensures Valid() && rows == [] && cache == map[] && this.oneRowPerAgent == oneRowPerAgent
    {
      rows, cache, this.oneRowPerAgent := [], map[], oneRowPerAgent;
    }

    /** The cached answer is the uncached one; only without it can a failing read show. */
    method GetConfig(agent: string, readOk: bool) returns (r: Outcome<Config>)
      requires Valid()
      modifies this`cache
      ensures Valid()
      ensures r == if agent !in old(cache) && !readOk then StoreFailed
                   else if Current(rows, agent).Some? then Ok(Current(rows, agent).value) else NotFound
      ensures cache == if r.Ok? then old(cache)[agent := r.value] else old(cache)
    {
      if agent in cache {
        assert cache == cache[agent := cache[agent]];
        return Ok(cache[agent]);
      }
      if !readOk {
        return StoreFailed;
      }
      var row := Current(rows, agent);
      if row.None? {
        return NotFound;
      }
      cache := cache[agent := row.value];
      return Ok(row.value);
    }

    /**
     Creates the first version, for exactly the agents that never had a row: after a failed
     lookup (`readOk` false) the source goes on as if there were no configuration, and
     for a retired agent there is none, but the table already holds a first version.
     */
    method CreateConfig(c: Config, tagsOk: bool, readOk: bool, insertOk: bool, id: Id, now: Time)
      returns (r: Outcome<Config>)
      requires Valid() && FreshId(rows, id)
      modifies this
      ensures Valid()
      ensures r.Ok? <==> tagsOk && WellFormed(c) && insertOk && Count(old(rows), c.agent) == 0
      ensures r.Exists? <==> tagsOk && WellFormed(c) && readOk && Current(old(rows), c.agent).Some?
      ensures r.Ok? ==>
                && r.value.id == id && r.value.version == 1 && r.value.active && r.value.createdAt == r.value.updatedAt == now
                && c == r.value.(id := c.id, version := c.version, active := c.active, createdAt := c.createdAt, updatedAt := c.updatedAt)
                && rows == old(rows) + [r.value] && cache == old(cache)[c.agent := r.value]
      ensures !r.Ok? ==> rows == old(rows) && cache == old(cache)
      ensures forall a :: Retired(old(rows), a) ==> Retired(rows, a)
    {
      if !tagsOk {
        return Invalid;
      }
      var problem := Validate(c);
      if problem.Some? {
        return Invalid;
      }
      if Current(rows, c.agent).Some? {
        CurrentVersion(rows, c.agent);
      }
      if readOk && Current(rows, c.agent).Some? {
        return Exists;
      }
      var row := FirstVersion(c, id, now);
      FirstVersionConflicts(oneRowPerAgent, rows, row);
      if !insertOk || Conflicts(oneRowPerAgent, rows, row) {
        return StoreFailed;
      }
      InsertEffect(rows, row);
      rows := rows + [row];
      cache := cache[c.agent := row];
      return Ok(row);
    }

    /** With the unique index on agent_id no update ever goes through. */
    method UpdateConfig(agent: string, u: Update, tagsOk: bool, commitOk: bool, id: Id, off: Time, now: Time)
      returns (r: Outcome<Config>)
      requires Valid() && FreshId(rows, id)
      modifies this
      ensures Valid()
      ensures var before := Current(old(rows), agent);
              && (r.Ok? <==>
                    tagsOk && before.Some? && WellFormed(NextVersion(before.value, u, id, now)) && commitOk && !oneRowPerAgent)
              && (r.Ok? ==>
                    && r.value == NextVersion(before.value, u, id, now)
                    && rows == DeactivateAgent(old(rows), agent, off) + [r.value]
                    && Current(rows, agent) == Some(r.value)
                    && r.value.version == before.value.version + 1 == Count(old(rows), agent) + 1
                    && cache == old(cache)[agent := r.value])
      ensures !r.Ok? ==> rows == old(rows) && cache == old(cache)
      ensures forall a :: a != agent ==> Current(rows, a) == Current(old(rows), a)
      ensures forall a :: Retired(old(rows), a) ==> Retired(rows, a)
    {
      if !tagsOk {
        return Invalid;
      }
      var before := Current(rows, agent);
      if before.None? {
        return NotFound;
      }
      CurrentIsActive(rows, agent);
      CurrentVersion(rows, agent);
      var next := NextVersion(before.value, u, id, now);
      var problem := Validate(next);
      if problem.Some? {
        return Invalid;
      }
      var others := DeactivateAgent(rows, agent, off);
      DeactivateAgentEffect(rows, agent, off);
      NextVersionConflicts(oneRowPerAgent, others, next);
      if !commitOk || Conflicts(oneRowPerAgent, others, next) {
        return StoreFailed;
      }
      InsertEffect(others, next);
      rows := others + [next];
      cache := cache[agent := next];
      return Ok(next);
    }

    method DeactivateConfig(agent: string, updateOk: bool, now: Time) returns (r: Outcome<()>)
      requires Valid()
      modifies this
      ensures Valid()
      ensures r.Ok? <==> Current(old(rows), agent).Some? && updateOk
      ensures r.Ok? ==> rows == DeactivateAgent(old(rows), agent, now) && Retired(rows, agent)
                        && cache == old(cache) - {agent}
      ensures forall a :: Retired(old(rows), a) ==> Retired(rows, a)
      ensures !r.Ok? ==> rows == old(rows) && cache == old(cache)
    {
      if Current(rows, agent).None? {
        return NotFound;
      }
      if !updateOk {
        return StoreFailed;
      }
      DeactivateAgentEffect(rows, agent, now);
      CurrentVersion(rows, agent);
      rows := DeactivateAgent(rows, agent, now);
      cache := cache - {agent};
      return Ok(());
    }

    method DeleteConfig(id: Id, updateOk: bool, now: Time) returns (r: Outcome<()>)
      requires Valid()
      modifies this
      ensures Valid()
      ensures r.Ok? <==> ById(old(rows), id).Some? && updateOk
      ensures r.Ok? ==> rows == DeactivateId(old(rows), id, now)
      ensures r.Ok? ==> forall a :: Current(old(rows), a).Some? && Current(old(rows), a).value.id == id ==> Retired(rows, a)
      ensures forall a :: Retired(old(rows), a) ==> Retired(rows, a)
      ensures !r.Ok? ==> rows == old(rows) && cache == old(cache)
    {
      var row := ById(rows, id);
      if row.None? {
        return NotFound;
      }
      if !updateOk {
        return StoreFailed;
      }
      var a := row.value.agent;
      DeletedWasCached(a);
      DeactivateIdEffect(rows, id, now);
      forall b | Current(rows, b).Some? ensures Count(rows, b) > 0 {
        CurrentVersion(rows, b);
      }
      rows := DeactivateId(rows, id, now);
      if a in cache && cache[a].id == id {
        cache := cache - {a};
      }
      return Ok(());
    }

    /** A cached row with some id is cached under the agent of the table's row with that id. */
    lemma DeletedWasCached(a: string)
      requires Valid()
      ensures forall id, b :: ById(rows, id).Some? && ById(rows, id).value.agent == a && b in cache && cache[b].id == id
                              ==> b == a
    {
      forall id, b | ById(rows, id).Some? && ById(rows, id).value.agent == a && b in cache && cache[b].id == id
        ensures b == a
      {
        ByIdFinds(rows, id);
        CurrentIsActive(rows, b);
        var i :| 0 <= i < |rows| && rows[i] == ById(rows, id).value;
        var j :| 0 <= j < |rows| && rows[j] == cache[b];
      }
    }

    /** Rebuilds the cache from the active rows, of which the source lists at most 1000. */
    method RefreshCache(listOk: bool) returns (r: Outcome<()>)
      requires Valid()
      modifies this`cache
      ensures Valid()
      ensures r.Ok? <==> listOk
      ensures !listOk ==> cache == map[]
      ensures listOk && |ActiveRows(rows)| <= 1000 ==>
                forall a :: a in cache <==> Current(rows, a).Some?
    {
      cache := map[];
      if !listOk {
        return StoreFailed;
      }
      var configs := ListActive(rows, 1000);
      for i := 0 to |configs|
        invariant CacheAgrees(rows, cache)
        invariant forall j :: 0 <= j < i ==> configs[j].agent in cache
      {
        ListedRows(rows, 1000, configs[i]);
        var j :| 0 <= j < |rows| && rows[j] == configs[i];
        TheActiveRowIsCurrent(rows, j);
        cache := cache[configs[i].agent := configs[i]];
      }
      if |ActiveRows(rows)| <= 1000 {
        forall a | Current(rows, a).Some? ensures a in cache {
          CurrentIsActive(rows, a);
          ListedRows(rows, 1000, Current(rows, a).value);
        }
      }
      return Ok(());
    }
  }
}

/**
 The agent lifecycle (pkg/agents/types.go, pkg/agents/repository_enhanced.go): a
 transition table, and a repository that moves an agent along it while writing one
 event per transition in the same transaction.
 */
module AgentLifecycle {
  import opened Common

  datatype AgentState =
    | Pending | Configuring | Validating | Ready | Active | Degraded | Suspended | Terminating | Terminated

  /** StateTransitions, as a relation. */
  predicate Edge(s: AgentState, t: AgentState) {
    match s
    case Pending => t.Configuring? || t.Terminating?
    case Configuring => t.Validating? || t.Pending? || t.Terminating?
    case Validating => t.Ready? || t.Configuring? || t.Terminating?
    case Ready => t.Active? || t.Validating? || t.Terminating?
    case Active => t.Degraded? || t.Suspended? || t.Terminating?
    case Degraded => t.Active? || t.Suspended? || t.Terminating?
    case Suspended => t.Active? || t.Terminating?
    case Terminating => t.Terminated?
    case Terminated => false
  }

  /** A walk through the transition table. */
  predicate IsWalk(p: seq<AgentState>) {
    if |p| <= 1 then p != []
    else IsWalk(p[..|p| - 1]) && Edge(p[|p| - 2], p[|p| - 1])
  }

  lemma {:induction false} WalkEdge(p: seq<AgentState>, i: nat)
    requires IsWalk(p) && i + 1 < |p|
    ensures Edge(p[i], p[i + 1])
    decreases |p|
  {
    if i + 2 < |p| {
      WalkEdge(p[..|p| - 1], i);
    }
  }

  // ---------------------------------------------------------------- what the table allows

  predicate Commissioned(s: AgentState) {
    s.Active? || s.Degraded? || s.Suspended?
  }

  predicate Ended(s: AgentState) {
    s.Terminating? || s.Terminated?
  }

  /** How far through Configuring, Validating, Ready a walk that ends in `s` must have come; 3 is Ready. */
  function Progress(s: AgentState): nat {
    match s
    case Pending => 0
    case Configuring => 1
    case Validating => 2
    case Terminating => 0
    case Terminated => 0
    case _ => 3
  }

  /** The walk visits Configuring, then Validating, then Ready, as far as `n` of the three. */
  ghost predicate Passed(p: seq<AgentState>, n: nat, c: nat, v: nat, r: nat) {
    && (n >= 1 ==> c < |p| && p[c] == Configuring)
    && (n >= 2 ==> c < v < |p| && p[v] == Validating)
    && (n >= 3 ==> v < r < |p| && p[r] == Ready)
  }

  lemma {:induction false} ProgressNeeded(p: seq<AgentState>) returns (c: nat, v: nat, r: nat)
    requires IsWalk(p) && p[0] == Pending
    ensures Passed(p, Progress(p[|p| - 1]), c, v, r)
    decreases |p|
  {
    c, v, r := 0, 0, 0;
    if |p| > 1 {
      var n := |p| - 1;
      c, v, r := ProgressNeeded(p[..n]);
      assert Edge(p[n - 1], p[n]);
      match p[n]
      case Configuring => c := n;
      case Validating => if p[n - 1] == Configuring { v := n; }
      case Ready => r := n;
      case _ =>
    }
  }

  /** An agent that is active, degraded or suspended has been configuring, validating and ready, in that order. */
  lemma CommissionedWasReady(p: seq<AgentState>) returns (c: nat, v: nat, r: nat)
    requires IsWalk(p) && p[0] == Pending && Commissioned(p[|p| - 1])
    ensures c < v < r < |p| - 1 && p[c] == Configuring && p[v] == Validating && p[r] == Ready
  {
    c, v, r := ProgressNeeded(p);
  }

  /** Once commissioned, an agent stays commissioned until it is terminated, and nothing follows Terminated. */
  lemma {:induction false} NoWayBack(p: seq<AgentState>, i: nat, j: nat)
    requires IsWalk(p) && i <= j < |p|
    ensures Commissioned(p[i]) ==> Commissioned(p[j]) || Ended(p[j])
    ensures Ended(p[i]) ==> Ended(p[j])
    ensures p[i].Terminated? ==> i == j
    decreases j - i
  {
    if i < j {
      WalkEdge(p, i);
      NoWayBack(p, i + 1, j);
    }
  }

  predicate SetUp(s: AgentState) {
    s.Pending? || s.Configuring? || s.Validating? || s.Ready?
  }

  /** How far the set-up of an agent has come. */
  function Stage(s: AgentState): nat
    requires SetUp(s)
  {
    match s
    case Pending => 0
    case Configuring => 1
    case Validating => 2
    case Ready => 3
  }

  /**
   The shape of the table: set-up goes one stage on or back at a time, a ready agent may
   become active, a commissioned one may change between its three states, except
   from suspended to degraded, and any agent that has not ended may be terminated.
   */
  lemma TableShape(s: AgentState, t: AgentState)
    ensures Edge(s, t) <==>
              || (SetUp(s) && SetUp(t) && (Stage(t) == Stage(s) + 1 || Stage(s) == Stage(t) + 1))
              || (s.Ready? && t.Active?)
              || (Commissioned(s) && Commissioned(t) && s != t && !(s.Suspended? && t.Degraded?))
              || (!Ended(s) && t.Terminating?)
              || (s.Terminating? && t.Terminated?)
  {
  }

  /** From every state but the last one an agent can be terminated in at most two transitions. */
  lemma AlwaysTerminable(s: AgentState)
    ensures s.Terminated? <==> forall t :: !Edge(s, t)
    ensures !Ended(s) ==> Edge(s, Terminating)
    ensures Edge(Terminating, Terminated)
  {
    assert s.Terminated? || Edge(s, Terminating) || Edge(s, Terminated);
  }

  // ---------------------------------------------------------------- the repository

  type Id = nat

  datatype Agent = Agent(state: AgentState, version: int, activations: int)

  datatype Event =
    | Created(agent: Id, to: AgentState)
    | Transition(agent: Id, from: AgentState, to: AgentState)

  datatype Outcome = Ok | NotFound | InvalidTransition | StoreFailed

  /** The states an agent went through, starting where it was created. */
  function Trail(events: seq<Event>, id: Id, start: AgentState): seq<AgentState> {
    if events == [] then [start]
    else
      var e := events[|events| - 1];
      Trail(events[..|events| - 1], id, start) + if e.Transition? && e.agent == id then [e.to] else []
  }

  /** Every transition event of the agent starts where the one before it ended. */
  predicate Chained(events: seq<Event>, id: Id, start: AgentState) {
    events == [] ||
    (var e, before := events[|events| - 1], events[..|events| - 1];
     && Chained(before, id, start)
     && (e.Transition? && e.agent == id ==> e.from == Last(Trail(before, id, start))))
  }

  function Last(p: seq<AgentState>): AgentState {
    if p == [] then Pending else p[|p| - 1]
  }

  function Activations(events: seq<Event>, id: Id): nat {
    if events == [] then 0
    else
      var e := events[|events| - 1];
      Activations(events[..|events| - 1], id) + if e.Transition? && e.agent == id && e.to == Active then 1 else 0
  }

  function Transitions(events: seq<Event>, id: Id): nat {
    if events == [] then 0
    else
      var e := events[|events| - 1];
      Transitions(events[..|events| - 1], id) + if e.Transition? && e.agent == id then 1 else 0
  }

  /** The row of an agent is what its events say, counted from how it was created. */
  ghost predicate Replays(events: seq<Event>, id: Id, born: Agent, now: Agent) {
    && IsWalk(Trail(events, id, born.state))
    && Last(Trail(events, id, born.state)) == now.state
    && Chained(events, id, born.state)
    && now.activations == born.activations + Activations(events, id)
    && now.version == born.version + Transitions(events, id)
  }

  lemma TrailSnoc(events: seq<Event>, e: Event, id: Id, start: AgentState)
    ensures Trail(events + [e], id, start)
            == Trail(events, id, start) + if e.Transition? && e.agent == id then [e.to] else []
    ensures Activations(events + [e], id)
            == Activations(events, id) + if e.Transition? && e.agent == id && e.to == Active then 1 else 0
    ensures Transitions(events + [e], id)
            == Transitions(events, id) + if e.Transition? && e.agent == id then 1 else 0
    ensures Chained(events + [e], id, start) <==>
              Chained(events, id, start)
              && (e.Transition? && e.agent == id ==> e.from == Last(Trail(events, id, start)))
  {
    assert (events + [e])[..|events|] == events;
  }

  /** A transition along the table keeps the moved agent replayable. */
  lemma MovedReplays(events: seq<Event>, id: Id, born: Agent, now: Agent, target: AgentState)
    requires Replays(events, id, born, now) && Edge(now.state, target)
    ensures Replays(events + [Transition(id, now.state, target)], id, born, Moved(now, target))
  {
    TrailSnoc(events, Transition(id, now.state, target), id, born.state);
    var p := Trail(events, id, born.state);
    assert (p + [target])[..|p|] == p;
  }

  /** Events that do not move an agent keep it replayable. */
  lemma {:induction false} UnmovedReplays(events: seq<Event>, e: Event, id: Id, born: Agent, now: Agent)
    requires Replays(events, id, born, now) && (e.Created? || e.agent != id)
    ensures Replays(events + [e], id, born, now)
  {
    TrailSnoc(events, e, id, born.state);
    assert Trail(events, id, born.state) + [] == Trail(events, id, born.state);
  }

  lemma {:induction false} UntouchedTrail(events: seq<Event>, id: Id, start: AgentState)
    requires forall i :: 0 <= i < |events| ==> events[i].agent != id
    ensures Trail(events, id, start) == [start] && Activations(events, id) == 0 && Transitions(events, id) == 0
    ensures Chained(events, id, start)
    decreases |events|
  {
    if events != [] {
      UntouchedTrail(events[..|events| - 1], id, start);
    }
  }

  /** Every row replays from its events. */
  ghost predicate RowsReplay(agents: map<Id, Agent>, born: map<Id, Agent>, events: seq<Event>) {
    forall id :: id in agents ==> id in born && Replays(events, id, born[id], agents[id])
  }

  ghost predicate EventsBelong(agents: map<Id, Agent>, events: seq<Event>) {
    forall i :: 0 <= i < |events| ==> events[i].agent in agents
  }

  ghost predicate RepoInv(agents: map<Id, Agent>, born: map<Id, Agent>, events: seq<Event>) {
    RowsReplay(agents, born, events) && EventsBelong(agents, events)
  }

  function Moved(a: Agent, target: AgentState): Agent {
    Agent(target, a.version + 1, a.activations + if target == Active then 1 else 0)
  }

  lemma RowKeepsReplays(agents: map<Id, Agent>, born: map<Id, Agent>, events: seq<Event>, id: Id, row: Agent, e: Event)
    requires RowsReplay(agents, born, events) && id in agents && e.agent == id
    requires Replays(events + [e], id, born[id], row)
    ensures RowsReplay(agents[id := row], born, events + [e])
  {
    forall a | a in agents && a != id ensures Replays(events + [e], a, born[a], agents[a]) {
      UnmovedReplays(events, e, a, born[a], agents[a]);
    }
  }

  /** One row changes along with one event of its own. */
  lemma RowKeepsInv(agents: map<Id, Agent>, born: map<Id, Agent>, events: seq<Event>, id: Id, row: Agent, e: Event)
    requires RepoInv(agents, born, events) && id in agents && e.agent == id
    requires Replays(events + [e], id, born[id], row)
    ensures RepoInv(agents[id := row], born, events + [e])
  {
    RowKeepsReplays(agents, born, events, id, row, e);
  }

  lemma TransitionKeepsInv(agents: map<Id, Agent>, born: map<Id, Agent>, events: seq<Event>, id: Id, target: AgentState)
    requires RepoInv(agents, born, events) && id in agents && Edge(agents[id].state, target)
    ensures RepoInv(agents[id := Moved(agents[id], target)], born, events + [Transition(id, agents[id].state, target)])
  {
    MovedReplays(events, id, born[id], agents[id], target);
    RowKeepsInv(agents, born, events, id, Moved(agents[id], target), Transition(id, agents[id].state, target));
  }

  lemma NewRowKeepsInv(agents: map<Id, Agent>, born: map<Id, Agent>, events: seq<Event>, id: Id, agent: Agent)
    requires RepoInv(agents, born, events) && id !in agents
    ensures RepoInv(agents[id := agent], born[id := agent], events)
  {
    UntouchedTrail(events, id, agent.state);
    assert Replays(events, id, agent, agent);
  }

  lemma CreatedEventKeepsInv(agents: map<Id, Agent>, born: map<Id, Agent>, events: seq<Event>, e: Event)
    requires RepoInv(agents, born, events) && e.Created? && e.agent in agents
    ensures RepoInv(agents, born, events + [e])
  {
    forall a | a in agents ensures Replays(events + [e], a, born[a], agents[a]) {
      UnmovedReplays(events, e, a, born[a], agents[a]);
    }
  }

  lemma CreateKeepsInv(agents: map<Id, Agent>, born: map<Id, Agent>, events: seq<Event>, id: Id, agent: Agent)
    requires RepoInv(agents, born, events) && id !in agents
    ensures RepoInv(agents[id := agent], born[id := agent], events)
    ensures RepoInv(agents[id := agent], born[id := agent], events + [Created(id, agent.state)])
  {
    NewRowKeepsInv(agents, born, events, id, agent);
    CreatedEventKeepsInv(agents[id := agent], born[id := agent], events, Created(id, agent.state));
  }

  const AllStates: seq<AgentState> :=
    [Pending, Configuring, Validating, Ready, Active, Degraded, Suspended, Terminating, Terminated]

  function Among(states: seq<AgentState>, s: AgentState): seq<AgentState> {
    if states == [] then []
    else Among(states[..|states| - 1], s) + if Edge(s, states[|states| - 1]) then [states[|states| - 1]] else []
  }

  /** The targets of a state as a list; in which order makes no difference. */
  function Targets(s: AgentState): seq<AgentState> {
    Among(AllStates, s)
  }

  lemma {:induction false} AmongAre(states: seq<AgentState>, s: AgentState, t: AgentState)
    ensures t in Among(states, s) <==> t in states && Edge(s, t)
    decreases |states|
  {
    if states != [] {
      AmongAre(states[..|states| - 1], s, t);
      assert states == states[..|states| - 1] + [states[|states| - 1]];
    }
  }

  lemma TargetsAreEdges(s: AgentState, t: AgentState)
    ensures t in Targets(s) <==> Edge(s, t)
  {
    AmongAre(AllStates, s, t);
    assert t in AllStates by {
      match t
      case Pending => assert AllStates[0] == t;
      case Configuring => assert AllStates[1] == t;
      case Validating => assert AllStates[2] == t;
      case Ready => assert AllStates[3] == t;
      case Active => assert AllStates[4] == t;
      case Degraded => assert AllStates[5] == t;
      case Suspended => assert AllStates[6] == t;
      case Terminating => assert AllStates[7] == t;
      case Terminated => assert AllStates[8] == t;
    }
  }

  /** CanTransitionTo: a search of the target list. */
  method CanTransitionTo(s: AgentState, target: AgentState) returns (ok: bool)
    ensures ok <==> Edge(s, target)
  {
    var targets := Targets(s);
    for i := 0 to |targets|
      invariant target !in targets[..i]
    {
      if targets[i] == target {
        TargetsAreEdges(s, target);
        return true;
      }
    }
    assert targets[..|targets|] == targets;
    TargetsAreEdges(s, target);
    return false;
  }

  class Repository {
    var agents: map<Id, Agent>
    var events: seq<Event>
    ghost var born: map<Id, Agent>

    ghost predicate Valid()
      reads this
    {
      RepoInv(agents, born, events)
    }

    constructor ()
      ensures Valid() && agents == map[] && events == []
    {
      agents, events, born := map[], [], map[];
    }

    /** A new agent; without a given state it starts pending, without a version at 1.  Its event is written if possible. */
    method CreateAgent(id: Id, state: Option<AgentState>, version: int, activations: int, insertOk: bool, eventOk: bool)
      returns (r: Outcome)
      requires Valid()
      modifies this
      ensures Valid()
      ensures r == if insertOk && id !in old(agents) then Ok else StoreFailed
      ensures var agent := Agent(if state.Some? then state.value else Pending, if version == 0 then 1 else version, activations);
              r == Ok ==>
                && agents == old(agents)[id := agent] && born == old(born)[id := agent]
                && events == old(events) + if eventOk then [Created(id, agent.state)] else []
      ensures r != Ok ==> agents == old(agents) && events == old(events) && born == old(born)
    {
      if !insertOk || id in agents {
        return StoreFailed;
      }
      var agent := Agent(if state.Some? then state.value else Pending, if version == 0 then 1 else version, activations);
      CreateKeepsInv(agents, born, events, id, agent);
      agents := agents[id := agent];
      born := born[id := agent];
      if eventOk {
        events := events + [Created(id, agent.state)];
      }
      return Ok;
    }

    /** One transaction: the new state, the event and the activation count, or none of them. */
    method TransitionState(id: Id, target: AgentState, commitOk: bool) returns (r: Outcome)
      requires Valid()
      modifies this`agents, this`events
      ensures Valid()
      ensures r == if id !in old(agents) then NotFound
                   else if !Edge(old(agents)[id].state, target) then InvalidTransition
                   else if commitOk then Ok else StoreFailed
      ensures r == Ok ==>
                && agents == old(agents)[id := Moved(old(agents)[id], target)]
                && events == old(events) + [Transition(id, old(agents)[id].state, target)]
      ensures r != Ok ==> agents == old(agents) && events == old(events)
    {
      if id !in agents {
        return NotFound;
      }
      var current := agents[id].state;
      var ok := CanTransitionTo(current, target);
      if !ok {
        return InvalidTransition;
      }
      if !commitOk {
        return StoreFailed;
      }
      TransitionKeepsInv(agents, born, events, id, target);
      var row := agents[id].(state := target, version := agents[id].version + 1);
      if target == Active {
        row := row.(activations := row.activations + 1);
      }
      assert row == Moved(agents[id], target);
      agents := agents[id := row];
      events := events + [Transition(id, current, target)];
      return Ok;
    }
  }

  lemma ReplayHistory(events: seq<Event>, id: Id, born: Agent, now: Agent) returns (c: nat, v: nat, r: nat)
    requires Replays(events, id, born, now) && born.state == Pending
    ensures var p := Trail(events, id, Pending);
            && p != [] && p[0] == Pending && p[|p| - 1] == now.state
            && (Commissioned(now.state) ==>
                  c < v < r < |p| && p[c] == Configuring && p[v] == Validating && p[r] == Ready)
  {
    TrailStarts(events, id, Pending);
    c, v, r := 0, 0, 0;
    if Commissioned(now.state) {
      c, v, r := CommissionedWasReady(Trail(events, id, Pending));
    }
  }

  /**
   In every state the repository can be in, an agent created pending has a trail of
   table transitions from Pending to its stored state, it was activated as often as
   it has events into Active, and if its state is active, degraded or suspended the
   trail went through Configuring, Validating and Ready in that order.
   */
  lemma StoredStateHasAHistory(agents: map<Id, Agent>, born: map<Id, Agent>, events: seq<Event>, id: Id)
    returns (c: nat, v: nat, r: nat)
    requires RepoInv(agents, born, events) && id in agents && born[id].state == Pending
    ensures var p := Trail(events, id, Pending);
            && IsWalk(p) && p[0] == Pending && p[|p| - 1] == agents[id].state
            && agents[id].activations == born[id].activations + Activations(events, id)
            && (Commissioned(agents[id].state) ==>
                  c < v < r < |p| && p[c] == Configuring && p[v] == Validating && p[r] == Ready)
  {
    c, v, r := ReplayHistory(events, id, born[id], agents[id]);
  }

  lemma {:induction false} TrailStarts(events: seq<Event>, id: Id, start: AgentState)
    ensures Trail(events, id, start) != [] && Trail(events, id, start)[0] == start
    decreases |events|
  {
    if events != [] {
      TrailStarts(events[..|events| - 1], id, start);
    }
  }
}

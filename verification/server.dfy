/** The swarm front end (`CrazyflieServer`): it builds one agent per
    configured vehicle, hands the list to the clock, and fans every
    high-level command out to all agents in list order. Each agent applies
    its own group filter; the first agent that raises aborts the loop. */
module Swarm {
  import opened Vectors
  import opened Outcomes
  import opened Firmware
  import opened Clock
  import Agents

  /** One entry of the `crazyflies` configuration: an id and a start position. */
  datatype AgentConfig = AgentConfig(id: int, initialPosition: Vec)

  /** The server: the clock that owns the agent list, and the id index
      (`crazyfliesById`) mapping each id to its agent's position in that list. */
  datatype Server = Server(timeHelper: TimeHelper, byId: map<int, nat>)

  /** The agent list. */
  function Fleet(s: Server): seq<Agents.Agent>
  {
    s.timeHelper.crazyflies
  }

  /** The id index points at an agent carrying that id, and every agent's id
      is indexed. */
  predicate Indexed(s: Server)
  {
    && (forall id :: id in s.byId ==> s.byId[id] < |Fleet(s)| && Fleet(s)[s.byId[id]].id == id)
    && (forall k :: 0 <= k < |Fleet(s)| ==> Fleet(s)[k].id in s.byId)
  }

  // ------------------------------------------------------------ construction

  /** `m` indexes `cfg` by id, later entries winning: every configured id is
      a key, and each key points at the last entry carrying it. */
  predicate IndexesLast(cfg: seq<AgentConfig>, m: map<int, nat>)
  {
    && (forall k :: 0 <= k < |cfg| ==> cfg[k].id in m)
    && forall id :: id in m ==>
      && m[id] < |cfg| && cfg[m[id]].id == id
      && forall k :: m[id] < k < |cfg| ==> cfg[k].id != id
  }

  /** One more loop iteration: entering the next entry keeps the index right. */
  lemma IndexesLastExtend(cfg: seq<AgentConfig>, m: map<int, nat>)
    requires |cfg| > 0 && IndexesLast(cfg[..|cfg| - 1], m)
    ensures IndexesLast(cfg, m[cfg[|cfg| - 1].id := |cfg| - 1])
  {
    var last := |cfg| - 1;
    assert forall k :: 0 <= k < last ==> cfg[..last][k] == cfg[k];
  }

  /** The id index built by the constructor's loop: a later entry with the
      same id overwrites an earlier one. */
  function IndexIds(cfg: seq<AgentConfig>): (m: map<int, nat>)
    ensures IndexesLast(cfg, m)
    decreases |cfg|
  {
    if cfg == [] then map[]
    else
      var last := |cfg| - 1;
      var m := IndexIds(cfg[..last]);
      IndexesLastExtend(cfg, m);
      m[cfg[last].id := last]
  }

  /** `CrazyflieServer(timeHelper, yaml)` after the configuration is parsed:
      one new agent per entry, in order; the clock now ticks exactly these. */
  function NewServer(th: TimeHelper, cfg: seq<AgentConfig>): (s: Server)
    ensures s.timeHelper == th.(crazyflies := Fleet(s))
    ensures |Fleet(s)| == |cfg|
    ensures forall k :: 0 <= k < |cfg| ==>
      Fleet(s)[k] == Agents.NewAgent(cfg[k].id, cfg[k].initialPosition)
    ensures Indexed(s) && Linked(Fleet(s))
  {
    var cfs := seq(|cfg|, k requires 0 <= k < |cfg| => Agents.NewAgent(cfg[k].id, cfg[k].initialPosition));
    var s := Server(th.(crazyflies := cfs), IndexIds(cfg));
    assert forall k :: 0 <= k < |cfg| ==> cfs[k].id == cfg[k].id;
    s
  }

  /** `crazyfliesById[id]`: with duplicate ids in the configuration, the
      last such agent wins. */
  function ById(s: Server, id: int): (r: Option<Agents.Agent>)
    requires Indexed(s)
    ensures r.Some? <==> exists k :: 0 <= k < |Fleet(s)| && Fleet(s)[k].id == id
    ensures r.Some? ==> r.value.id == id
  {
    if id in s.byId then Some(Fleet(s)[s.byId[id]]) else None
  }

  /** The index keeps the last position of each id. */
  lemma IndexIdsLastWins(cfg: seq<AgentConfig>, k: nat)
    requires k < |cfg| && forall j :: k < j < |cfg| ==> cfg[j].id != cfg[k].id
    ensures cfg[k].id in IndexIds(cfg) && IndexIds(cfg)[cfg[k].id] == k
  {
    assert cfg[k].id in IndexIds(cfg).Keys;
  }

  /** Looking up an id that no later entry repeats finds the fresh agent
      built from that entry. */
  lemma NewServerLastIdWins(th: TimeHelper, cfg: seq<AgentConfig>, k: nat)
    requires k < |cfg| && forall j :: k < j < |cfg| ==> cfg[j].id != cfg[k].id
    ensures ById(NewServer(th, cfg), cfg[k].id) == Some(Agents.NewAgent(cfg[k].id, cfg[k].initialPosition))
  {
    IndexIdsLastWins(cfg, k);
    var s := NewServer(th, cfg);
    assert s.byId == IndexIds(cfg);
  }

  // ------------------------------------------------------------------ fan-out

  /** Index of the first agent for which `bad` holds, or the list length. */
  function FirstWhere(cfs: seq<Agents.Agent>, bad: Agents.Agent -> bool): (i: nat)
    ensures i <= |cfs|
    ensures forall k :: 0 <= k < i ==> !bad(cfs[k])
    ensures i < |cfs| ==> bad(cfs[i])
    decreases |cfs|
  {
    if cfs == [] then 0
    else if bad(cfs[0]) then 0
    else 1 + FirstWhere(cfs[1..], bad)
  }

  /** Two tests that agree on every agent of the list find the same first agent. */
  lemma FirstWhereAgrees(cfs: seq<Agents.Agent>, bad: Agents.Agent -> bool, bad': Agents.Agent -> bool)
    requires forall k :: 0 <= k < |cfs| ==> bad(cfs[k]) == bad'(cfs[k])
    ensures FirstWhere(cfs, bad) == FirstWhere(cfs, bad')
  {
  }

  /** Whether a command raises on an agent. */
  function Raises(verb: Agents.Agent -> Outcome<Agents.Agent>): (bad: Agents.Agent -> bool)
    ensures forall a :: bad(a) == !verb(a).Ok()
  {
    a => !verb(a).Ok()
  }

  /** `for crazyflie in self.crazyflies: crazyflie.<verb>(...)`. Agents
      before the first that raises are updated; the raising one keeps
      whatever it changed before raising; the rest are untouched. */
  function FanOut(cfs: seq<Agents.Agent>, verb: Agents.Agent -> Outcome<Agents.Agent>): (r: Outcome<seq<Agents.Agent>>)
    ensures |r.value| == |cfs|
    ensures var i := FirstWhere(cfs, Raises(verb));
      && (r.Ok() <==> i == |cfs|)
      && (i < |cfs| ==> r.raised == verb(cfs[i]).raised)
      && (forall k :: 0 <= k < |cfs| && k <= i ==> r.value[k] == verb(cfs[k]).value)
      && (forall k :: i < k < |cfs| ==> r.value[k] == cfs[k])
    decreases |cfs|
  {
    if cfs == [] then Outcome([], None)
    else
      var head := verb(cfs[0]);
      if !head.Ok() then Outcome([head.value] + cfs[1..], head.raised)
      else
        var rest := FanOut(cfs[1..], verb);
        Outcome([head.value] + rest.value, rest.raised)
  }

  /** The fan-out stops at the first agent a test flags, when the test
      flags exactly the agents on which the command raises. */
  lemma FanOutStopsAt(cfs: seq<Agents.Agent>, verb: Agents.Agent -> Outcome<Agents.Agent>, bad: Agents.Agent -> bool)
    requires forall k :: 0 <= k < |cfs| ==> (bad(cfs[k]) <==> !verb(cfs[k]).Ok())
    ensures var i := FirstWhere(cfs, bad);
      var r := FanOut(cfs, verb);
      && (r.Ok() <==> forall k :: 0 <= k < |cfs| ==> !bad(cfs[k]))
      && (i < |cfs| ==> r.raised == verb(cfs[i]).raised && r.value[i] == verb(cfs[i]).value)
      && (forall k :: 0 <= k < i ==> r.value[k] == verb(cfs[k]).value)
      && (forall k :: i < k < |cfs| ==> r.value[k] == cfs[k])
  {
    FirstWhereAgrees(cfs, Raises(verb), bad);
  }

  /** Replacing the agent list by one with the same length and the same
      collision-avoidance links keeps the links inside the list. */
  lemma LinkedKeepsCollisions(cfs: seq<Agents.Agent>, cfs': seq<Agents.Agent>)
    requires |cfs'| == |cfs| && forall k :: 0 <= k < |cfs| ==> cfs'[k].collision == cfs[k].collision
    ensures Linked(cfs) ==> Linked(cfs')
  {
  }

  /** Replacing one agent by one whose neighbours, if any, are in the list
      keeps the links inside the list. */
  lemma LinkedReplaceOne(cfs: seq<Agents.Agent>, k: nat, a: Agents.Agent)
    requires k < |cfs|
    requires a.collision.Some? ==> forall j :: 0 <= j < |a.collision.value.others| ==> a.collision.value.others[j] < |cfs|
    ensures Linked(cfs) ==> Linked(cfs[k := a])
  {
    var cfs' := cfs[k := a];
    if Linked(cfs) {
      forall i, j | 0 <= i < |cfs'| && cfs'[i].collision.Some? && 0 <= j < |cfs'[i].collision.value.others|
        ensures cfs'[i].collision.value.others[j] < |cfs'|
      {
        if i != k {
          assert cfs'[i] == cfs[i];
        }
      }
    }
  }

  /** Replacing the agent list by one with the same length and the same ids
      keeps the id index consistent. */
  lemma IndexedKeepsIds(s: Server, cfs: seq<Agents.Agent>)
    requires |cfs| == |Fleet(s)| && forall k :: 0 <= k < |cfs| ==> cfs[k].id == Fleet(s)[k].id
    ensures Indexed(s) ==> Indexed(WithAgents(s, cfs))
  {
  }

  /** The server after a fan-out: only the agent list changes. */
  function WithAgents(s: Server, cfs: seq<Agents.Agent>): (r: Server)
    ensures Fleet(r) == cfs && r.byId == s.byId
    ensures r.timeHelper == s.timeHelper.(crazyflies := cfs)
  {
    Server(s.timeHelper.(crazyflies := cfs), s.byId)
  }

  // ----------------------------------------------------------------- commands

  /** `takeoff`: every agent the selector reaches plans a takeoff from where
      it is now, at the clock's current time; the others are untouched. */
  function Takeoff(s: Server, height: real, duration: real, selector: bv64): (r: Server)
    ensures r.byId == s.byId && r.timeHelper == s.timeHelper.(crazyflies := Fleet(r))
    ensures |Fleet(r)| == |Fleet(s)|
    ensures forall k :: 0 <= k < |Fleet(s)| ==>
      var a := Fleet(s)[k];
      && (Agents.IsGroup(a.groupMask, selector) ==>
            Fleet(r)[k] == a.(mode := Agents.HighPoly,
                              planner := a.planner + [PlanTakeoff(a.state.pos, a.state.yaw, height, 0.0, duration, s.timeHelper.t)]))
      && (!Agents.IsGroup(a.groupMask, selector) ==> Fleet(r)[k] == a)
    ensures Linked(Fleet(s)) ==> Linked(Fleet(r))
    ensures Indexed(s) ==> Indexed(r)
  {
    var now := s.timeHelper.t;
    var out := FanOut(Fleet(s), a => Outcome(Agents.Takeoff(a, height, duration, selector, now), None));
    LinkedKeepsCollisions(Fleet(s), out.value);
    IndexedKeepsIds(s, out.value);
    WithAgents(s, out.value)
  }

  /** `land`: as `takeoff`, planning a descent. */
  function Land(s: Server, height: real, duration: real, selector: bv64): (r: Server)
    ensures r.byId == s.byId && r.timeHelper == s.timeHelper.(crazyflies := Fleet(r))
    ensures |Fleet(r)| == |Fleet(s)|
    ensures forall k :: 0 <= k < |Fleet(s)| ==>
      var a := Fleet(s)[k];
      && (Agents.IsGroup(a.groupMask, selector) ==>
            Fleet(r)[k] == a.(mode := Agents.HighPoly,
                              planner := a.planner + [PlanLand(a.state.pos, a.state.yaw, height, 0.0, duration, s.timeHelper.t)]))
      && (!Agents.IsGroup(a.groupMask, selector) ==> Fleet(r)[k] == a)
    ensures Linked(Fleet(s)) ==> Linked(Fleet(r))
    ensures Indexed(s) ==> Indexed(r)
  {
    var now := s.timeHelper.t;
    var out := FanOut(Fleet(s), a => Outcome(Agents.Land(a, height, duration, selector, now), None));
    LinkedKeepsCollisions(Fleet(s), out.value);
    IndexedKeepsIds(s, out.value);
    WithAgents(s, out.value)
  }

  /** `stop`: every agent the selector reaches goes idle. */
  function Stop(s: Server, selector: bv64): (r: Server)
    ensures r.byId == s.byId && r.timeHelper == s.timeHelper.(crazyflies := Fleet(r))
    ensures |Fleet(r)| == |Fleet(s)|
    ensures forall k :: 0 <= k < |Fleet(s)| ==>
      var a := Fleet(s)[k];
      && (Agents.IsGroup(a.groupMask, selector) ==>
            Fleet(r)[k] == a.(mode := Agents.Idle, planner := a.planner + [PlanStop]))
      && (!Agents.IsGroup(a.groupMask, selector) ==> Fleet(r)[k] == a)
    ensures Linked(Fleet(s)) ==> Linked(Fleet(r))
    ensures Indexed(s) ==> Indexed(r)
  {
    var out := FanOut(Fleet(s), a => Outcome(Agents.Stop(a, selector), None));
    LinkedKeepsCollisions(Fleet(s), out.value);
    IndexedKeepsIds(s, out.value);
    WithAgents(s, out.value)
  }

  /** Whether `goTo` sent with `selector` reaches an agent that is not in
      HIGH_POLY, which makes that agent raise. */
  predicate GoToRejected(a: Agents.Agent, selector: bv64)
  {
    Agents.IsGroup(a.groupMask, selector) && a.mode != Agents.HighPoly
  }

  function GoToRejecter(selector: bv64): (bad: Agents.Agent -> bool)
    ensures forall a :: bad(a) == GoToRejected(a, selector)
  {
    a => GoToRejected(a, selector)
  }

  /** One agent's part of the server's `goTo`. */
  function GoToEach(goal: Vec, yaw: real, duration: real, selector: bv64, now: real): (verb: Agents.Agent -> Outcome<Agents.Agent>)
    ensures forall a :: verb(a) == Agents.GoTo(a, goal, yaw, duration, true, selector, now)
  {
    a => Agents.GoTo(a, goal, yaw, duration, true, selector, now)
  }

  /** The fan-out of `goTo` over a list fails exactly when some agent
      rejects it, and then with the low-level-mode error. */
  lemma GoToFanOutFails(cfs: seq<Agents.Agent>, goal: Vec, yaw: real, duration: real, selector: bv64, now: real)
    ensures var out := FanOut(cfs, GoToEach(goal, yaw, duration, selector, now));
      && (out.Ok() <==> forall k :: 0 <= k < |cfs| ==> !GoToRejected(cfs[k], selector))
      && (!out.Ok() ==> out.raised == Some(GoToFromLowLevel))
  {
    var verb := GoToEach(goal, yaw, duration, selector, now);
    FanOutStopsAt(cfs, verb, GoToRejecter(selector));
    var i := FirstWhere(cfs, GoToRejecter(selector));
    if i < |cfs| {
      assert verb(cfs[i]) == Agents.GoTo(cfs[i], goal, yaw, duration, true, selector, now);
    }
  }

  /** The fan-out of `goTo` over a list runs each agent's `goTo` up to the
      first rejecting agent and leaves that agent and the rest as they were. */
  lemma GoToFanOutStops(cfs: seq<Agents.Agent>, goal: Vec, yaw: real, duration: real, selector: bv64, now: real)
    ensures var out := FanOut(cfs, GoToEach(goal, yaw, duration, selector, now));
      var i := FirstWhere(cfs, GoToRejecter(selector));
      && (forall k :: 0 <= k < i ==> out.value[k] == Agents.GoTo(cfs[k], goal, yaw, duration, true, selector, now).value)
      && (forall k :: i <= k < |cfs| ==> out.value[k] == cfs[k])
  {
    var verb := GoToEach(goal, yaw, duration, selector, now);
    var out := FanOut(cfs, verb);
    FanOutStopsAt(cfs, verb, GoToRejecter(selector));
    var i := FirstWhere(cfs, GoToRejecter(selector));
    forall k | i <= k < |cfs| ensures out.value[k] == cfs[k] {
      if k == i {
        assert GoToRejected(cfs[i], selector);
        assert out.value[i] == Agents.GoTo(cfs[i], goal, yaw, duration, true, selector, now).value;
      }
    }
  }

  lemma GoToFanOutKeepsCollisions(cfs: seq<Agents.Agent>, goal: Vec, yaw: real, duration: real, selector: bv64, now: real)
    ensures var out := FanOut(cfs, GoToEach(goal, yaw, duration, selector, now));
      forall k :: 0 <= k < |cfs| ==> out.value[k].collision == cfs[k].collision && out.value[k].id == cfs[k].id
  {
    var out := FanOut(cfs, GoToEach(goal, yaw, duration, selector, now));
    var i := FirstWhere(cfs, GoToRejecter(selector));
    GoToFanOutStops(cfs, goal, yaw, duration, selector, now);
    forall k | 0 <= k < |cfs| ensures out.value[k].collision == cfs[k].collision && out.value[k].id == cfs[k].id {
      if k < i {
        var a' := Agents.GoTo(cfs[k], goal, yaw, duration, true, selector, now).value;
        assert out.value[k] == a';
      }
    }
  }

  /** `goTo`, always relative. It raises iff some reached agent is not in
      HIGH_POLY. Agents before the first such agent have run their own
      `goTo` at the clock's current time; that agent and all after it are
      untouched. */
  function GoTo(s: Server, goal: Vec, yaw: real, duration: real, selector: bv64): (r: Outcome<Server>)
    ensures r.value.byId == s.byId && r.value.timeHelper == s.timeHelper.(crazyflies := Fleet(r.value))
    ensures |Fleet(r.value)| == |Fleet(s)|
    ensures r.Ok() <==> forall k :: 0 <= k < |Fleet(s)| ==> !GoToRejected(Fleet(s)[k], selector)
    ensures !r.Ok() ==> r.raised == Some(GoToFromLowLevel)
    ensures Linked(Fleet(s)) ==> Linked(Fleet(r.value))
    ensures Indexed(s) ==> Indexed(r.value)
  {
    var cfs := Fleet(s);
    var out := FanOut(cfs, GoToEach(goal, yaw, duration, selector, s.timeHelper.t));
    GoToFanOutFails(cfs, goal, yaw, duration, selector, s.timeHelper.t);
    GoToFanOutKeepsCollisions(cfs, goal, yaw, duration, selector, s.timeHelper.t);
    LinkedKeepsCollisions(cfs, out.value);
    IndexedKeepsIds(s, out.value);
    Outcome(WithAgents(s, out.value), out.raised)
  }

  /** The server's `goTo`, agent by agent: agents before the first rejecting
      agent have run their relative `goTo` at the clock's current time; that
      agent and all after it are untouched. */
  lemma GoToStopsAtFirstRejecter(s: Server, goal: Vec, yaw: real, duration: real, selector: bv64)
    ensures var r := GoTo(s, goal, yaw, duration, selector);
      var i := FirstWhere(Fleet(s), GoToRejecter(selector));
      && (forall k :: 0 <= k < i ==>
            Fleet(r.value)[k] == Agents.GoTo(Fleet(s)[k], goal, yaw, duration, true, selector, s.timeHelper.t).value)
      && (forall k :: i <= k < |Fleet(s)| ==> Fleet(r.value)[k] == Fleet(s)[k])
  {
    GoToFanOutStops(Fleet(s), goal, yaw, duration, selector, s.timeHelper.t);
  }

  /** Whether `startTrajectory` sent with `selector` reaches an agent that
      has no trajectory `trajectoryId`, which makes that agent raise. */
  predicate StartRejected(a: Agents.Agent, trajectoryId: int, selector: bv64)
  {
    Agents.IsGroup(a.groupMask, selector) && trajectoryId !in a.trajectories
  }

  function StartRejecter(trajectoryId: int, selector: bv64): (bad: Agents.Agent -> bool)
    ensures forall a :: bad(a) == StartRejected(a, trajectoryId, selector)
  {
    a => StartRejected(a, trajectoryId, selector)
  }

  /** One agent's part of the server's `startTrajectory`. */
  function StartEach(trajectoryId: int, timescale: real, reverse: bool, relative: bool,
                     selector: bv64, now: real, e: Engine): (verb: Agents.Agent -> Outcome<Agents.Agent>)
    ensures forall a :: verb(a) == Agents.StartTrajectory(a, trajectoryId, timescale, reverse, relative, selector, now, e)
  {
    a => Agents.StartTrajectory(a, trajectoryId, timescale, reverse, relative, selector, now, e)
  }

  /** The fan-out of `startTrajectory` over a list fails exactly when some
      agent rejects it, and then with that trajectory's unknown-id error. */
  lemma StartFanOutFails(cfs: seq<Agents.Agent>, trajectoryId: int, timescale: real, reverse: bool, relative: bool,
                         selector: bv64, now: real, e: Engine)
    ensures var out := FanOut(cfs, StartEach(trajectoryId, timescale, reverse, relative, selector, now, e));
      && (out.Ok() <==> forall k :: 0 <= k < |cfs| ==> !StartRejected(cfs[k], trajectoryId, selector))
      && (!out.Ok() ==> out.raised == Some(UnknownTrajectory(trajectoryId)))
  {
    var verb := StartEach(trajectoryId, timescale, reverse, relative, selector, now, e);
    FanOutStopsAt(cfs, verb, StartRejecter(trajectoryId, selector));
    var i := FirstWhere(cfs, StartRejecter(trajectoryId, selector));
    if i < |cfs| {
      assert verb(cfs[i]) == Agents.StartTrajectory(cfs[i], trajectoryId, timescale, reverse, relative, selector, now, e);
    }
  }

  /** The fan-out of `startTrajectory` over a list starts the trajectory on
      each agent up to the first rejecting agent, leaves that agent in
      HIGH_POLY and otherwise as it was, and leaves the rest untouched. */
  lemma StartFanOutStops(cfs: seq<Agents.Agent>, trajectoryId: int, timescale: real, reverse: bool, relative: bool,
                         selector: bv64, now: real, e: Engine)
    ensures var out := FanOut(cfs, StartEach(trajectoryId, timescale, reverse, relative, selector, now, e));
      var i := FirstWhere(cfs, StartRejecter(trajectoryId, selector));
      && (forall k :: 0 <= k < i ==>
            out.value[k] == Agents.StartTrajectory(cfs[k], trajectoryId, timescale, reverse, relative, selector, now, e).value)
      && (i < |cfs| ==> out.value[i] == cfs[i].(mode := Agents.HighPoly))
      && (forall k :: i < k < |cfs| ==> out.value[k] == cfs[k])
  {
    var verb := StartEach(trajectoryId, timescale, reverse, relative, selector, now, e);
    FanOutStopsAt(cfs, verb, StartRejecter(trajectoryId, selector));
    var i := FirstWhere(cfs, StartRejecter(trajectoryId, selector));
    if i < |cfs| {
      assert StartRejected(cfs[i], trajectoryId, selector);
      assert verb(cfs[i]) == Agents.StartTrajectory(cfs[i], trajectoryId, timescale, reverse, relative, selector, now, e);
    }
  }

  lemma StartFanOutKeepsCollisions(cfs: seq<Agents.Agent>, trajectoryId: int, timescale: real, reverse: bool, relative: bool,
                                   selector: bv64, now: real, e: Engine)
    ensures var out := FanOut(cfs, StartEach(trajectoryId, timescale, reverse, relative, selector, now, e));
      forall k :: 0 <= k < |cfs| ==> out.value[k].collision == cfs[k].collision && out.value[k].id == cfs[k].id
  {
    var out := FanOut(cfs, StartEach(trajectoryId, timescale, reverse, relative, selector, now, e));
    var i := FirstWhere(cfs, StartRejecter(trajectoryId, selector));
    StartFanOutStops(cfs, trajectoryId, timescale, reverse, relative, selector, now, e);
    forall k | 0 <= k < |cfs| ensures out.value[k].collision == cfs[k].collision && out.value[k].id == cfs[k].id {
      if k < i {
        var a' := Agents.StartTrajectory(cfs[k], trajectoryId, timescale, reverse, relative, selector, now, e).value;
        assert out.value[k] == a';
      }
    }
  }

  /** `startTrajectory`. It raises iff some reached agent lacks the
      trajectory. Agents before the first such agent have started it at the
      clock's current time; that agent is left in HIGH_POLY with nothing
      else changed; agents after it are untouched. */
  function StartTrajectory(s: Server, trajectoryId: int, timescale: real, reverse: bool, relative: bool,
                           selector: bv64, e: Engine): (r: Outcome<Server>)
    ensures r.value.byId == s.byId && r.value.timeHelper == s.timeHelper.(crazyflies := Fleet(r.value))
    ensures |Fleet(r.value)| == |Fleet(s)|
    ensures r.Ok() <==> forall k :: 0 <= k < |Fleet(s)| ==> !StartRejected(Fleet(s)[k], trajectoryId, selector)
    ensures !r.Ok() ==> r.raised == Some(UnknownTrajectory(trajectoryId))
    ensures Linked(Fleet(s)) ==> Linked(Fleet(r.value))
    ensures Indexed(s) ==> Indexed(r.value)
  {
    var cfs := Fleet(s);
    var out := FanOut(cfs, StartEach(trajectoryId, timescale, reverse, relative, selector, s.timeHelper.t, e));
    StartFanOutFails(cfs, trajectoryId, timescale, reverse, relative, selector, s.timeHelper.t, e);
    StartFanOutKeepsCollisions(cfs, trajectoryId, timescale, reverse, relative, selector, s.timeHelper.t, e);
    LinkedKeepsCollisions(cfs, out.value);
    IndexedKeepsIds(s, out.value);
    Outcome(WithAgents(s, out.value), out.raised)
  }

  /** The server's `startTrajectory`, agent by agent: agents before the first
      rejecting agent have started the trajectory at the clock's current time;
      that agent is in HIGH_POLY and otherwise as it was; later agents are
      untouched. */
  lemma StartTrajectoryStopsAtFirstRejecter(s: Server, trajectoryId: int, timescale: real, reverse: bool, relative: bool,
                                            selector: bv64, e: Engine)
    ensures var r := StartTrajectory(s, trajectoryId, timescale, reverse, relative, selector, e);
      var i := FirstWhere(Fleet(s), StartRejecter(trajectoryId, selector));
      && (forall k :: 0 <= k < i ==>
            Fleet(r.value)[k]
              == Agents.StartTrajectory(Fleet(s)[k], trajectoryId, timescale, reverse, relative, selector, s.timeHelper.t, e).value)
      && (i < |Fleet(s)| ==> Fleet(r.value)[i] == Fleet(s)[i].(mode := Agents.HighPoly))
      && (forall k :: i < k < |Fleet(s)| ==> Fleet(r.value)[k] == Fleet(s)[k])
  {
    StartFanOutStops(Fleet(s), trajectoryId, timescale, reverse, relative, selector, s.timeHelper.t, e);
  }

  /** `enableCollisionAvoidance` called on the `k`-th agent of the swarm with
      neighbours taken from the same swarm. The agent passes its own position
      in the list as `self`, so it never observes itself, and every
      neighbour stays inside the list. */
  function EnableCollisionAvoidance(s: Server, k: nat, others: seq<nat>, ellipsoidRadii: Vec,
                                    bboxMin: Option<Vec>, bboxMax: Option<Vec>,
                                    horizonSecs: real, maxSpeed: real): (r: Server)
    requires k < |Fleet(s)|
    requires forall j :: 0 <= j < |others| ==> others[j] < |Fleet(s)|
    ensures r.byId == s.byId && r.timeHelper == s.timeHelper.(crazyflies := Fleet(r))
    ensures |Fleet(r)| == |Fleet(s)|
    ensures Fleet(r)[k] == Agents.EnableCollisionAvoidance(Fleet(s)[k], k, others, ellipsoidRadii, bboxMin, bboxMax, horizonSecs, maxSpeed)
    ensures forall j :: 0 <= j < |Fleet(s)| && j != k ==> Fleet(r)[j] == Fleet(s)[j]
    ensures k !in Fleet(r)[k].collision.value.others
    ensures forall j :: j in others && j != k <==> j in Fleet(r)[k].collision.value.others
    ensures Linked(Fleet(s)) ==> Linked(Fleet(r))
    ensures Indexed(s) ==> Indexed(r)
  {
    var a := Agents.EnableCollisionAvoidance(Fleet(s)[k], k, others, ellipsoidRadii, bboxMin, bboxMax, horizonSecs, maxSpeed);
    var cfs := Fleet(s)[k := a];
    assert forall j :: 0 <= j < |a.collision.value.others| ==> a.collision.value.others[j] < |Fleet(s)| by {
      forall j | 0 <= j < |a.collision.value.others| ensures a.collision.value.others[j] < |Fleet(s)| {
        assert a.collision.value.others[j] in others;
      }
    }
    LinkedReplaceOne(Fleet(s), k, a);
    IndexedKeepsIds(s, cfs);
    WithAgents(s, cfs)
  }

  /** `disableCollisionAvoidance` called on the `k`-th agent of the swarm. */
  function DisableCollisionAvoidance(s: Server, k: nat): (r: Server)
    requires k < |Fleet(s)|
    ensures r.byId == s.byId && r.timeHelper == s.timeHelper.(crazyflies := Fleet(r))
    ensures |Fleet(r)| == |Fleet(s)|
    ensures Fleet(r)[k].collision.None? && Fleet(r)[k] == Fleet(s)[k].(collision := None)
    ensures forall j :: 0 <= j < |Fleet(s)| && j != k ==> Fleet(r)[j] == Fleet(s)[j]
    ensures Linked(Fleet(s)) ==> Linked(Fleet(r))
    ensures Indexed(s) ==> Indexed(r)
  {
    var a := Agents.DisableCollisionAvoidance(Fleet(s)[k]);
    var cfs := Fleet(s)[k := a];
    LinkedReplaceOne(Fleet(s), k, a);
    IndexedKeepsIds(s, cfs);
    WithAgents(s, cfs)
  }

  // ------------------------------------------------------------------ lemmas

  /** With selector 0 (the default), a takeoff reaches every agent. */
  lemma BroadcastTakeoffReachesAll(s: Server, height: real, duration: real)
    ensures forall k :: 0 <= k < |Fleet(s)| ==> Fleet(Takeoff(s, height, duration, 0))[k].mode == Agents.HighPoly
  {
  }

  /** When the first agent rejects a `goTo`, the loop raises before changing
      anything. */
  lemma GoToRejectedByFirstChangesNothing(s: Server, goal: Vec, yaw: real, duration: real, selector: bv64)
    requires |Fleet(s)| > 0 && GoToRejected(Fleet(s)[0], selector)
    ensures var r := GoTo(s, goal, yaw, duration, selector);
      r.raised == Some(GoToFromLowLevel) && r.value == s
  {
    var r := GoTo(s, goal, yaw, duration, selector);
    GoToStopsAtFirstRejecter(s, goal, yaw, duration, selector);
    assert FirstWhere(Fleet(s), GoToRejecter(selector)) == 0;
    assert Fleet(r.value) == Fleet(s);
  }

  /** A fresh swarm is idle everywhere, so a `goTo` before any takeoff raises
      as soon as there is an agent, and changes no agent. */
  lemma GoToBeforeTakeoffRaises(th: TimeHelper, cfg: seq<AgentConfig>, goal: Vec, yaw: real, duration: real)
    requires |cfg| > 0
    ensures var s := NewServer(th, cfg);
      var r := GoTo(s, goal, yaw, duration, 0);
      r.raised == Some(GoToFromLowLevel) && r.value == s
  {
    GoToRejectedByFirstChangesNothing(NewServer(th, cfg), goal, yaw, duration, 0);
  }

}

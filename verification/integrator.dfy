/** The per-agent half of a tick: `integrate` computes the next state into the
    back buffer from the front state and the setpoint, and `flip` swaps the
    buffers once every agent has integrated. */
module Integrator {
  import opened Vectors
  import opened Outcomes
  import opened Firmware
  import opened Agents
  import Adapter

  /** The setpoint a tick starts from: the planner's goal at `now` in HIGH_POLY,
      the last commanded setpoint otherwise. */
  function Candidate(a: Agent, now: real, e: Engine): State
  {
    if a.mode == HighPoly then e.currentGoal(a.planner, now) else a.setState
  }

  /** The candidate setpoint after collision avoidance (when enabled), and the
      agent's collision-avoidance record with the firmware's updated state. */
  datatype Prepared = Prepared(setState: State, collision: Option<Collision>)

  function Prepare(a: Agent, now: real, others: seq<Vec>, e: Engine): (p: Prepared)
    ensures a.collision.None? ==> p == Prepared(Candidate(a, now, e), None)
    ensures a.collision.Some? ==>
      var c := a.collision.value;
      var adj := Adapter.UpdateSetpoint(c.params, c.state, a.mode, a.state, Candidate(a, now, e), others, e);
      p == Prepared(adj.setState, Some(c.(state := adj.caState)))
    ensures a.collision.Some? ==>
      && p.collision.Some?
      && p.collision.value == a.collision.value.(state := p.collision.value.state)
    ensures p.setState.yaw == Candidate(a, now, e).yaw
    ensures p.setState.omega.z == Candidate(a, now, e).omega.z
  {
    var cand := Candidate(a, now, e);
    match a.collision
    case None => Prepared(cand, None)
    case Some(c) =>
      var adj := Adapter.UpdateSetpoint(c.params, c.state, a.mode, a.state, cand, others, e);
      Prepared(adj.setState, Some(c.(state := adj.caState)))
  }

  /** Whether `integrate(time, ...)` is defined in exact arithmetic. IDLE
      returns before any division and LOW_VELOCITY never divides by `time`;
      the position modes divide by it. */
  predicate Integrable(a: Agent, h: real)
  {
    h != 0.0 || a.mode == Idle || a.mode == LowVelocity
  }

  /** Velocity demanded by the mode before clamping: the finite difference
      towards the setpoint position, or the setpoint velocity in LOW_VELOCITY. */
  function Commanded(mode: Mode, front: State, sp: State, h: real): (v: Vec)
    requires h != 0.0 || mode == LowVelocity
    ensures mode == LowVelocity ==> v == sp.vel
    ensures mode != LowVelocity ==> Add(front.pos, Scale(h, v)) == sp.pos
  {
    if mode == LowVelocity then sp.vel else Div(Sub(sp.pos, front.pos), h)
  }

  /** The yaw fix-ups applied after the setpoint was copied to the back buffer. */
  function FixYaw(mode: Mode, back: State, sp: State, cand: State, front: State, h: real): (r: State)
    requires h != 0.0 || mode != LowPosition
    ensures r.pos == back.pos && r.vel == back.vel && r.acc == back.acc
    ensures mode == LowPosition ==> r.yaw == sp.yaw && front.yaw + h * r.omega.z == sp.yaw && r.omega.x == r.omega.y == 0.0
    ensures mode == LowVelocity ==> r.yaw == back.yaw + h * cand.omega.z && r.omega == back.omega
    ensures mode != LowPosition && mode != LowVelocity ==> r == back
  {
    match mode
    case LowPosition => back.(yaw := sp.yaw, omega := Vec(0.0, 0.0, (sp.yaw - front.yaw) / h))
    case LowVelocity => back.(yaw := back.yaw + h * cand.omega.z)
    case _ => back
  }

  /** `integrate(time, disturbanceSize, maxVel)`. `draw` is the agent's normal
      draw for this tick and `others` the front positions of the agents it
      avoids. Only the setpoint, the collision-avoidance state and the back
      buffer change; in IDLE the back buffer is left as it was. */
  function Integrate(a: Agent, now: real, h: real, disturbanceSize: real, draw: Vec, maxVel: MaxVel,
                     others: seq<Vec>, e: Engine): (r: Agent)
    requires Integrable(a, h)
    ensures r == a.(setState := r.setState, collision := r.collision, backState := r.backState)
    ensures r.setState == Candidate(a, now, e)
    ensures r.collision == Prepare(a, now, others, e).collision
    ensures a.mode == Idle ==> r.backState == a.backState
    ensures a.mode != Idle ==>
      var sp := Prepare(a, now, others, e).setState;
      && r.backState.vel == Add(e.clampNorm(Commanded(a.mode, a.state, sp, h), maxVel), Scale(disturbanceSize, draw))
      && r.backState.pos == Add(a.state.pos, Scale(h, r.backState.vel))
      && r.backState.acc == sp.acc
    ensures a.mode != Idle && a.mode != LowPosition ==> r.backState.omega == Prepare(a, now, others, e).setState.omega
  {
    var cand := Candidate(a, now, e);
    var p := Prepare(a, now, others, e);
    var a1 := a.(setState := cand, collision := p.collision);
    if a.mode == Idle then a1
    else
      var sp := p.setState;
      var vel := Add(e.clampNorm(Commanded(a.mode, a.state, sp, h), maxVel), Scale(disturbanceSize, draw));
      var back := sp.(pos := Add(a.state.pos, Scale(h, vel)), vel := vel);
      a1.(backState := FixYaw(a.mode, back, sp, cand, a.state, h))
  }

  /** `flip`: swap front and back buffers. */
  function Flip(a: Agent): (r: Agent)
    ensures r.state == a.backState && r.backState == a.state
    ensures r == a.(state := r.state, backState := r.backState)
  {
    a.(state := a.backState, backState := a.state)
  }

  // ------------------------------------------------------------- properties

  /** Position-type modes without collision avoidance or disturbance: when the
      finite-difference velocity is within the speed limit, the agent lands
      exactly on the setpoint position in one tick. */
  lemma PositionModesReachSetpoint(a: Agent, now: real, h: real, draw: Vec, maxVel: MaxVel,
                                   others: seq<Vec>, e: Engine)
    requires h != 0.0 && ClampSound(e)
    requires a.mode == HighPoly || a.mode == LowFullState || a.mode == LowPosition
    requires a.collision.None?
    requires WithinCap(Div(Sub(Candidate(a, now, e).pos, a.state.pos), h), maxVel)
    ensures var r := Integrate(a, now, h, 0.0, draw, maxVel, others, e);
      && r.backState.vel == Div(Sub(Candidate(a, now, e).pos, a.state.pos), h)
      && r.backState.pos == Candidate(a, now, e).pos
  {
    var sp := Candidate(a, now, e);
    var v := Div(Sub(sp.pos, a.state.pos), h);
    assert e.clampNorm(v, maxVel) == v by {
      match maxVel
      case Unbounded =>
      case Cap(m) =>
    }
    assert Add(v, Scale(0.0, draw)) == v;
    var p := Add(a.state.pos, Scale(h, v));
    assert p.x == sp.pos.x && p.y == sp.pos.y && p.z == sp.pos.z;
  }

  /** LOW_VELOCITY without collision avoidance or disturbance moves with the
      commanded velocity when it is within the speed limit. */
  lemma VelocityModeUsesSetpointVelocity(a: Agent, now: real, h: real, draw: Vec, maxVel: MaxVel,
                                         others: seq<Vec>, e: Engine)
    requires ClampSound(e)
    requires a.mode == LowVelocity && a.collision.None?
    requires WithinCap(a.setState.vel, maxVel)
    ensures var r := Integrate(a, now, h, 0.0, draw, maxVel, others, e);
      && r.backState.vel == a.setState.vel
      && r.backState.pos == Add(a.state.pos, Scale(h, a.setState.vel))
  {
    var v := a.setState.vel;
    assert e.clampNorm(v, maxVel) == v by {
      match maxVel
      case Unbounded =>
      case Cap(m) =>
    }
    assert Add(v, Scale(0.0, draw)) == v;
  }

  /** With no disturbance the committed velocity respects the speed limit in
      every flying mode; the disturbance is added after the clamp, so with a
      non-zero disturbance this bound is not promised. */
  lemma ClampedVelocityWithinCap(a: Agent, now: real, h: real, draw: Vec, maxVel: MaxVel,
                                 others: seq<Vec>, e: Engine)
    requires Integrable(a, h) && ClampSound(e) && a.mode != Idle
    requires maxVel.Cap? ==> 0.0 <= maxVel.limit
    ensures WithinCap(Integrate(a, now, h, 0.0, draw, maxVel, others, e).backState.vel, maxVel)
  {
    var sp := Prepare(a, now, others, e).setState;
    var c := e.clampNorm(Commanded(a.mode, a.state, sp, h), maxVel);
    assert Add(c, Scale(0.0, draw)) == c;
  }

  /** Yaw rules, whether or not collision avoidance is on: LOW_POSITION takes
      the setpoint yaw and derives the yaw rate by finite difference from the
      front yaw; LOW_VELOCITY adds one step of the commanded yaw rate to the
      setpoint yaw (not to the front yaw); HIGH_POLY and LOW_FULLSTATE copy the
      setpoint yaw. */
  lemma YawRules(a: Agent, now: real, h: real, disturbanceSize: real, draw: Vec, maxVel: MaxVel,
                 others: seq<Vec>, e: Engine)
    requires Integrable(a, h)
    ensures var r := Integrate(a, now, h, disturbanceSize, draw, maxVel, others, e);
      var cand := Candidate(a, now, e);
      && (a.mode == LowPosition ==>
            r.backState.yaw == cand.yaw && r.backState.omega == Vec(0.0, 0.0, (cand.yaw - a.state.yaw) / h))
      && (a.mode == LowVelocity ==>
            r.backState.yaw == a.setState.yaw + h * a.setState.omega.z
            && r.backState.omega.z == a.setState.omega.z)
      && (a.mode == HighPoly || a.mode == LowFullState ==>
            r.backState.yaw == cand.yaw && r.backState.omega.z == cand.omega.z)
      && (a.mode != Idle && a.mode != LowPosition ==>
            r.backState.omega == Prepare(a, now, others, e).setState.omega)
  {
  }

  /** In LOW_VELOCITY the committed yaw does not depend on the front yaw, so
      holding a yaw rate does not accumulate yaw from tick to tick. */
  lemma VelocityYawIgnoresFrontYaw(a: Agent, front: State, now: real, h: real, disturbanceSize: real,
                                   draw: Vec, maxVel: MaxVel, others: seq<Vec>, e: Engine)
    requires a.mode == LowVelocity
    ensures Integrate(a.(state := front), now, h, disturbanceSize, draw, maxVel, others, e).backState.yaw
         == Integrate(a, now, h, disturbanceSize, draw, maxVel, others, e).backState.yaw
  {
    YawRules(a, now, h, disturbanceSize, draw, maxVel, others, e);
    YawRules(a.(state := front), now, h, disturbanceSize, draw, maxVel, others, e);
  }

  /** An IDLE tick swaps the buffers: the agent shows its previous back state.
      When both buffers agree (as after construction) nothing observable moves;
      after flight, two idle ticks bring back the original front state, so the
      agent alternates between its last two committed states. */
  lemma IdleTickSwapsBuffers(a: Agent, now: real, h: real, disturbanceSize: real, draw: Vec, maxVel: MaxVel,
                             others: seq<Vec>, e: Engine, now2: real, draw2: Vec, others2: seq<Vec>)
    requires a.mode == Idle
    ensures var r := Flip(Integrate(a, now, h, disturbanceSize, draw, maxVel, others, e));
      && r.state == a.backState && r.backState == a.state && r.mode == Idle
      && Flip(Integrate(r, now2, h, disturbanceSize, draw2, maxVel, others2, e)).state == a.state
  {
  }

  /** Concrete instance: an idle agent whose buffers differ moves on the next tick. */
  lemma IdleAgentCanMove(e: Engine)
    ensures var a := NewAgent(1, Zero).(backState := ZeroState.(pos := Vec(0.0, 0.0, 1.0)));
      Flip(Integrate(a, 0.01, 0.01, 0.0, Zero, Unbounded, [], e)).state.pos != a.state.pos
  {
  }

  /** `cmdPosition` steers: without collision avoidance or disturbance, and
      within the speed limit, the next tick commits exactly the commanded
      position and yaw, with the yaw rate the finite difference from the
      front yaw. */
  lemma CmdPositionSteers(a: Agent, pos: Vec, yaw: real, now: real, h: real, draw: Vec, maxVel: MaxVel,
                          others: seq<Vec>, e: Engine)
    requires h != 0.0 && ClampSound(e) && a.collision.None?
    requires WithinCap(Div(Sub(pos, a.state.pos), h), maxVel)
    ensures var r := Integrate(CmdPosition(a, pos, yaw), now, h, 0.0, draw, maxVel, others, e);
      && r.backState.pos == pos && r.backState.yaw == yaw
      && r.backState.omega == Vec(0.0, 0.0, (yaw - a.state.yaw) / h)
  {
    var c := CmdPosition(a, pos, yaw);
    PositionModesReachSetpoint(c, now, h, draw, maxVel, others, e);
    YawRules(c, now, h, 0.0, draw, maxVel, others, e);
  }

  /** `cmdVelocityWorld` steers: without collision avoidance or disturbance,
      and within the speed limit, the next tick moves with the commanded
      velocity and turns at the commanded yaw rate from the setpoint yaw. */
  lemma CmdVelocitySteers(a: Agent, vel: Vec, yawRate: real, now: real, h: real, draw: Vec, maxVel: MaxVel,
                          others: seq<Vec>, e: Engine)
    requires ClampSound(e) && a.collision.None? && WithinCap(vel, maxVel)
    ensures var r := Integrate(CmdVelocityWorld(a, vel, yawRate), now, h, 0.0, draw, maxVel, others, e);
      && r.backState.vel == vel && r.backState.pos == Add(a.state.pos, Scale(h, vel))
      && r.backState.yaw == a.setState.yaw + h * yawRate && r.backState.omega.z == yawRate
  {
    var c := CmdVelocityWorld(a, vel, yawRate);
    VelocityModeUsesSetpointVelocity(c, now, h, draw, maxVel, others, e);
    YawRules(c, now, h, 0.0, draw, maxVel, others, e);
  }

  /** After an accepted `stop`, ticks no longer write the back buffer. */
  lemma StopHaltsIntegration(a: Agent, selector: bv64, now: real, h: real, disturbanceSize: real, draw: Vec,
                             maxVel: MaxVel, others: seq<Vec>, e: Engine)
    requires IsGroup(a.groupMask, selector)
    ensures Integrate(Stop(a, selector), now, h, disturbanceSize, draw, maxVel, others, e).backState == a.backState
  {
  }
}

/** One simulated Crazyflie: its identity, group mask, flight mode, planner,
    uploaded trajectories, commanded setpoint and double-buffered state, and
    the commands that change them (crazyflieSim.py, class `Crazyflie`). */
module Agents {
  import opened Vectors
  import opened Outcomes
  import opened Firmware

  /** `MODE_IDLE` .. `MODE_LOW_VELOCITY`. */
  datatype Mode = Idle | HighPoly | LowFullState | LowPosition | LowVelocity

  /** Collision avoidance, present iff enabled: the parameters, the opaque
      state the firmware updates, and the other agents (as indices into the
      swarm's list) whose positions it observes. */
  datatype Collision = Collision(params: CaParams, state: CaState, others: seq<nat>)

  datatype Agent = Agent(
    id: int,
    groupMask: bv64,
    initialPosition: Vec,
    mode: Mode,
    planner: Planner,
    trajectories: map<int, Traj>,
    setState: State,
    state: State,       // front buffer: what everyone observes
    backState: State,   // back buffer: written by `integrate`, swapped in by `flip`
    collision: Option<Collision>)

  /** A new agent at rest at its initial position, idle, both buffers equal. */
  function NewAgent(id: int, initialPosition: Vec): (a: Agent)
    ensures a.id == id && a.groupMask == 0 && a.mode == Idle && a.initialPosition == initialPosition
    ensures a.state.pos == initialPosition && a.state.vel == Zero && a.state.acc == Zero
    ensures a.state.yaw == 0.0 && a.state.omega == Zero
    ensures a.setState == ZeroState && a.backState == a.state
    ensures a.planner == [] && a.trajectories == map[] && a.collision.None?
  {
    var s := ZeroState.(pos := initialPosition);
    Agent(id, 0, initialPosition, Idle, [], map[], ZeroState, s, s, None)
  }

  function SetGroupMask(a: Agent, groupMask: bv64): (r: Agent)
    ensures r.groupMask == groupMask && r.(groupMask := a.groupMask) == a
  {
    a.(groupMask := groupMask)
  }

  // ---------------------------------------------------------------- group masks

  /** `_isGroup`: whether this agent accepts a high-level command sent with `selector`. */
  predicate IsGroup(groupMask: bv64, selector: bv64)
  {
    selector == 0 || groupMask & selector != 0
  }

  /** Bit `i` of `x`, for `i` in 0..63. */
  predicate HasBit(x: bv64, i: bv7)
    requires i < 64
  {
    (x >> i) & 1 == 1
  }

  /** Reference reading of the mask test: the agent and the selector name a
      common group. */
  ghost predicate SharesGroup(groupMask: bv64, selector: bv64)
  {
    exists i: bv7 :: i < 64 && HasBit(groupMask, i) && HasBit(selector, i)
  }

  lemma BitOfAnd(m: bv64, s: bv64, i: bv7)
    requires i < 64
    ensures HasBit(m & s, i) <==> HasBit(m, i) && HasBit(s, i)
  {
  }

  lemma ShiftStep(x: bv64, i: bv7)
    requires i < 64 && x >> i != 0 && !HasBit(x, i)
    ensures i < 63 && x >> (i + 1) != 0
  {
  }

  /** A set bit of `x` at or above bit `j`, found by searching upward; one
      exists while `x >> j` is non-zero. */
  function SetBitFrom(x: bv64, j: bv7): (i: bv7)
    requires j < 64 && x >> j != 0
    ensures j <= i < 64 && HasBit(x, i)
    decreases 64 - j as int
  {
    if HasBit(x, j) then j
    else
      ShiftStep(x, j);
      SetBitFrom(x, j + 1)
  }

  /** A non-zero mask has a set bit, found by searching upward from bit 0. */
  function SetBit(x: bv64): (j: bv7)
    requires x != 0
    ensures j < 64 && HasBit(x, j)
  {
    SetBitFrom(x, 0)
  }

  /** Group acceptance: broadcast (selector 0) or a shared group bit. */
  lemma IsGroupMeansSharedGroup(groupMask: bv64, selector: bv64)
    ensures IsGroup(groupMask, selector) <==> selector == 0 || SharesGroup(groupMask, selector)
  {
    if groupMask & selector != 0 {
      var j := SetBit(groupMask & selector);
      BitOfAnd(groupMask, selector, j);
    }
    if SharesGroup(groupMask, selector) {
      var i: bv7 :| i < 64 && HasBit(groupMask, i) && HasBit(selector, i);
      BitOfAnd(groupMask, selector, i);
    }
  }

  // ------------------------------------------------------ high-level commands

  /** `takeoff`: an accepted command switches to HIGH_POLY and plans a takeoff
      from the current front state to `height` (target yaw 0) at time `now`. */
  function Takeoff(a: Agent, height: real, duration: real, selector: bv64, now: real): (r: Agent)
    ensures IsGroup(a.groupMask, selector) ==>
      && r.mode == HighPoly
      && r.planner == a.planner + [PlanTakeoff(a.state.pos, a.state.yaw, height, 0.0, duration, now)]
      && r == a.(mode := r.mode, planner := r.planner)
    ensures !IsGroup(a.groupMask, selector) ==> r == a
  {
    if IsGroup(a.groupMask, selector) then
      a.(mode := HighPoly,
         planner := a.planner + [PlanTakeoff(a.state.pos, a.state.yaw, height, 0.0, duration, now)])
    else a
  }

  /** `land`: as `takeoff`, planning a descent to `height`. */
  function Land(a: Agent, height: real, duration: real, selector: bv64, now: real): (r: Agent)
    ensures IsGroup(a.groupMask, selector) ==>
      && r.mode == HighPoly
      && r.planner == a.planner + [PlanLand(a.state.pos, a.state.yaw, height, 0.0, duration, now)]
      && r == a.(mode := r.mode, planner := r.planner)
    ensures !IsGroup(a.groupMask, selector) ==> r == a
  {
    if IsGroup(a.groupMask, selector) then
      a.(mode := HighPoly,
         planner := a.planner + [PlanLand(a.state.pos, a.state.yaw, height, 0.0, duration, now)])
    else a
  }

  /** `stop`: an accepted command returns to IDLE and stops the planner. */
  function Stop(a: Agent, selector: bv64): (r: Agent)
    ensures IsGroup(a.groupMask, selector) ==>
      r.mode == Idle && r.planner == a.planner + [PlanStop] && r == a.(mode := Idle, planner := r.planner)
    ensures !IsGroup(a.groupMask, selector) ==> r == a
  {
    if IsGroup(a.groupMask, selector) then a.(mode := Idle, planner := a.planner + [PlanStop]) else a
  }

  /** `goTo`: only possible from HIGH_POLY; an accepted command in any other
      mode raises and changes nothing. */
  function GoTo(a: Agent, goal: Vec, yaw: real, duration: real, relative: bool, selector: bv64, now: real): (r: Outcome<Agent>)
    ensures r.raised.Some? <==> IsGroup(a.groupMask, selector) && a.mode != HighPoly
    ensures r.raised.Some? ==> r.raised.value == GoToFromLowLevel && r.value == a
    ensures !IsGroup(a.groupMask, selector) ==> r.value == a
    ensures IsGroup(a.groupMask, selector) && a.mode == HighPoly ==>
      r.value == a.(planner := a.planner + [PlanGoTo(relative, goal, yaw, duration, now)])
    ensures r.value.collision == a.collision && r.value.id == a.id
  {
    if !IsGroup(a.groupMask, selector) then Outcome(a, None)
    else if a.mode != HighPoly then Outcome(a, Some(GoToFromLowLevel))
    else Outcome(a.(mode := HighPoly, planner := a.planner + [PlanGoTo(relative, goal, yaw, duration, now)]), None)
  }

  // -------------------------------------------------------------- trajectories

  /** One uploaded polynomial piece as the caller supplies it: a duration and
      coefficient lists for x, y, z and yaw. */
  datatype Polynomial4D = Polynomial4D(duration: real, px: seq<real>, py: seq<real>, pz: seq<real>, pyaw: seq<real>)

  /** Coefficients copied per axis. */
  const CoefficientsPerAxis := 8

  predicate HasCoefficients(p: Polynomial4D)
  {
    && |p.px| >= CoefficientsPerAxis && |p.py| >= CoefficientsPerAxis
    && |p.pz| >= CoefficientsPerAxis && |p.pyaw| >= CoefficientsPerAxis
  }

  function ToPiece(p: Polynomial4D): (piece: Piece)
    requires HasCoefficients(p)
    ensures piece.duration == p.duration && |piece.coeffs| == 4
    ensures forall row :: 0 <= row < 4 ==> |piece.coeffs[row]| == CoefficientsPerAxis
    ensures forall c :: 0 <= c < CoefficientsPerAxis ==>
      && piece.coeffs[0][c] == p.px[c] && piece.coeffs[1][c] == p.py[c]
      && piece.coeffs[2][c] == p.pz[c] && piece.coeffs[3][c] == p.pyaw[c]
  {
    Piece(p.duration, [p.px[..CoefficientsPerAxis], p.py[..CoefficientsPerAxis],
                       p.pz[..CoefficientsPerAxis], p.pyaw[..CoefficientsPerAxis]])
  }

  /** `uploadTrajectory`: stores (or replaces) the trajectory under `trajectoryId`,
      with start time 0, time scale 1 and no shift. A polynomial with fewer
      than eight coefficients on some axis raises before anything is stored.
      `pieceOffset` is ignored, as in the source. */
  function UploadTrajectory(a: Agent, trajectoryId: int, pieceOffset: int, polys: seq<Polynomial4D>): (r: Outcome<Agent>)
    ensures r.Ok() <==> forall k :: 0 <= k < |polys| ==> HasCoefficients(polys[k])
    ensures !r.Ok() ==> r.value == a && r.raised.value == MissingCoefficient
    ensures r.Ok() ==> trajectoryId in r.value.trajectories
    ensures r.Ok() ==>
      && r.value == a.(trajectories := r.value.trajectories)
      && r.value.trajectories.Keys == a.trajectories.Keys + {trajectoryId}
      && (forall id :: id in a.trajectories && id != trajectoryId ==> r.value.trajectories[id] == a.trajectories[id])
    ensures r.Ok() ==>
      var tr := r.value.trajectories[trajectoryId];
      && tr.tBegin == 0.0 && tr.timescale == 1.0 && tr.shift == Zero
      && |tr.pieces| == |polys|
      && forall k :: 0 <= k < |polys| ==> tr.pieces[k] == ToPiece(polys[k])
  {
    if forall k :: 0 <= k < |polys| ==> HasCoefficients(polys[k]) then
      var pieces := seq(|polys|, k requires 0 <= k < |polys| => ToPiece(polys[k]));
      Outcome(a.(trajectories := a.trajectories[trajectoryId := Traj(pieces, 0.0, 1.0, Zero)]), None)
    else
      Outcome(a, Some(MissingCoefficient))
  }

  /** The evaluation the relative start anchors on: forward or reversed. */
  function EvalFor(e: Engine, reverse: bool, traj: Traj, t: real): State
  {
    if reverse then e.evalReversed(traj, t) else e.eval(traj, t)
  }

  /** `startTrajectory`. An accepted command sets HIGH_POLY before looking the
      trajectory up, so an unknown id raises with the mode already changed.
      Otherwise the stored trajectory gets start time `now`, the time scale,
      and a shift: with `relative`, the current position minus the unshifted
      trajectory's position at `now`; without, zero. It is then started. */
  function StartTrajectory(a: Agent, trajectoryId: int, timescale: real, reverse: bool, relative: bool,
                           selector: bv64, now: real, e: Engine): (r: Outcome<Agent>)
    ensures !IsGroup(a.groupMask, selector) ==> r == Outcome(a, None)
    ensures IsGroup(a.groupMask, selector) ==> r.value.mode == HighPoly
    ensures r.value.collision == a.collision && r.value.id == a.id
    ensures r.raised.Some? <==> IsGroup(a.groupMask, selector) && trajectoryId !in a.trajectories
    ensures r.raised.Some? ==> r.value == a.(mode := HighPoly) && r.raised.value == UnknownTrajectory(trajectoryId)
    ensures IsGroup(a.groupMask, selector) && trajectoryId in a.trajectories ==>
      trajectoryId in r.value.trajectories
    ensures IsGroup(a.groupMask, selector) && trajectoryId in a.trajectories ==>
      var tr := r.value.trajectories[trajectoryId];
      var uploaded := a.trajectories[trajectoryId];
      && r.value == a.(mode := HighPoly, trajectories := a.trajectories[trajectoryId := tr],
                       planner := a.planner + [PlanStartTrajectory(tr, reverse)])
      && tr.pieces == uploaded.pieces && tr.tBegin == now && tr.timescale == timescale
      && (!relative ==> tr.shift == Zero)
      && (relative ==> tr.shift == Sub(a.state.pos, EvalFor(e, reverse, uploaded.(tBegin := now, timescale := timescale, shift := Zero), now).pos))
  {
    if !IsGroup(a.groupMask, selector) then Outcome(a, None)
    else
      var a1 := a.(mode := HighPoly);
      if trajectoryId !in a.trajectories then Outcome(a1, Some(UnknownTrajectory(trajectoryId)))
      else
        var unshifted := a.trajectories[trajectoryId].(tBegin := now, timescale := timescale, shift := Zero);
        var shift := if relative then Sub(a.state.pos, EvalFor(e, reverse, unshifted, unshifted.tBegin).pos) else Zero;
        var traj := unshifted.(shift := shift);
        Outcome(a1.(trajectories := a.trajectories[trajectoryId := traj],
                    planner := a.planner + [PlanStartTrajectory(traj, reverse)]), None)
  }

  /** With `relative`, the started trajectory is anchored at the agent: its
      (forward or reversed) position at the start time is the agent's current
      front position. */
  lemma RelativeStartAnchorsAtPosition(a: Agent, trajectoryId: int, timescale: real, reverse: bool,
                                        selector: bv64, now: real, e: Engine)
    requires ShiftEquivariant(e)
    requires IsGroup(a.groupMask, selector) && trajectoryId in a.trajectories
    ensures var r := StartTrajectory(a, trajectoryId, timescale, reverse, true, selector, now, e);
      && r.Ok() && trajectoryId in r.value.trajectories
      && EvalFor(e, reverse, r.value.trajectories[trajectoryId], now).pos == a.state.pos
  {
    var uploaded := a.trajectories[trajectoryId];
    var unshifted := Traj(uploaded.pieces, now, timescale, Zero);
    var shift := Sub(a.state.pos, EvalFor(e, reverse, unshifted, now).pos);
    assert EvalFor(e, reverse, Traj(uploaded.pieces, now, timescale, shift), now).pos
        == Add(EvalFor(e, reverse, unshifted, now).pos, shift);
  }

  /** The started trajectory is the uploaded one, re-timed to start at `now`
      with the given time scale and moved rigidly by its shift: the
      displacement between any two sampled times is that of the re-timed
      uploaded trajectory. */
  lemma RelativeStartPreservesShape(a: Agent, trajectoryId: int, timescale: real, reverse: bool, relative: bool,
                                    selector: bv64, now: real, e: Engine, t1: real, t2: real)
    requires ShiftEquivariant(e)
    requires IsGroup(a.groupMask, selector) && trajectoryId in a.trajectories
    ensures var r := StartTrajectory(a, trajectoryId, timescale, reverse, relative, selector, now, e);
      var tr := r.value.trajectories[trajectoryId];
      var retimed := a.trajectories[trajectoryId].(tBegin := now, timescale := timescale, shift := Zero);
      && tr == retimed.(shift := tr.shift)
      && Sub(EvalFor(e, reverse, tr, t1).pos, EvalFor(e, reverse, tr, t2).pos)
         == Sub(EvalFor(e, reverse, retimed, t1).pos, EvalFor(e, reverse, retimed, t2).pos)
  {
    var r := StartTrajectory(a, trajectoryId, timescale, reverse, relative, selector, now, e);
    var tr := r.value.trajectories[trajectoryId];
    assert EvalFor(e, reverse, Traj(tr.pieces, tr.tBegin, tr.timescale, tr.shift), t1).pos
        == Add(EvalFor(e, reverse, Traj(tr.pieces, tr.tBegin, tr.timescale, Zero), t1).pos, tr.shift);
    assert EvalFor(e, reverse, Traj(tr.pieces, tr.tBegin, tr.timescale, tr.shift), t2).pos
        == Add(EvalFor(e, reverse, Traj(tr.pieces, tr.tBegin, tr.timescale, Zero), t2).pos, tr.shift);
  }

  // ------------------------------------------------------- low-level commands

  /** `cmdFullState`: LOW_FULLSTATE, whatever the group mask, with every setpoint field replaced. */
  function CmdFullState(a: Agent, pos: Vec, vel: Vec, acc: Vec, yaw: real, omega: Vec): (r: Agent)
    ensures r.mode == LowFullState && r.setState == State(pos, vel, acc, yaw, omega)
    ensures r == a.(mode := LowFullState, setState := r.setState)
  {
    a.(mode := LowFullState, setState := State(pos, vel, acc, yaw, omega))
  }

  /** `cmdPosition`: LOW_POSITION; only position and yaw of the setpoint change. */
  function CmdPosition(a: Agent, pos: Vec, yaw: real): (r: Agent)
    ensures r.mode == LowPosition && r.setState == a.setState.(pos := pos, yaw := yaw)
    ensures r == a.(mode := LowPosition, setState := r.setState)
  {
    a.(mode := LowPosition, setState := a.setState.(pos := pos, yaw := yaw))
  }

  /** `cmdVelocityWorld`: LOW_VELOCITY; the setpoint velocity and the yaw rate
      (as angular velocity about z) change, nothing else. */
  function CmdVelocityWorld(a: Agent, vel: Vec, yawRate: real): (r: Agent)
    ensures r.mode == LowVelocity && r.setState == a.setState.(vel := vel, omega := Vec(0.0, 0.0, yawRate))
    ensures r == a.(mode := LowVelocity, setState := r.setState)
  {
    a.(mode := LowVelocity, setState := a.setState.(vel := vel, omega := Vec(0.0, 0.0, yawRate)))
  }

  /** `cmdVel`: the attitude/thrust command becomes a world acceleration `acc`
      (the rotation physics is not modelled), the new velocity is the front
      velocity plus `dt * acc`, and the command ends in `cmdVelocityWorld`. */
  function CmdVel(a: Agent, acc: Vec, yawRate: real, dt: real): (r: Agent)
    ensures r == CmdVelocityWorld(a, Add(a.state.vel, Scale(dt, acc)), yawRate)
    ensures r.mode == LowVelocity && r.setState.vel == Add(a.state.vel, Scale(dt, acc))
  {
    CmdVelocityWorld(a, Add(a.state.vel, Scale(dt, acc)), yawRate)
  }

  // ------------------------------------------------------ collision avoidance

  /** `enableCollisionAvoidance`: observe every listed agent except itself,
      with the fixed tuning constants and an empty opaque state. */
  function EnableCollisionAvoidance(a: Agent, self: nat, others: seq<nat>, ellipsoidRadii: Vec,
                                    bboxMin: Option<Vec>, bboxMax: Option<Vec>,
                                    horizonSecs: real, maxSpeed: real): (r: Agent)
    ensures r.collision.Some? && r == a.(collision := r.collision)
    ensures var c := r.collision.value;
      && self !in c.others
      && c.others == Exclude(others, self)
      && c.state.lastFeasibleSetPosition.None?
    ensures var p := r.collision.value.params;
      && p.ellipsoidRadii == ellipsoidRadii && p.bboxMin == bboxMin && p.bboxMax == bboxMax
      && p.horizonSecs == horizonSecs && p.maxSpeed == maxSpeed
      && p.sidestepThreshold == 0.25 && p.voronoiProjectionTolerance == 0.00001
      && p.voronoiProjectionMaxIters == 100
  {
    var params := CaParams(ellipsoidRadii, bboxMin, bboxMax, horizonSecs, maxSpeed, 0.25, 0.00001, 100);
    a.(collision := Some(Collision(params, CaState(None), Exclude(others, self))))
  }

  /** The list without `self`: every other entry is kept, repeats included,
      in the original order. */
  function Exclude(others: seq<nat>, self: nat): (r: seq<nat>)
    ensures forall k :: k in r <==> k in others && k != self
    ensures multiset(r) == multiset(others)[self := 0]
    ensures self !in others ==> r == others
    decreases |others|
  {
    if others == [] then []
    else
      assert others == [others[0]] + others[1..];
      if others[0] == self then Exclude(others[1..], self)
    else [others[0]] + Exclude(others[1..], self)
  }

  /** Excluding distributes over concatenation, so the kept entries keep
      their relative order. */
  lemma {:induction false} ExcludeAppend(xs: seq<nat>, ys: seq<nat>, self: nat)
    ensures Exclude(xs + ys, self) == Exclude(xs, self) + Exclude(ys, self)
    decreases |xs|
  {
    if xs != [] {
      assert (xs + ys)[0] == xs[0] && (xs + ys)[1..] == xs[1..] + ys;
      ExcludeAppend(xs[1..], ys, self);
      if xs[0] != self {
        assert [xs[0]] + (Exclude(xs[1..], self) + Exclude(ys, self))
            == ([xs[0]] + Exclude(xs[1..], self)) + Exclude(ys, self);
      }
    } else {
      assert xs + ys == ys;
    }
  }

  function DisableCollisionAvoidance(a: Agent): (r: Agent)
    ensures r.collision.None? && r == a.(collision := None)
  {
    a.(collision := None)
  }
}

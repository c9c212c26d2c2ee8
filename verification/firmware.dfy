/** The interface of the flight-control firmware the simulator calls. Its
    algorithms (polynomial planner, trajectory evaluation, velocity clamp,
    Voronoi collision avoidance) are opaque: an `Engine` bundles them as
    functions, and the ghost predicates below state the few facts about them
    that individual properties rely on. */
module Firmware {
  import opened Vectors
  import opened Outcomes

  /** A full kinematic state, the firmware's `traj_eval`. */
  datatype State = State(pos: Vec, vel: Vec, acc: Vec, yaw: real, omega: Vec)

  /** `traj_eval_zero()`. */
  const ZeroState := State(Zero, Zero, Zero, 0.0, Zero)

  /** One polynomial piece (`poly4d`): a duration and four rows (x, y, z, yaw)
      of eight coefficients each. */
  datatype Piece = Piece(duration: real, coeffs: seq<seq<real>>)

  /** A `piecewise_traj`: the pieces plus the start time, time scale and
      spatial shift that `startTrajectory` fills in. */
  datatype Traj = Traj(pieces: seq<Piece>, tBegin: real, timescale: real, shift: Vec)

  /** The commands the planner has been given (`plan_takeoff`, `plan_land`,
      `plan_stop`, `plan_go_to`, `plan_start_trajectory`). */
  datatype PlanCmd =
    | PlanTakeoff(pos: Vec, yaw: real, height: real, targetYaw: real, duration: real, t: real)
    | PlanLand(pos: Vec, yaw: real, height: real, targetYaw: real, duration: real, t: real)
    | PlanStop
    | PlanGoTo(relative: bool, goal: Vec, goalYaw: real, duration: real, t: real)
    | PlanStartTrajectory(traj: Traj, reverse: bool)

  /** The planner's state is its command history since `plan_init`: any
      deterministic planner is a function of that history and the time. */
  type Planner = seq<PlanCmd>

  /** The x-axis mode of a firmware `setpoint_t` (`modeDisable` is the zero default). */
  datatype AxisMode = ModeDisable | ModeAbs | ModeVelocity

  /** The part of a firmware `setpoint_t` the collision-avoidance step reads and writes. */
  datatype Setpoint = Setpoint(modeX: AxisMode, position: Vec, velocity: Vec)

  /** A freshly constructed `setpoint_t()`. */
  const EmptySetpoint := Setpoint(ModeDisable, Zero, Zero)

  /** The firmware `state_t` handed to collision avoidance: position and velocity only. */
  datatype CmdState = CmdState(position: Vec, velocity: Vec)

  /** `collision_avoidance_params_t`; `None` bounds stand for the infinite default box. */
  datatype CaParams = CaParams(
    ellipsoidRadii: Vec,
    bboxMin: Option<Vec>,
    bboxMax: Option<Vec>,
    horizonSecs: real,
    maxSpeed: real,
    sidestepThreshold: real,
    voronoiProjectionTolerance: real,
    voronoiProjectionMaxIters: nat)

  /** `collision_avoidance_state_t`; `None` stands for the NaN "no feasible position yet". */
  datatype CaState = CaState(lastFeasibleSetPosition: Option<Vec>)

  /** What `collisionAvoidanceUpdateSetpointWrap` leaves behind: the setpoint
      it rewrote in place and the updated opaque state. */
  datatype Avoided = Avoided(setpoint: Setpoint, state: CaState)

  datatype Engine = Engine(
    currentGoal: (Planner, real) -> State,   // plan_current_goal
    eval: (Traj, real) -> State,             // piecewise_eval
    evalReversed: (Traj, real) -> State,     // piecewise_eval_reversed
    clampNorm: (Vec, MaxVel) -> Vec,         // vclampnorm
    avoid: (CaParams, CaState, seq<Vec>, Setpoint, CmdState) -> Avoided)

  /** `vclampnorm` never exceeds a non-negative cap, leaves vectors already
      within the cap alone, and is the identity for an infinite cap. */
  ghost predicate ClampSound(e: Engine)
  {
    && (forall v: Vec, m: real :: 0.0 <= m ==> NormSq(e.clampNorm(v, Cap(m))) <= m * m)
    && (forall v: Vec, m: real :: 0.0 <= m && NormSq(v) <= m * m ==> e.clampNorm(v, Cap(m)) == v)
    && (forall v: Vec :: e.clampNorm(v, Unbounded) == v)
  }

  /** Trajectory evaluation adds the trajectory's shift to the position of the
      unshifted trajectory, as `piecewise_eval` and its reversed form do. */
  ghost predicate ShiftEquivariant(e: Engine)
  {
    && (forall ps: seq<Piece>, tb: real, ts: real, s: Vec, t: real ::
          e.eval(Traj(ps, tb, ts, s), t).pos == Add(e.eval(Traj(ps, tb, ts, Zero), t).pos, s))
    && (forall ps: seq<Piece>, tb: real, ts: real, s: Vec, t: real ::
          e.evalReversed(Traj(ps, tb, ts, s), t).pos == Add(e.evalReversed(Traj(ps, tb, ts, Zero), t).pos, s))
  }
}

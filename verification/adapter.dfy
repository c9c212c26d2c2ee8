/** The collision-avoidance adapter (`collisionAvoidanceUpdateSetpoint`): it
    selects, by flight mode, which setpoint fields the firmware may treat as
    authoritative, hands them to the opaque firmware step together with the
    agent's front position and velocity and the other agents' positions, and
    turns the rewritten setpoint back into a full state. */
module Adapter {
  import opened Vectors
  import opened Firmware
  import opened Agents

  /** Modes in which the commanded position is meaningful to the firmware. */
  predicate PositionAuthoritative(mode: Mode)
  {
    mode == HighPoly || mode == LowFullState || mode == LowPosition
  }

  /** Modes in which the commanded velocity is meaningful to the firmware. */
  predicate VelocityAuthoritative(mode: Mode)
  {
    mode == HighPoly || mode == LowFullState || mode == LowVelocity
  }

  /** The firmware setpoint built for `mode`: authoritative fields copied from
      the commanded state, all others left at their zero defaults; IDLE sends
      the untouched empty setpoint. */
  function ModeSetpoint(mode: Mode, setState: State): (sp: Setpoint)
    ensures sp.position == (if PositionAuthoritative(mode) then setState.pos else Zero)
    ensures sp.velocity == (if VelocityAuthoritative(mode) then setState.vel else Zero)
    ensures sp.modeX == (if mode == Idle then ModeDisable else if mode == LowVelocity then ModeVelocity else ModeAbs)
    ensures mode == Idle <==> sp == EmptySetpoint
  {
    match mode
    case Idle => EmptySetpoint
    case HighPoly => Setpoint(ModeAbs, setState.pos, setState.vel)
    case LowFullState => Setpoint(ModeAbs, setState.pos, setState.vel)
    case LowPosition => EmptySetpoint.(modeX := ModeAbs, position := setState.pos)
    case LowVelocity => EmptySetpoint.(modeX := ModeVelocity, velocity := setState.vel)
  }

  /** The adjusted setpoint and the firmware's updated opaque state. */
  datatype Adjusted = Adjusted(setState: State, caState: CaState)

  /** One collision-avoidance step. Position and velocity come from the
      firmware; yaw and the yaw rate pass through from the commanded state;
      acceleration and the x/y angular rates are zero, as in a fresh
      `traj_eval_zero()`. */
  function UpdateSetpoint(params: CaParams, caState: CaState, mode: Mode, state: State, setState: State,
                          otherPositions: seq<Vec>, e: Engine): (r: Adjusted)
    ensures var out := e.avoid(params, caState, otherPositions, ModeSetpoint(mode, setState), CmdState(state.pos, state.vel));
      && r.setState.pos == out.setpoint.position
      && r.setState.vel == out.setpoint.velocity
      && r.caState == out.state
    ensures r.setState.yaw == setState.yaw && r.setState.omega == Vec(0.0, 0.0, setState.omega.z)
    ensures r.setState.acc == Zero
  {
    var cmdState := CmdState(state.pos, state.vel);
    var out := e.avoid(params, caState, otherPositions, ModeSetpoint(mode, setState), cmdState);
    Adjusted(ZeroState.(pos := out.setpoint.position, vel := out.setpoint.velocity,
                        yaw := setState.yaw, omega := Vec(0.0, 0.0, setState.omega.z)),
             out.state)
  }

  /** When the firmware leaves the setpoint as it was (no conflict to resolve),
      the adjusted state carries exactly the mode's authoritative fields of the
      commanded state and zeros elsewhere. */
  lemma UnadjustedSetpointKeepsAuthoritativeFields(params: CaParams, caState: CaState, mode: Mode, state: State,
                                                   setState: State, otherPositions: seq<Vec>, e: Engine)
    requires var sp := ModeSetpoint(mode, setState);
      e.avoid(params, caState, otherPositions, sp, CmdState(state.pos, state.vel)).setpoint == sp
    ensures var r := UpdateSetpoint(params, caState, mode, state, setState, otherPositions, e);
      && r.setState.pos == (if PositionAuthoritative(mode) then setState.pos else Zero)
      && r.setState.vel == (if VelocityAuthoritative(mode) then setState.vel else Zero)
      && r.setState.yaw == setState.yaw
  {
  }
}

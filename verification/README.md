# crazyflieSim in Dafny

A model of the simulation core of Crazyswarm's Python front end
(`crazyflieSim.py`). The model covers the following:

- **The clock (`TimeHelper`).** It holds simulated time, the fixed tick `dt`
  and the sleep residual. `step` integrates every agent and then flips every
  agent. `sleep` turns a duration into whole ticks and carries the remainder
  forward. `sleepForRate` sleeps for one period.
- **The agent (`Crazyflie`).** It has an id, a 64-bit group mask and a flight
  mode (IDLE, HIGH_POLY, LOW_FULLSTATE, LOW_POSITION, LOW_VELOCITY). It also
  has the planner's command history, its uploaded trajectories, the
  commanded setpoint, and a double-buffered state: the *front* buffer
  everybody observes and the *back* buffer that `integrate` writes.
- **Agent commands.** The high-level commands are `takeoff`, `land`, `stop`,
  `goTo`, `uploadTrajectory` and `startTrajectory`. All of them except
  `uploadTrajectory` are filtered by `_isGroup`. The low-level commands are `cmdFullState`, `cmdPosition`,
  `cmdVelocityWorld` and `cmdVel`. Collision avoidance can be switched on and
  off.
- **`integrate` and `flip`.** This is the kinematic step: finite-difference
  or commanded velocity, the speed clamp, the disturbance, the position
  update and the per-mode yaw rules.
- **The collision-avoidance adapter.** It chooses, by flight mode, which
  setpoint fields the firmware sees. It hands them to the firmware and turns
  the result back into a state.
- **The server (`CrazyflieServer`).** It builds one agent per configured
  vehicle and keeps an id index. It fans each high-level command out to all
  agents in list order.

The flight-control firmware is not modelled. That covers the polynomial
planner, trajectory evaluation, `vclampnorm` and the Voronoi collision
avoidance. The model reaches them through an `Engine` value whose fields are
functions. Two ghost predicates state the facts about them that some lemmas
assume:
- `ClampSound`: the clamp respects its cap.
- `ShiftEquivariant`: evaluation adds the trajectory's shift.

The planner's state is the history of commands it has received. The model
assumes that `plan_current_goal` is a pure query of that history and the
time, so a tick never changes the planner.

Python raises exceptions, sometimes after it has already changed an object.
The model writes these results as `Outcome(value, raised)`:
- `startTrajectory` sets HIGH_POLY before it looks the id up.
- `sleep` updates the residual before its assertion.
- The server's loop has already updated the agents before the one that
  raised.

The disturbance comes from `Env.normal(t, k)`. That is the normal draw agent
`k` receives in the tick that ends at time `t`.

Modules, one per component:
- `Vectors`: 3-vectors and the speed cap.
- `Outcomes`: options, exceptions, outcomes.
- `Firmware`: the firmware's types and the opaque engine.
- `Agents`: the agent and its commands.
- `Adapter`: the collision-avoidance setpoint adapter.
- `Integrator`: `integrate` and `flip`.
- `Clock`: `TimeHelper`.
- `Swarm`: `CrazyflieServer`.

Three behaviours of the code are easy to misread, and the model keeps them
as written:

- **LOW_VELOCITY yaw.** The code integrates yaw as `self.backState.yaw +=
  time * self.setState.omega.z`, where `backState` was just copied from the
  setpoint. So the new yaw is the *setpoint* yaw plus one step of the yaw
  rate, not the front yaw plus one step. A constant yaw rate therefore does
  not accumulate yaw from tick to tick. `Integrator.YawRules` and
  `Integrator.VelocityYawIgnoresFrontYaw` state this.
- **IDLE.** `integrate` returns early in IDLE without touching the back
  buffer, but `flip` still swaps. An idle agent therefore keeps its state only
  while both buffers agree, as they do after construction
  (`Clock.IdleWithEqualBuffersStaysPut`). After a flight, a stopped agent
  alternates between its last two committed states
  (`Integrator.IdleTickSwapsBuffers`, `Integrator.IdleAgentCanMove`).
- **The yaw rate under collision avoidance.** Only the z component of the
  commanded angular rate passes through the adapter. The x and y components
  come back as zero (`Adapter.UpdateSetpoint`).

## Model

Paths are relative to the repository root; `crazyflieSim.py` below is
`ros_ws/src/crazyswarm/scripts/pycrazyswarm/crazyflieSim.py`.

| member | source | states |
|---|---|---|
| Clock.NewTimeHelper | ros_ws/src/crazyswarm/scripts/pycrazyswarm/crazyflieSim.py:28-36 | a new clock starts at time 0 with no residual and no agents, and keeps the given tick, disturbance size and speed cap |
| Clock.Tick | ros_ws/src/crazyswarm/scripts/pycrazyswarm/crazyflieSim.py:46-51 | the reference tick: time advances by the duration; every agent becomes the flip of its integration against the front states all agents had before the tick; the collision-avoidance links stay inside the list; a zero duration is admitted while no agent is in a position mode |
| Clock.IntegrateInOrder | ros_ws/src/crazyswarm/scripts/pycrazyswarm/crazyflieSim.py:48-49 | integrating agents one after another never changes any front state, so later agents see what earlier ones saw |
| Clock.InOrderIntegratesVisited | ros_ws/src/crazyswarm/scripts/pycrazyswarm/crazyflieSim.py:48-49 | visiting distinct indices integrates exactly the visited agents, each as if it had read the original front states, and leaves the rest alone |
| Clock.StepOrderIndependent | ros_ws/src/crazyswarm/scripts/pycrazyswarm/crazyflieSim.py:187-191 | double buffering works: integrating the agents in any order and then flipping all of them gives the simultaneous tick |
| Clock.StepInOrder | ros_ws/src/crazyswarm/scripts/pycrazyswarm/crazyflieSim.py:46-51 | `step` with the agents integrated in any order: only time (advanced by the duration) and the agents change, the count is kept, and after the flips every back buffer holds the agent's pre-step front state |
| Clock.ListOrder | ros_ws/src/crazyswarm/scripts/pycrazyswarm/crazyflieSim.py:48 | the list order visits every agent exactly once |
| Clock.Step | ros_ws/src/crazyswarm/scripts/pycrazyswarm/crazyflieSim.py:46-51 | `step` (list-order integrate loop, then flips) equals the simultaneous reference tick, for any duration the tick admits |
| Clock.Ticks | ros_ws/src/crazyswarm/scripts/pycrazyswarm/crazyflieSim.py:61-65 | running n ticks changes only time and the agents, keeps the agent count and the links, and shows the sinks exactly n frames |
| Clock.TicksShowEachTick | ros_ws/src/crazyswarm/scripts/pycrazyswarm/crazyflieSim.py:61-65 | before tick j of a run the sinks receive the time j ticks in and the front states the first j ticks left behind |
| Clock.TicksStepLast | ros_ws/src/crazyswarm/scripts/pycrazyswarm/crazyflieSim.py:61-65 | n + 1 ticks are n ticks followed by one more reference tick of length dt, so a run is exactly n calls of `step(dt)` |
| Clock.TicksAdvanceTime | ros_ws/src/crazyswarm/scripts/pycrazyswarm/crazyflieSim.py:61-65 | n ticks advance time by exactly n times dt |
| Clock.TicksCompose | ros_ws/src/crazyswarm/scripts/pycrazyswarm/crazyflieSim.py:61-65 | n1 ticks followed by n2 ticks are n1 + n2 ticks, and the sinks see both runs' frames in order |
| Clock.TicksIgnoreResidual | ros_ws/src/crazyswarm/scripts/pycrazyswarm/crazyflieSim.py:61-65 | ticking neither reads nor writes the sleep residual |
| Clock.NewResidualBounds | ros_ws/src/crazyswarm/scripts/pycrazyswarm/crazyflieSim.py:57-58 | after taking out floor((duration + residual) / dt) ticks, the residual lies in [0, dt) for positive dt and in (dt, 0] for negative dt |
| Clock.Sleep | ros_ws/src/crazyswarm/scripts/pycrazyswarm/crazyflieSim.py:55-65 | dt = 0 raises a division error with nothing changed; dt < 0 updates the residual, then fails the residual assertion with nothing else changed and no tick run; dt > 0 never raises and leaves the residual in [0, dt) |
| Clock.SleepAssertion | ros_ws/src/crazyswarm/scripts/pycrazyswarm/crazyflieSim.py:59 | the residual assertion fires exactly when dt is negative |
| Clock.SleepRuns | ros_ws/src/crazyswarm/scripts/pycrazyswarm/crazyflieSim.py:57-65 | for a non-negative total, `sleep` runs floor((duration + residual) / dt) ticks from the clock with the residual already updated |
| Clock.SleepQuantizes | ros_ws/src/crazyswarm/scripts/pycrazyswarm/crazyflieSim.py:57-65 | `sleep` runs max(0, floor((duration + residual) / dt)) ticks, shows that many frames, advances time by that many dt and keeps the remainder in the residual |
| Clock.SleepConservesTime | ros_ws/src/crazyswarm/scripts/pycrazyswarm/crazyflieSim.py:30-33 | for a non-negative total no time is lost: time plus residual grows by exactly the slept duration |
| Clock.CarryArithmetic | ros_ws/src/crazyswarm/scripts/pycrazyswarm/crazyflieSim.py:57-58 | the tick count of a second sleep after the first's residual is the combined count minus the first's, and both end on the same residual |
| Clock.CarryCounts | ros_ws/src/crazyswarm/scripts/pycrazyswarm/crazyflieSim.py:57-58 | the same carrying fact stated on clocks: the clock after `sleep(a)` ticks `sleep(b)` as the rest of `sleep(a + b)` |
| Clock.SleepResidualCarries | ros_ws/src/crazyswarm/scripts/pycrazyswarm/crazyflieSim.py:30-33 | `sleep(a); sleep(b)` ends in the same clock, and shows the same frames, as `sleep(a + b)` |
| Clock.SleepQuantizationExample | ros_ws/src/crazyswarm/scripts/pycrazyswarm/crazyflieSim.py:55-65 | with dt = 0.01, two sleeps of 0.025 s run 2 + 3 ticks, leaving residuals 0.005 then 0, exactly like one sleep of 0.05 s |
| Clock.SleepForRate | ros_ws/src/crazyswarm/scripts/pycrazyswarm/crazyflieSim.py:68-70 | a zero rate raises a division error with nothing changed; otherwise it is a sleep of 1/rate |
| Clock.IdleWithEqualBuffersStaysPut | ros_ws/src/crazyswarm/scripts/pycrazyswarm/crazyflieSim.py:393-394 | an idle agent whose two buffers agree keeps its committed state, still idle, through any number of ticks |
| Agents.NewAgent | ros_ws/src/crazyswarm/scripts/pycrazyswarm/crazyflieSim.py:163-197 | a new agent has the given id and initial position, is idle in group mask 0, sits at the initial position with zero velocity, acceleration, yaw and angular rate, has a zero setpoint, equal buffers, no plan, no trajectories and no collision avoidance |
| Agents.SetGroupMask | ros_ws/src/crazyswarm/scripts/pycrazyswarm/crazyflieSim.py:199-200 | only the group mask changes |
| Agents.IsGroupMeansSharedGroup | ros_ws/src/crazyswarm/scripts/pycrazyswarm/crazyflieSim.py:434-435 | `IsGroup`, the `_isGroup` test, accepts a command exactly when the selector is 0 or the agent's mask and the selector have a common set bit |
| Agents.SetBit | ros_ws/src/crazyswarm/scripts/pycrazyswarm/crazyflieSim.py:435 | a non-zero mask, as the `& ... > 0` test finds, has a set bit among bits 0..63 |
| Agents.SetBitFrom | ros_ws/src/crazyswarm/scripts/pycrazyswarm/crazyflieSim.py:435 | when the mask has a set bit at or above bit j (`x >> j` is non-zero), the upward search finds a set bit at or above j |
| Agents.Takeoff | ros_ws/src/crazyswarm/scripts/pycrazyswarm/crazyflieSim.py:226-231 | an accepted takeoff switches to HIGH_POLY and plans a takeoff from the front position and yaw to the height, target yaw 0, at the current time; nothing else changes; a filtered-out agent is untouched |
| Agents.Land | ros_ws/src/crazyswarm/scripts/pycrazyswarm/crazyflieSim.py:233-238 | as takeoff, planning a landing |
| Agents.Stop | ros_ws/src/crazyswarm/scripts/pycrazyswarm/crazyflieSim.py:240-243 | an accepted stop goes IDLE and stops the planner; a filtered-out agent is untouched |
| Agents.GoTo | ros_ws/src/crazyswarm/scripts/pycrazyswarm/crazyflieSim.py:245-251 | raises exactly when the agent accepts the command but is not in HIGH_POLY, and then changes nothing; an accepted goTo in HIGH_POLY plans the move at the current time |
| Agents.ToPiece | ros_ws/src/crazyswarm/scripts/pycrazyswarm/crazyflieSim.py:260-267 | a stored piece keeps the duration and exactly the first eight coefficients of x, y, z and yaw, row by row |
| Agents.UploadTrajectory | ros_ws/src/crazyswarm/scripts/pycrazyswarm/crazyflieSim.py:253-268 | succeeds iff every polynomial has eight coefficients per axis; on success only that id's entry is (re)placed, with start 0, time scale 1, no shift and one piece per polynomial; otherwise it raises with nothing stored |
| Agents.StartTrajectory | ros_ws/src/crazyswarm/scripts/pycrazyswarm/crazyflieSim.py:270-285 | an accepted start enters HIGH_POLY even when it then raises for an unknown id (and changes nothing else); a known id gets start time now and the time scale, a zero shift unless relative, and with relative the shift that moves the re-timed trajectory's position at the start time onto the agent's front position; it is handed to the planner; a filtered-out agent is untouched |
| Agents.RelativeStartAnchorsAtPosition | ros_ws/src/crazyswarm/scripts/pycrazyswarm/crazyflieSim.py:276-282 | a relative start places the trajectory (forward or reversed) at the agent's current position at the start time |
| Agents.RelativeStartPreservesShape | ros_ws/src/crazyswarm/scripts/pycrazyswarm/crazyflieSim.py:276-284 | a relative start stores the uploaded trajectory re-timed to start now at the given time scale, changed only in its shift, and the shift moves it rigidly: displacements between any two times are those of the unshifted re-timed trajectory |
| Agents.CmdFullState | ros_ws/src/crazyswarm/scripts/pycrazyswarm/crazyflieSim.py:344-350 | LOW_FULLSTATE with every setpoint field replaced, whatever the group mask |
| Agents.CmdPosition | ros_ws/src/crazyswarm/scripts/pycrazyswarm/crazyflieSim.py:352-356 | LOW_POSITION; only setpoint position and yaw change |
| Agents.CmdVelocityWorld | ros_ws/src/crazyswarm/scripts/pycrazyswarm/crazyflieSim.py:358-362 | LOW_VELOCITY; only setpoint velocity and angular rate (0, 0, yaw rate) change |
| Agents.CmdVel | ros_ws/src/crazyswarm/scripts/pycrazyswarm/crazyflieSim.py:364-371 | the command's acceleration becomes a LOW_VELOCITY command at front velocity plus dt times that acceleration |
| Agents.EnableCollisionAvoidance | ros_ws/src/crazyswarm/scripts/pycrazyswarm/crazyflieSim.py:202-219 | collision avoidance is on, observing exactly the listed agents other than itself; the parameters hold the given radii, box, horizon and speed, with sidestep threshold 0.25, projection tolerance 1e-5 and 100 projection iterations; no feasible position yet; nothing else changes |
| Agents.Exclude | ros_ws/src/crazyswarm/scripts/pycrazyswarm/crazyflieSim.py:203 | the neighbour list holds the given agents other than the agent itself, each as often as it was given, and is the given list when the agent is not in it |
| Agents.ExcludeAppend | ros_ws/src/crazyswarm/scripts/pycrazyswarm/crazyflieSim.py:203 | filtering a concatenation filters each part, so the list comprehension works element by element in order |
| Agents.DisableCollisionAvoidance | ros_ws/src/crazyswarm/scripts/pycrazyswarm/crazyflieSim.py:221-224 | collision avoidance is off; nothing else changes |
| Adapter.ModeSetpoint | ros_ws/src/crazyswarm/scripts/pycrazyswarm/crazyflieSim.py:121-135 | the firmware sees the position only in HIGH_POLY, LOW_FULLSTATE and LOW_POSITION, the velocity only in HIGH_POLY, LOW_FULLSTATE and LOW_VELOCITY, velocity mode only in LOW_VELOCITY, and an empty setpoint exactly in IDLE |
| Adapter.UpdateSetpoint | ros_ws/src/crazyswarm/scripts/pycrazyswarm/crazyflieSim.py:113-149 | position and velocity are the firmware's answer for the mode's setpoint and the agent's front position and velocity; yaw and the z yaw rate pass through; acceleration is zero; the firmware's new opaque state is kept |
| Adapter.UnadjustedSetpointKeepsAuthoritativeFields | ros_ws/src/crazyswarm/scripts/pycrazyswarm/crazyflieSim.py:121-149 | if the firmware leaves the setpoint alone, the result carries the mode's authoritative fields of the commanded state and zeros elsewhere |
| Integrator.Prepare | ros_ws/src/crazyswarm/scripts/pycrazyswarm/crazyflieSim.py:378-391 | the setpoint of a tick is the `Candidate`: the planner goal in HIGH_POLY, otherwise the commanded setpoint; with collision avoidance on, setpoint and avoidance state are exactly what the adapter returns for the mode, the front state and the neighbours; yaw and z yaw rate are never altered |
| Integrator.Integrate | ros_ws/src/crazyswarm/scripts/pycrazyswarm/crazyflieSim.py:377-426 | only setpoint, avoidance state and back buffer change; IDLE leaves the back buffer; otherwise the velocity is the clamped mode velocity plus the scaled disturbance, the position is front plus dt times that velocity, acceleration is the setpoint's, and outside LOW_POSITION the whole angular rate is the setpoint's |
| Integrator.Commanded | ros_ws/src/crazyswarm/scripts/pycrazyswarm/crazyflieSim.py:396-400 | the uncapped mode velocity: the setpoint velocity in LOW_VELOCITY; in the position modes the velocity that covers the distance from the front position to the setpoint position in one tick |
| Integrator.FixYaw | ros_ws/src/crazyswarm/scripts/pycrazyswarm/crazyflieSim.py:417-423 | the yaw fix-up changes only yaw and angular rate: LOW_POSITION takes the setpoint yaw with a z rate that turns the front yaw into it in one tick and zero x and y rates; LOW_VELOCITY adds one tick of the commanded z rate to the copied yaw; the other modes change nothing |
| Integrator.Flip | ros_ws/src/crazyswarm/scripts/pycrazyswarm/crazyflieSim.py:428-431 | the buffers are exchanged and nothing else changes |
| Integrator.PositionModesReachSetpoint | ros_ws/src/crazyswarm/scripts/pycrazyswarm/crazyflieSim.py:396-416 | in a position mode, without avoidance or disturbance and within the speed cap, one tick lands exactly on the setpoint position |
| Integrator.VelocityModeUsesSetpointVelocity | ros_ws/src/crazyswarm/scripts/pycrazyswarm/crazyflieSim.py:398-415 | in LOW_VELOCITY, without avoidance or disturbance and within the cap, the agent moves with the setpoint velocity |
| Integrator.ClampedVelocityWithinCap | ros_ws/src/crazyswarm/scripts/pycrazyswarm/crazyflieSim.py:403-409 | without disturbance, the committed velocity of a flying agent respects the speed cap |
| Integrator.YawRules | ros_ws/src/crazyswarm/scripts/pycrazyswarm/crazyflieSim.py:413-426 | LOW_POSITION commits the setpoint yaw with the finite-difference yaw rate from the front yaw; LOW_VELOCITY commits setpoint yaw plus dt times the commanded rate; HIGH_POLY and LOW_FULLSTATE copy the setpoint's yaw and rate; outside LOW_POSITION the whole angular rate vector is the setpoint's |
| Integrator.VelocityYawIgnoresFrontYaw | ros_ws/src/crazyswarm/scripts/pycrazyswarm/crazyflieSim.py:421-423 | in LOW_VELOCITY the committed yaw does not depend on the front yaw |
| Integrator.IdleTickSwapsBuffers | ros_ws/src/crazyswarm/scripts/pycrazyswarm/crazyflieSim.py:393-394 | an idle tick shows the old back state and two idle ticks bring back the original front state |
| Integrator.IdleAgentCanMove | ros_ws/src/crazyswarm/scripts/pycrazyswarm/crazyflieSim.py:393-394 | an idle agent with differing buffers does move on the next tick |
| Integrator.CmdPositionSteers | ros_ws/src/crazyswarm/scripts/pycrazyswarm/crazyflieSim.py:352-355 | after `cmdPosition`, one tick (no avoidance, no disturbance, within the cap) commits the commanded position and yaw |
| Integrator.CmdVelocitySteers | ros_ws/src/crazyswarm/scripts/pycrazyswarm/crazyflieSim.py:358-361 | after `cmdVelocityWorld`, one tick moves with the commanded velocity and yaw rate |
| Integrator.StopHaltsIntegration | ros_ws/src/crazyswarm/scripts/pycrazyswarm/crazyflieSim.py:240-243 | after an accepted stop, ticks no longer write the back buffer |
| Swarm.IndexIds | ros_ws/src/crazyswarm/scripts/pycrazyswarm/crazyflieSim.py:455-461 | the id index holds exactly the configured ids, each pointing at its last configuration entry |
| Swarm.IndexIdsLastWins | ros_ws/src/crazyswarm/scripts/pycrazyswarm/crazyflieSim.py:461 | an entry that no later entry repeats is the one its id maps to |
| Swarm.NewServer | ros_ws/src/crazyswarm/scripts/pycrazyswarm/crazyflieSim.py:454-464 | one fresh agent per configuration entry, in order; the clock now ticks exactly these agents and is otherwise unchanged; the index is consistent |
| Swarm.ById | ros_ws/src/crazyswarm/scripts/pycrazyswarm/crazyflieSim.py:461 | a lookup finds an agent iff some agent has that id, and the agent found has it |
| Swarm.NewServerLastIdWins | ros_ws/src/crazyswarm/scripts/pycrazyswarm/crazyflieSim.py:455-461 | looking up a configured id finds the fresh agent of its last entry |
| Swarm.FirstWhere | ros_ws/src/crazyswarm/scripts/pycrazyswarm/crazyflieSim.py:470-487 | the index of the first agent a test flags, or the list length |
| Swarm.FanOut | ros_ws/src/crazyswarm/scripts/pycrazyswarm/crazyflieSim.py:470-487 | the loop over agents stops at the first that raises and re-raises its error; agents up to it have run the command; later agents are untouched |
| Swarm.FanOutStopsAt | ros_ws/src/crazyswarm/scripts/pycrazyswarm/crazyflieSim.py:470-487 | the fan-out succeeds iff no agent is flagged, when the flags mark exactly the raising agents |
| Swarm.Takeoff | ros_ws/src/crazyswarm/scripts/pycrazyswarm/crazyflieSim.py:469-471 | every agent the selector reaches plans a takeoff from its own position at the clock's time; the others, the index and the clock are unchanged; links stay inside the list and a consistent id index stays consistent |
| Swarm.Land | ros_ws/src/crazyswarm/scripts/pycrazyswarm/crazyflieSim.py:473-475 | as takeoff, planning landings |
| Swarm.Stop | ros_ws/src/crazyswarm/scripts/pycrazyswarm/crazyflieSim.py:477-479 | every agent the selector reaches goes idle; the others are unchanged; links stay inside the list and a consistent id index stays consistent |
| Swarm.GoToFanOutFails | ros_ws/src/crazyswarm/scripts/pycrazyswarm/crazyflieSim.py:481-483 | the goTo loop over a list fails iff some reached agent is outside HIGH_POLY, and then with the low-level-mode error |
| Swarm.GoToFanOutStops | ros_ws/src/crazyswarm/scripts/pycrazyswarm/crazyflieSim.py:481-483 | the goTo loop runs each agent's goTo up to the first reached agent outside HIGH_POLY and leaves that agent and the rest as they were |
| Swarm.GoToFanOutKeepsCollisions | ros_ws/src/crazyswarm/scripts/pycrazyswarm/crazyflieSim.py:481-483 | the goTo loop never touches collision-avoidance links or ids |
| Swarm.GoTo | ros_ws/src/crazyswarm/scripts/pycrazyswarm/crazyflieSim.py:481-483 | raises iff some reached agent is not in HIGH_POLY, and then with the low-level-mode error; only the agent list changes, its length, its links and a consistent id index are kept |
| Swarm.GoToStopsAtFirstRejecter | ros_ws/src/crazyswarm/scripts/pycrazyswarm/crazyflieSim.py:481-483 | agents before the first reached agent outside HIGH_POLY have run their relative goTo at the clock's time; it and all later agents are unchanged |
| Swarm.StartFanOutFails | ros_ws/src/crazyswarm/scripts/pycrazyswarm/crazyflieSim.py:485-487 | the start loop over a list fails iff some reached agent lacks the trajectory, and then with that id's unknown-trajectory error |
| Swarm.StartFanOutStops | ros_ws/src/crazyswarm/scripts/pycrazyswarm/crazyflieSim.py:485-487 | the start loop starts the trajectory on each agent up to the first reached agent lacking it, leaves that agent in HIGH_POLY and otherwise as it was, and the rest untouched |
| Swarm.StartFanOutKeepsCollisions | ros_ws/src/crazyswarm/scripts/pycrazyswarm/crazyflieSim.py:485-487 | starting trajectories never touches collision-avoidance links or ids |
| Swarm.StartTrajectory | ros_ws/src/crazyswarm/scripts/pycrazyswarm/crazyflieSim.py:485-487 | raises iff some reached agent lacks the trajectory, and then with its unknown-trajectory error; only the agent list changes, its length, its links and a consistent id index are kept |
| Swarm.StartTrajectoryStopsAtFirstRejecter | ros_ws/src/crazyswarm/scripts/pycrazyswarm/crazyflieSim.py:485-487 | agents before the first reached agent lacking the trajectory have started it at the clock's time; that agent is in HIGH_POLY and otherwise unchanged; later agents are unchanged |
| Swarm.EnableCollisionAvoidance | ros_ws/src/crazyswarm/scripts/pycrazyswarm/crazyflieSim.py:202-219 | the agent at list position k enables collision avoidance with itself as `self`, so it never observes itself and observes exactly the other listed agents; every other agent, the index and the clock are unchanged; links stay inside the list and a consistent id index stays consistent |
| Swarm.DisableCollisionAvoidance | ros_ws/src/crazyswarm/scripts/pycrazyswarm/crazyflieSim.py:221-224 | the agent at list position k switches collision avoidance off; every other agent, the index and the clock are unchanged; links stay inside the list and a consistent id index stays consistent |
| Swarm.LinkedReplaceOne | ros_ws/src/crazyswarm/scripts/pycrazyswarm/crazyflieSim.py:202-203 | replacing one agent by one whose neighbours are in the list keeps every link inside the list |
| Swarm.BroadcastTakeoffReachesAll | ros_ws/src/crazyswarm/scripts/pycrazyswarm/crazyflieSim.py:469-471 | with the default selector 0, every agent takes off |
| Swarm.GoToRejectedByFirstChangesNothing | ros_ws/src/crazyswarm/scripts/pycrazyswarm/crazyflieSim.py:481-483 | when the first agent rejects a goTo, the server raises and is left exactly as it was |
| Swarm.GoToBeforeTakeoffRaises | ros_ws/src/crazyswarm/scripts/pycrazyswarm/crazyflieSim.py:481-483 | on a fresh non-empty swarm a goTo raises and changes nothing |

## Left out

- Visualization and CSV output are left out: the visualizer backends and `output.Output`. Each tick instead records a `Frame` (time and front states), which is what those sinks receive.
- YAML loading and parsing are left out. The server takes the already-parsed list of `(id, initialPosition)` entries.
- The firmware's algorithms are opaque functions: the planner, `piecewise_eval`, `vclampnorm` and collision avoidance. The facts some lemmas need are stated as ghost predicates on them.
- Floating point is not modelled. That covers the `-1e-9` tolerance (kept literally in the residual assertion, but unreachable with exact reals), float32 neighbour positions, and NaN. With real arithmetic, a residual never drifts below 0.
- Integrator.Integrate: requires a non-zero tick only in the position modes (HIGH_POLY, LOW_FULLSTATE, LOW_POSITION). With a zero tick those modes divide the position error by zero (line 397), which gives an infinite or NaN vector velocity, and LOW_POSITION then raises `ZeroDivisionError` on the yaw rate (line 418). Neither outcome is representable with exact reals. IDLE and LOW_VELOCITY never divide and are modelled for every tick length.
- Clock.Tick, Clock.Step: require a non-zero duration only while some agent is in a position mode, for the same reason as `Integrator.Integrate`. `sleep` reaches them only with `dt`, and it has already raised for a zero `dt` (line 57).
- Clock.Ticks: requires a non-zero `dt`, which `sleep` guarantees by raising first (line 57).
- Collision-avoidance neighbours are list positions in the server's agent list, not object references. The source accepts any collection of agents, including agents of another swarm. The model admits only neighbours of the same swarm: `Swarm.EnableCollisionAvoidance` requires the listed positions to be in the list, and the clock requires every link to stay inside it (`Clock.Linked`). `Agents.EnableCollisionAvoidance` takes the agent's own position as `self`; the swarm-level enable supplies it.
- The random number generator is replaced by a draw indexed by tick time and agent. The source draws from one global stream in list order. Exact order independence in the source therefore holds only with zero disturbance.
- `cmdVel`'s attitude-to-force physics (`rpy`, `rpyt2force`, gravity, mass) is left out: the command takes the resulting world acceleration.
- The no-op and diagnostic members carry no state to model: `cmdStop`, `notifySetpointsStop`, `getParam`/`setParam`/`setParams`, `emergency` and `isShutdown`. `setLEDColor` only records the LED colour `ledRGB`, which nothing in the core reads. `addObserver` is also left out: it appends to a list the constructor never creates.
- `plan_current_goal` is treated as a pure query of the command history and the time. Planner state changed inside that call is not modelled: `Integrator.Integrate` keeps the planner unchanged on every tick.
- `time()` has no row: it returns the clock's time, and the agents read that time as `now`.
- Group masks are 64-bit. Negative or wider Python integers are not modelled.
- An unknown flight mode cannot occur: modes are a closed datatype, so the `ValueError("Unknown flight mode.")` branches are absent.
- The planner keeps a reference to the started trajectory object. The model keeps a copy taken at start time. The two differ only if the same object is mutated afterwards, which another `startTrajectory` with the same id does, after handing the planner a new command anyway.
- `uploadTrajectory` ignores `pieceOffset`, and so does the model.
- `crazyfliesById` holds objects shared with the list. The model stores list positions instead.

/** The simulation clock (`TimeHelper`): simulated time, the fixed tick `dt`,
    the sleep residual, and the agents it ticks. A tick integrates every agent
    against the committed front states and only then flips them all. */
module Clock {
  import opened Vectors
  import opened Outcomes
  import opened Firmware
  import opened Agents
  import opened Integrator

  datatype TimeHelper = TimeHelper(
    t: real,
    dt: real,
    residual: real,
    disturbanceSize: real,
    maxVel: MaxVel,
    crazyflies: seq<Agent>)

  /** The opaque firmware and the disturbance source: `normal(t, k)` is the
      standard-normal draw agent `k` receives in the tick that ends at `t`. */
  datatype Env = Env(engine: Engine, normal: (real, nat) -> Vec)

  /** What a sink (visualizer, CSV writer) observes once per tick: the time
      and every agent's committed front state. */
  datatype Frame = Frame(t: real, states: seq<State>)

  datatype Slept = Slept(th: TimeHelper, frames: seq<Frame>)

  /** A new clock at time 0 with no residual and no agents yet. */
  function NewTimeHelper(dt: real, disturbanceSize: real, maxVel: MaxVel): (th: TimeHelper)
    ensures th.t == 0.0 && th.residual == 0.0 && th.crazyflies == []
    ensures th.dt == dt && th.disturbanceSize == disturbanceSize && th.maxVel == maxVel
  {
    TimeHelper(0.0, dt, 0.0, disturbanceSize, maxVel, [])
  }

  function Fronts(cfs: seq<Agent>): (fs: seq<State>)
    ensures |fs| == |cfs| && forall k :: 0 <= k < |cfs| ==> fs[k] == cfs[k].state
  {
    seq(|cfs|, k requires 0 <= k < |cfs| => cfs[k].state)
  }

  /** Every agent's collision-avoidance neighbours are agents of this list. */
  predicate Linked(cfs: seq<Agent>)
  {
    forall k, j :: 0 <= k < |cfs| && cfs[k].collision.Some? && 0 <= j < |cfs[k].collision.value.others| ==>
      cfs[k].collision.value.others[j] < |cfs|
  }

  /** The positions of `a`'s neighbours, read from the front states. */
  function OthersOf(a: Agent, fronts: seq<State>): seq<Vec>
    requires a.collision.Some? ==> forall j :: 0 <= j < |a.collision.value.others| ==> a.collision.value.others[j] < |fronts|
  {
    match a.collision
    case None => []
    case Some(c) => seq(|c.others|, j requires 0 <= j < |c.others| => fronts[c.others[j]].pos)
  }

  /** Every agent can integrate a step of `h`: a zero step is defined only
      while no agent is in a position mode. */
  predicate AllIntegrable(cfs: seq<Agent>, h: real)
  {
    forall k :: 0 <= k < |cfs| ==> Integrable(cfs[k], h)
  }

  /** Agent `k` of `cfs` integrates, reading the front states of `cfs`. */
  function IntegrateAt(cfs: seq<Agent>, k: nat, now: real, h: real, disturbanceSize: real, maxVel: MaxVel, env: Env): Agent
    requires k < |cfs| && Linked(cfs) && Integrable(cfs[k], h)
  {
    Integrate(cfs[k], now, h, disturbanceSize, env.normal(now, k), maxVel, OthersOf(cfs[k], Fronts(cfs)), env.engine)
  }

  /** The reference tick: all agents integrate against the same front states
      (as if simultaneously), then all flip. */
  function Tick(th: TimeHelper, duration: real, env: Env): (r: TimeHelper)
    requires AllIntegrable(th.crazyflies, duration) && Linked(th.crazyflies)
    ensures r == th.(t := th.t + duration, crazyflies := r.crazyflies)
    ensures |r.crazyflies| == |th.crazyflies| && Linked(r.crazyflies)
    ensures forall k :: 0 <= k < |th.crazyflies| ==>
      r.crazyflies[k] == Flip(IntegrateAt(th.crazyflies, k, th.t + duration, duration, th.disturbanceSize, th.maxVel, env))
  {
    var now := th.t + duration;
    var cfs := th.crazyflies;
    th.(t := now,
        crazyflies := seq(|cfs|, k requires 0 <= k < |cfs| =>
          Flip(IntegrateAt(cfs, k, now, duration, th.disturbanceSize, th.maxVel, env))))
  }

  /** Visiting order: a list of distinct agent indices covering all `n` agents. */
  predicate IsPermutation(order: seq<nat>, n: nat)
  {
    && |order| == n
    && (forall j :: 0 <= j < |order| ==> order[j] < n)
    && (forall i, j :: 0 <= i < j < |order| ==> order[i] != order[j])
    && (forall k :: 0 <= k < n ==> k in order)
  }

  /** The integrate loop of `step` as the source runs it: agents visited one
      at a time in `order`, each reading the list as it is at that moment. */
  function IntegrateInOrder(cfs: seq<Agent>, order: seq<nat>, now: real, h: real, disturbanceSize: real,
                            maxVel: MaxVel, env: Env): (r: seq<Agent>)
    requires Linked(cfs) && AllIntegrable(cfs, h)
    requires forall j :: 0 <= j < |order| ==> order[j] < |cfs|
    ensures |r| == |cfs| && Linked(r) && Fronts(r) == Fronts(cfs) && AllIntegrable(r, h)
    decreases |order|
  {
    if order == [] then cfs
    else
      var k := order[0];
      var cfs' := cfs[k := IntegrateAt(cfs, k, now, h, disturbanceSize, maxVel, env)];
      assert Fronts(cfs') == Fronts(cfs);
      IntegrateInOrder(cfs', order[1..], now, h, disturbanceSize, maxVel, env)
  }

  /** Visiting `order` once each integrates exactly those agents, each as if
      it had read the original front states. */
  lemma {:induction false} InOrderIntegratesVisited(cfs: seq<Agent>, order: seq<nat>, now: real, h: real,
                                                    disturbanceSize: real, maxVel: MaxVel, env: Env)
    requires Linked(cfs) && AllIntegrable(cfs, h)
    requires forall j :: 0 <= j < |order| ==> order[j] < |cfs|
    requires forall i, j :: 0 <= i < j < |order| ==> order[i] != order[j]
    ensures var r := IntegrateInOrder(cfs, order, now, h, disturbanceSize, maxVel, env);
      forall k :: 0 <= k < |cfs| ==>
        r[k] == (if k in order then IntegrateAt(cfs, k, now, h, disturbanceSize, maxVel, env) else cfs[k])
    decreases |order|
  {
    if order != [] {
      var k0 := order[0];
      var cfs' := cfs[k0 := IntegrateAt(cfs, k0, now, h, disturbanceSize, maxVel, env)];
      IntegrateAtKeepsOthers(cfs, k0, now, h, disturbanceSize, maxVel, env);
      InOrderIntegratesVisited(cfs', order[1..], now, h, disturbanceSize, maxVel, env);
      DistinctTail(order);
    }
  }

  /** Integrating one agent leaves the inputs of every other agent's
      integration as they were. */
  lemma IntegrateAtKeepsOthers(cfs: seq<Agent>, k0: nat, now: real, h: real,
                               disturbanceSize: real, maxVel: MaxVel, env: Env)
    requires k0 < |cfs| && Linked(cfs) && AllIntegrable(cfs, h)
    ensures var cfs' := cfs[k0 := IntegrateAt(cfs, k0, now, h, disturbanceSize, maxVel, env)];
      && Fronts(cfs') == Fronts(cfs) && Linked(cfs') && AllIntegrable(cfs', h)
      && forall k :: 0 <= k < |cfs| && k != k0 ==>
           IntegrateAt(cfs', k, now, h, disturbanceSize, maxVel, env) == IntegrateAt(cfs, k, now, h, disturbanceSize, maxVel, env)
  {
    var cfs' := cfs[k0 := IntegrateAt(cfs, k0, now, h, disturbanceSize, maxVel, env)];
    assert Fronts(cfs') == Fronts(cfs);
  }

  /** In a list without repeats the tail holds everything but the head. */
  lemma DistinctTail(order: seq<nat>)
    requires order != []
    requires forall i, j :: 0 <= i < j < |order| ==> order[i] != order[j]
    ensures forall k :: k in order[1..] <==> k in order && k != order[0]
  {
    forall k | k in order && k != order[0]
      ensures k in order[1..]
    {
      var j :| 0 <= j < |order| && order[j] == k;
      assert order[1..][j - 1] == k;
    }
  }

  /** `step(duration)` with the agents visited in `order`: advance time,
      integrate each agent in that order, then flip every agent. */
  function StepInOrder(th: TimeHelper, duration: real, env: Env, order: seq<nat>): (r: TimeHelper)
    requires AllIntegrable(th.crazyflies, duration) && Linked(th.crazyflies)
    requires forall j :: 0 <= j < |order| ==> order[j] < |th.crazyflies|
    ensures r == th.(t := th.t + duration, crazyflies := r.crazyflies)
    ensures |r.crazyflies| == |th.crazyflies|
    ensures forall k :: 0 <= k < |th.crazyflies| ==> r.crazyflies[k].backState == th.crazyflies[k].state
  {
    var now := th.t + duration;
    var cfs := IntegrateInOrder(th.crazyflies, order, now, duration, th.disturbanceSize, th.maxVel, env);
    assert forall k :: 0 <= k < |cfs| ==> cfs[k].state == Fronts(cfs)[k];
    th.(t := now, crazyflies := seq(|cfs|, k requires 0 <= k < |cfs| => Flip(cfs[k])))
  }

  /** Order independence: whatever order the agents are integrated in, the
      committed states after the flips are those of the simultaneous tick. */
  lemma StepOrderIndependent(th: TimeHelper, duration: real, env: Env, order: seq<nat>)
    requires AllIntegrable(th.crazyflies, duration) && Linked(th.crazyflies)
    requires IsPermutation(order, |th.crazyflies|)
    ensures StepInOrder(th, duration, env, order) == Tick(th, duration, env)
  {
    InOrderIntegratesVisited(th.crazyflies, order, th.t + duration, duration, th.disturbanceSize, th.maxVel, env);
  }

  /** The list order `0, 1, ..., n-1`. */
  function ListOrder(n: nat): (order: seq<nat>)
    ensures IsPermutation(order, n)
  {
    var order := seq(n, i requires 0 <= i < n => i as nat);
    assert forall k :: 0 <= k < n ==> order[k] == k && k in order;
    order
  }

  /** `step(duration)`: the source visits the agents in list order; by order
      independence that is the simultaneous tick. */
  function Step(th: TimeHelper, duration: real, env: Env): (r: TimeHelper)
    requires AllIntegrable(th.crazyflies, duration) && Linked(th.crazyflies)
    ensures r == Tick(th, duration, env)
  {
    StepOrderIndependent(th, duration, env, ListOrder(|th.crazyflies|));
    StepInOrder(th, duration, env, ListOrder(|th.crazyflies|))
  }

  // ------------------------------------------------------------------ sleep

  /** `n` ticks of `dt`, each preceded by the sinks observing the committed
      state, as in the body of `sleep`. Each tick is written as `Tick`, which
      `Step` (the list-order loop of `step`) equals by its contract. */
  function Ticks(th: TimeHelper, n: nat, env: Env): (r: Slept)
    requires th.dt != 0.0 && Linked(th.crazyflies)
    ensures r.th == th.(t := r.th.t, crazyflies := r.th.crazyflies)
    ensures |r.th.crazyflies| == |th.crazyflies| && Linked(r.th.crazyflies)
    ensures |r.frames| == n
    decreases n
  {
    if n == 0 then Slept(th, [])
    else
      var rest := Ticks(Tick(th, th.dt, env), n - 1, env);
      Slept(rest.th, [Frame(th.t, Fronts(th.crazyflies))] + rest.frames)
  }

  /** A run of `n + 1` ticks is a run of `n` ticks followed by one more
      `step(dt)`. */
  lemma TicksStepLast(th: TimeHelper, n: nat, env: Env)
    requires th.dt != 0.0 && Linked(th.crazyflies)
    ensures Ticks(th, n + 1, env).th == Tick(Ticks(th, n, env).th, th.dt, env)
  {
    TicksCompose(th, n, 1, env);
  }

  /** Each tick advances time by exactly `dt`. */
  lemma {:induction false} TicksAdvanceTime(th: TimeHelper, n: nat, env: Env)
    requires th.dt != 0.0 && Linked(th.crazyflies)
    ensures Ticks(th, n, env).th.t == th.t + n as real * th.dt
    decreases n
  {
    if n > 0 {
      TicksAdvanceTime(Tick(th, th.dt, env), n - 1, env);
      AddStep(th.t, th.dt, n - 1);
    }
  }

  /** The number of whole ticks in `duration` plus the carried residual. */
  function TickCount(th: TimeHelper, duration: real): int
    requires th.dt != 0.0
  {
    ((duration + th.residual) / th.dt).Floor
  }

  /** The residual after `sleep(duration)` has accounted for its whole ticks. */
  function NewResidual(th: TimeHelper, duration: real): real
    requires th.dt != 0.0
  {
    th.residual + (duration - th.dt * TickCount(th, duration) as real)
  }

  /** The new residual lies in `[0, dt)` for a positive `dt` and in
      `(dt, 0]` for a negative one, whatever the old residual was. */
  lemma NewResidualBounds(th: TimeHelper, duration: real)
    requires th.dt != 0.0
    ensures th.dt > 0.0 ==> 0.0 <= NewResidual(th, duration) < th.dt
    ensures th.dt < 0.0 ==> th.dt < NewResidual(th, duration) <= 0.0
  {
    FloorBounds((duration + th.residual) / th.dt);
    ResidualInRange(duration + th.residual, th.dt, TickCount(th, duration));
  }

  /** Ticks actually run: `range(int(ticks))` is empty for a negative count. */
  function Ran(ticks: int): nat
  {
    if ticks > 0 then ticks else 0
  }

  /** `sleep(duration)`. Division by a zero `dt` raises before anything
      changes. Otherwise the residual is updated first; the assertion that it
      stays in range may then raise; else the ticks run. */
  function Sleep(th: TimeHelper, duration: real, env: Env): (r: Outcome<Slept>)
    requires Linked(th.crazyflies)
    ensures th.dt == 0.0 ==> r == Outcome(Slept(th, []), Some(ZeroDivision))
    ensures th.dt < 0.0 ==> r == Outcome(Slept(th.(residual := NewResidual(th, duration)), []), Some(ResidualOutOfRange))
    ensures th.dt > 0.0 ==> r.Ok() && 0.0 <= r.value.th.residual < th.dt
  {
    if th.dt == 0.0 then Outcome(Slept(th, []), Some(ZeroDivision))
    else
      var th1 := th.(residual := NewResidual(th, duration));
      NewResidualBounds(th, duration);
      if !(-0.000000001 <= th1.residual < th.dt) then Outcome(Slept(th1, []), Some(ResidualOutOfRange))
      else Outcome(Ticks(th1, Ran(TickCount(th, duration)), env), None)
  }

  lemma FloorBounds(x: real)
    ensures x.Floor as real <= x < x.Floor as real + 1.0
  {
  }

  /** The remainder of `x` after `floor(x / dt)` whole steps lies in `[0, dt)`
      for a positive step, and in `(dt, 0]` for a negative one. */
  lemma ResidualInRange(x: real, dt: real, n: int)
    requires dt != 0.0 && n as real <= x / dt < n as real + 1.0
    ensures dt > 0.0 ==> 0.0 <= x - dt * n as real < dt
    ensures dt < 0.0 ==> dt < x - dt * n as real <= 0.0
  {
    var q := x / dt;
    var f := q - n as real;
    assert dt * q == x;
    assert x - dt * n as real == dt * f;
    if dt > 0.0 {
      PositiveFraction(dt, f);
    } else {
      NegativeFraction(dt, f);
    }
  }

  lemma PositiveFraction(dt: real, f: real)
    requires dt > 0.0 && 0.0 <= f < 1.0
    ensures 0.0 <= dt * f < dt
  {
  }

  lemma NegativeFraction(dt: real, f: real)
    requires dt < 0.0 && 0.0 <= f < 1.0
    ensures dt < dt * f <= 0.0
  {
  }

  lemma AddStep(t: real, dt: real, m: nat)
    ensures t + dt + m as real * dt == t + (m + 1) as real * dt
  {
  }

  /** `floor` is determined by its bounds. */
  lemma FloorUnique(x: real, n: int)
    requires n as real <= x < n as real + 1.0
    ensures x.Floor == n
  {
    FloorBounds(x);
  }

  /** `sleep` with a positive `dt` runs `floor((duration + residual) / dt)`
      ticks (none if that is negative), lets the sinks see each of them,
      advances time by exactly `dt` per tick, and keeps the residual in
      `[0, dt)`. */
  lemma SleepQuantizes(th: TimeHelper, duration: real, env: Env)
    requires th.dt > 0.0 && Linked(th.crazyflies)
    ensures var r := Sleep(th, duration, env);
      var n := ((duration + th.residual) / th.dt).Floor;
      && r.Ok()
      && |r.value.frames| == Ran(n)
      && r.value.th.t == th.t + Ran(n) as real * th.dt
      && 0.0 <= r.value.th.residual < th.dt
      && r.value.th.residual == th.residual + (duration - th.dt * n as real)
  {
    var n := TickCount(th, duration);
    var th1 := th.(residual := NewResidual(th, duration));
    NewResidualBounds(th, duration);
    assert Sleep(th, duration, env) == Outcome(Ticks(th1, Ran(n), env), None);
    TicksAdvanceTime(th1, Ran(n), env);
  }

  /** For a non-negative total, `sleep` loses no time: simulated time plus
      residual grows by exactly `duration`. */
  lemma SleepConservesTime(th: TimeHelper, duration: real, env: Env)
    requires th.dt > 0.0 && 0.0 <= duration + th.residual && Linked(th.crazyflies)
    ensures var r := Sleep(th, duration, env).value.th;
      r.t + r.residual == th.t + th.residual + duration
  {
    SleepQuantizes(th, duration, env);
    TickCountNonNegative(th, duration);
    var r := Sleep(th, duration, env).value.th;
    Conservation(th.t, th.residual, duration, th.dt, TickCount(th, duration), r.t, r.residual);
  }

  lemma Conservation(t: real, residual: real, duration: real, dt: real, n: int, t': real, residual': real)
    requires n >= 0 && t' == t + Ran(n) as real * dt && residual' == residual + (duration - dt * n as real)
    ensures t' + residual' == t + residual + duration
  {
  }

  /** A non-negative total duration never gives a negative tick count. */
  lemma TickCountNonNegative(th: TimeHelper, duration: real)
    requires th.dt > 0.0 && 0.0 <= duration + th.residual
    ensures TickCount(th, duration) >= 0
  {
    FloorBounds((duration + th.residual) / th.dt);
    assert 0.0 <= (duration + th.residual) / th.dt;
  }

  /** Residuals never drift for a positive `dt`: the assertion in `sleep`
      cannot fire. With a negative `dt` it always fires. */
  lemma SleepAssertion(th: TimeHelper, duration: real, env: Env)
    requires th.dt != 0.0 && Linked(th.crazyflies)
    ensures Sleep(th, duration, env).raised.Some? <==> th.dt < 0.0
  {
  }

  /** Ticks compose: `n1` ticks then `n2` ticks are `n1 + n2` ticks, and the
      sinks see the frames of both runs in order. */
  lemma {:induction false} TicksCompose(th: TimeHelper, n1: nat, n2: nat, env: Env)
    requires th.dt != 0.0 && Linked(th.crazyflies)
    ensures var r1 := Ticks(th, n1, env);
      var r2 := Ticks(r1.th, n2, env);
      Ticks(th, n1 + n2, env) == Slept(r2.th, r1.frames + r2.frames)
    decreases n1
  {
    if n1 > 0 {
      var th' := Tick(th, th.dt, env);
      TicksCompose(th', n1 - 1, n2, env);
      var f := Frame(th.t, Fronts(th.crazyflies));
      var r1 := Ticks(th', n1 - 1, env);
      var r2 := Ticks(r1.th, n2, env);
      assert Ticks(th, n1, env) == Slept(r1.th, [f] + r1.frames);
      assert [f] + (r1.frames + r2.frames) == ([f] + r1.frames) + r2.frames;
    }
  }


  /** What the sinks see: before tick `j` of a run, the time `j` ticks in
      and the front states the first `j` ticks left behind. */
  lemma TicksShowEachTick(th: TimeHelper, n: nat, env: Env)
    requires th.dt != 0.0 && Linked(th.crazyflies)
    ensures forall j: nat :: j < n ==>
      Ticks(th, n, env).frames[j] == Frame(th.t + j as real * th.dt, Fronts(Ticks(th, j, env).th.crazyflies))
  {
    forall j: nat | j < n
      ensures Ticks(th, n, env).frames[j] == Frame(th.t + j as real * th.dt, Fronts(Ticks(th, j, env).th.crazyflies))
    {
      TicksCompose(th, j, n - j, env);
      TicksAdvanceTime(th, j, env);
      var r1 := Ticks(th, j, env);
      var r2 := Ticks(r1.th, n - j, env);
      assert r2.frames[0] == Frame(r1.th.t, Fronts(r1.th.crazyflies));
      assert (r1.frames + r2.frames)[j] == r2.frames[0];
    }
  }
  /** Ticking neither reads nor writes the residual. */
  lemma {:induction false} TicksIgnoreResidual(th: TimeHelper, x: real, n: nat, env: Env)
    requires th.dt != 0.0 && Linked(th.crazyflies)
    ensures var r := Ticks(th, n, env);
      Ticks(th.(residual := x), n, env) == Slept(r.th.(residual := x), r.frames)
    decreases n
  {
    if n > 0 {
      assert Tick(th.(residual := x), th.dt, env) == Tick(th, th.dt, env).(residual := x);
      TicksIgnoreResidual(Tick(th, th.dt, env), x, n - 1, env);
    }
  }

  /** With a positive `dt` and a non-negative total, `sleep` runs exactly
      `TickCount` ticks from the clock whose residual is already updated. */
  lemma SleepRuns(th: TimeHelper, duration: real, env: Env)
    requires th.dt > 0.0 && 0.0 <= duration + th.residual && Linked(th.crazyflies)
    ensures TickCount(th, duration) >= 0
    ensures Sleep(th, duration, env)
      == Outcome(Ticks(th.(residual := NewResidual(th, duration)), TickCount(th, duration), env), None)
  {
    TickCountNonNegative(th, duration);
    NewResidualBounds(th, duration);
  }

  /** The arithmetic of carrying: the second sleep's tick count is what the
      combined sleep runs beyond the first, and both end on the same residual. */
  lemma CarryArithmetic(r: real, a: real, b: real, dt: real, n1: int, n: int, r1: real)
    requires dt > 0.0 && 0.0 <= r && 0.0 <= a && 0.0 <= b
    requires n1 == ((a + r) / dt).Floor && n == ((a + b + r) / dt).Floor
    requires r1 == r + (a - dt * n1 as real)
    ensures 0 <= n1 <= n
    ensures ((b + r1) / dt).Floor == n - n1
    ensures r1 + (b - dt * (n - n1) as real) == r + ((a + b) - dt * n as real)
  {
    FloorBounds((a + r) / dt);
    FloorBounds((a + b + r) / dt);
    Quotients(a + r, a + b + r, dt);
    ResidualInRange(a + r, dt, n1);
    ShiftQuotient(b + r1, (a + b + r), dt, n1);
    FloorUnique((b + r1) / dt, n - n1);
    Distribute(dt, n, n1);
  }

  lemma Quotients(x: real, y: real, dt: real)
    requires dt > 0.0 && 0.0 <= x <= y
    ensures 0.0 <= x / dt <= y / dt
  {
  }

  lemma ShiftQuotient(x: real, y: real, dt: real, m: int)
    requires dt > 0.0 && x == y - dt * m as real
    ensures x / dt == y / dt - m as real
  {
  }

  lemma Distribute(dt: real, n: int, m: int)
    ensures dt * (n - m) as real == dt * n as real - dt * m as real
  {
  }

  /** `CarryArithmetic` in terms of clocks: `mid` is `th` after `sleep(a)`. */
  lemma CarryCounts(th: TimeHelper, mid: TimeHelper, a: real, b: real)
    requires th.dt > 0.0 && 0.0 <= th.residual && 0.0 <= a && 0.0 <= b
    requires mid.dt == th.dt && mid.residual == NewResidual(th, a)
    ensures 0 <= TickCount(th, a) <= TickCount(th, a + b)
    ensures TickCount(mid, b) == TickCount(th, a + b) - TickCount(th, a)
    ensures NewResidual(mid, b) == NewResidual(th, a + b)
  {
    var n1 := TickCount(th, a);
    var n := TickCount(th, a + b);
    var r1 := mid.residual;
    CarryArithmetic(th.residual, a, b, th.dt, n1, n, r1);
  }

  /** Residual carrying: for non-negative durations, `sleep(a); sleep(b)`
      runs the same ticks, shows the sinks the same frames and ends with the
      same clock as `sleep(a + b)`. */
  lemma SleepResidualCarries(th: TimeHelper, a: real, b: real, env: Env)
    requires th.dt > 0.0 && 0.0 <= th.residual && 0.0 <= a && 0.0 <= b && Linked(th.crazyflies)
    ensures var s1 := Sleep(th, a, env);
      var s2 := Sleep(s1.value.th, b, env);
      var s := Sleep(th, a + b, env);
      && s1.Ok() && s2.Ok() && s.Ok()
      && s2.value.th == s.value.th
      && s1.value.frames + s2.value.frames == s.value.frames
  {
    var n1 := TickCount(th, a);
    var n := TickCount(th, a + b);
    var r1 := NewResidual(th, a);
    var rr := NewResidual(th, a + b);
    CarryCounts(th, th.(residual := r1), a, b);
    var n2: nat := n - n1;
    // The first sleep: `n1` ticks from the original clock, residual `r1`.
    SleepRuns(th, a, env);
    var first := Ticks(th, n1, env);
    TicksIgnoreResidual(th, r1, n1, env);
    var s1 := Sleep(th, a, env);
    assert s1 == Outcome(Slept(first.th.(residual := r1), first.frames), None);
    // The second sleep: `n2` ticks from where the first stopped.
    var mid := first.th.(residual := r1);
    CarryCounts(th, mid, a, b);
    SleepRuns(mid, b, env);
    var second := Ticks(first.th, n2, env);
    TicksIgnoreResidual(first.th, rr, n2, env);
    assert mid.(residual := rr) == first.th.(residual := rr);
    assert Sleep(mid, b, env) == Outcome(Slept(second.th.(residual := rr), second.frames), None);
    // The combined sleep: `n1 + n2` ticks.
    SleepRuns(th, a + b, env);
    TicksIgnoreResidual(th, rr, n, env);
    TicksCompose(th, n1, n2, env);
  }

  /** The quantization example: with `dt = 0.01`, two sleeps of 0.025 s run
      five ticks in all and leave no residual, exactly like one sleep of 0.05 s. */
  lemma SleepQuantizationExample(env: Env)
    ensures var th := NewTimeHelper(0.01, 0.0, Unbounded);
      var s1 := Sleep(th, 0.025, env);
      var s2 := Sleep(s1.value.th, 0.025, env);
      var s := Sleep(th, 0.05, env);
      && |s1.value.frames| == 2 && s1.value.th.residual == 0.005
      && |s1.value.frames| + |s2.value.frames| == 5 && s2.value.th.residual == 0.0
      && s2.value.th == s.value.th
  {
    var th := NewTimeHelper(0.01, 0.0, Unbounded);
    FloorUnique((0.025 + 0.0) / 0.01, 2);
    FloorUnique((0.05 + 0.0) / 0.01, 5);
    FloorUnique((0.025 + 0.005) / 0.01, 3);
    SleepResidualCarries(th, 0.025, 0.025, env);
    SleepQuantizes(th, 0.025, env);
    SleepQuantizes(th, 0.05, env);
  }

  /** `sleepForRate(rate)`: sleep for one period; a zero rate raises. */
  function SleepForRate(th: TimeHelper, rate: real, env: Env): (r: Outcome<Slept>)
    requires Linked(th.crazyflies)
    ensures rate == 0.0 ==> r == Outcome(Slept(th, []), Some(ZeroDivision))
    ensures rate != 0.0 ==> r == Sleep(th, 1.0 / rate, env)
  {
    if rate == 0.0 then Outcome(Slept(th, []), Some(ZeroDivision)) else Sleep(th, 1.0 / rate, env)
  }

  // ------------------------------------------------------------------- idle

  /** An agent that is IDLE with equal buffers (as every agent is after
      construction) keeps its committed state through any number of ticks. */
  lemma {:induction false} IdleWithEqualBuffersStaysPut(th: TimeHelper, n: nat, env: Env, k: nat)
    requires th.dt != 0.0 && Linked(th.crazyflies) && k < |th.crazyflies|
    requires th.crazyflies[k].mode == Idle && th.crazyflies[k].state == th.crazyflies[k].backState
    ensures var a := Ticks(th, n, env).th.crazyflies[k];
      && a.mode == Idle
      && a.state == th.crazyflies[k].state && a.backState == a.state
    decreases n
  {
    if n > 0 {
      IdleWithEqualBuffersStaysPut(Tick(th, th.dt, env), n - 1, env, k);
    }
  }
}

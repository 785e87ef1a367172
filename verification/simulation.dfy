/** One simulation step (`Update`: reclaim, then catch-up emission) and runs
    of many steps. `Update` uses the corrected reclaim pass; `UpdateAsWritten`
    keeps the source's fall-through branches. */
module Simulation {
  import opened Particles
  import opened Emitters
  import opened Reclaim
  import opened Emission

  /** The rest of a frame once the reclaim pass is done: add `dt` to the
      accumulator, then run the catch-up loop. */
  function AfterReclaim(reclaimed: Emitter, dt: real, currentTime: real): Emitter
    requires Shaped(reclaimed)
  {
    EmitLoop(reclaimed.(timeSinceLastEmission := reclaimed.timeSinceLastEmission + dt), currentTime)
  }

  /** Retire expired particles, add `dt` to the accumulator, then emit while
      it holds more than one interval. */
  function Update(e: Emitter, dt: real, currentTime: real): (r: Emitter)
    requires Shaped(e)
    ensures Shaped(r)
    ensures r.maxParticles == e.maxParticles && r.maxLifeTime == e.maxLifeTime
    ensures r.timeBetweenParticles == e.timeBetweenParticles
    ensures r.timeSinceLastEmission <= r.timeBetweenParticles
    ensures e.timeSinceLastEmission + dt >= 0.0 ==> r.timeSinceLastEmission >= 0.0
    ensures RingValid(e) ==> RingValid(r)
  {
    ReclaimKeepsRing(e, currentTime);
    AfterReclaim(ReclaimPass(e, currentTime), dt, currentTime)
  }

  /** `Update` exactly as the source writes it, with the fall-through
      reclaim pass. */
  function UpdateAsWritten(e: Emitter, dt: real, currentTime: real): (r: Emitter)
    requires Shaped(e)
    ensures Shaped(r)
    ensures r.maxParticles == e.maxParticles && r.maxLifeTime == e.maxLifeTime
    ensures r.timeBetweenParticles == e.timeBetweenParticles
    ensures r.timeSinceLastEmission <= r.timeBetweenParticles
    ensures e.timeSinceLastEmission + dt >= 0.0 ==> r.timeSinceLastEmission >= 0.0
    ensures RingCongruent(e) ==> RingCongruent(r)
    ensures e.numAlive <= e.maxParticles ==> r.numAlive <= r.maxParticles
  {
    var reclaimed := ReclaimAsWritten(e, currentTime);
    assert RingCongruent(e) ==> RingCongruent(reclaimed.(timeSinceLastEmission := reclaimed.timeSinceLastEmission + dt));
    AfterReclaim(reclaimed, dt, currentTime)
  }

  /** The state every step keeps: the ring invariant and an accumulator
      holding at most one emission interval. */
  predicate Steady(e: Emitter) {
    && RingValid(e)
    && 0.0 <= e.timeSinceLastEmission <= e.timeBetweenParticles
  }

  /** The living particles are in spawn order and none was spawned after `now`. */
  predicate SpawnedInOrderBy(e: Emitter, now: real)
    requires Shaped(e) && e.numAlive >= 0
  {
    && SpawnOrdered(AliveView(e))
    && forall i :: 0 <= i < e.numAlive ==> AliveView(e)[i].emitTime <= now
  }

  /** Reclaiming keeps the spawn order: what remains is a suffix. */
  lemma ReclaimKeepsSpawnOrder(e: Emitter, currentTime: real, now: real)
    requires RingValid(e) && SpawnedInOrderBy(e, now)
    ensures RingValid(ReclaimPass(e, currentTime))
    ensures SpawnedInOrderBy(ReclaimPass(e, currentTime), now)
  {
    ReclaimRetiresOldest(e, currentTime);
    var k := CountExpired(AliveView(e), currentTime, e.maxLifeTime);
    var v, v1 := AliveView(e), AliveView(ReclaimPass(e, currentTime));
    assert forall i :: 0 <= i < |v1| ==> v1[i] == v[k + i];
  }

  /** The catch-up loop appends particles spawned at `currentTime`, so it
      keeps the spawn order when no living particle is younger. */
  lemma EmitLoopKeepsSpawnOrder(e: Emitter, currentTime: real)
    requires RingValid(e) && SpawnedInOrderBy(e, currentTime)
    ensures RingValid(EmitLoop(e, currentTime))
    ensures SpawnedInOrderBy(EmitLoop(e, currentTime), currentTime)
  {
    EmitLoopCatchesUp(e, currentTime);
    var n := EmissionCount(e.timeSinceLastEmission, e.timeBetweenParticles);
    EmitRepeatSaturates(e, currentTime, n);
    var r := EmitRepeat(e, currentTime, n);
    var v := AliveView(e);
    var w := AliveView(r);
    assert AliveView(EmitLoop(e, currentTime)) == w;
    assert forall i :: 0 <= i < |v| ==> w[i] == v[i] by {
      assert w[..|v|] == v;
    }
    forall i, j | 0 <= i <= j < |w| ensures w[i].emitTime <= w[j].emitTime {
      if j < |v| {
        assert w[i] == v[i] && w[j] == v[j];
      } else if i < |v| {
        assert w[i] == v[i];
      }
    }
  }

  /** A step at a clock no earlier than every living particle's spawn time
      keeps the living particles in spawn order. */
  lemma UpdateKeepsSpawnOrder(e: Emitter, dt: real, currentTime: real)
    requires RingValid(e) && SpawnedInOrderBy(e, currentTime)
    ensures RingValid(Update(e, dt, currentTime))
    ensures SpawnedInOrderBy(Update(e, dt, currentTime), currentTime)
  {
    ReclaimKeepsSpawnOrder(e, currentTime, currentTime);
    var reclaimed := ReclaimPass(e, currentTime);
    var e1 := reclaimed.(timeSinceLastEmission := reclaimed.timeSinceLastEmission + dt);
    assert AliveView(e1) == AliveView(reclaimed);
    EmitLoopKeepsSpawnOrder(e1, currentTime);
  }

  /** Step `dt` of one frame and the clock reading it passes to `Update`. */
  datatype Frame = Frame(dt: real, currentTime: real)

  /** A sequence of `Update` calls, one per frame. */
  function Run(e: Emitter, frames: seq<Frame>): (r: Emitter)
    requires Shaped(e)
    ensures Shaped(r)
    ensures r.maxParticles == e.maxParticles && r.timeBetweenParticles == e.timeBetweenParticles
    ensures RingValid(e) ==> RingValid(r)
    decreases |frames|
  {
    if |frames| == 0 then e
    else Run(Update(e, frames[0].dt, frames[0].currentTime), frames[1..])
  }

  /** Frame times that never run backwards and start no earlier than `start`. */
  predicate ClockFrom(frames: seq<Frame>, start: real) {
    && (forall i :: 0 <= i < |frames| ==> start <= frames[i].currentTime)
    && (forall i, j :: 0 <= i <= j < |frames| ==> frames[i].currentTime <= frames[j].currentTime)
  }

  /** Every run with non-negative steps keeps the steady state: the count stays
      within `[0, maxParticles]` and the accumulator within one interval. */
  lemma {:induction false} RunStaysSteady(e: Emitter, frames: seq<Frame>)
    requires Steady(e)
    requires forall i :: 0 <= i < |frames| ==> frames[i].dt >= 0.0
    ensures Steady(Run(e, frames))
    decreases |frames|
  {
    if |frames| > 0 {
      RunStaysSteady(Update(e, frames[0].dt, frames[0].currentTime), frames[1..]);
    }
  }

  /** With a clock that never runs backwards, the living particles stay in
      spawn order through any run, so every reclaim pass of the run retires
      exactly the expired particles. */
  lemma {:induction false} RunKeepsSpawnOrder(e: Emitter, start: real, frames: seq<Frame>)
    requires RingValid(e) && SpawnedInOrderBy(e, start) && ClockFrom(frames, start)
    ensures RingValid(Run(e, frames))
    ensures SpawnedInOrderBy(Run(e, frames), if |frames| == 0 then start else frames[|frames| - 1].currentTime)
    decreases |frames|
  {
    if |frames| > 0 {
      var t := frames[0].currentTime;
      UpdateKeepsSpawnOrder(e, frames[0].dt, t);
      var rest := frames[1..];
      assert ClockFrom(rest, t) by {
        forall i | 0 <= i < |rest| ensures t <= rest[i].currentTime { assert rest[i] == frames[i + 1]; }
      }
      RunKeepsSpawnOrder(Update(e, frames[0].dt, t), t, rest);
      if |rest| > 0 { assert rest[|rest| - 1] == frames[|frames| - 1]; }
    }
  }

  /** A freshly constructed emitter driven by any frames with non-negative
      steps and a clock that never runs backwards stays steady and keeps its
      living particles in spawn order. */
  lemma CreatedEmitterRuns(maxParticles: int, maxLifeTime: real, particlesPerSecond: int,
                           slots: seq<Particle>, start: real, frames: seq<Frame>)
    requires maxParticles > 0 && particlesPerSecond > 0 && |slots| == maxParticles
    requires forall i :: 0 <= i < |frames| ==> frames[i].dt >= 0.0
    requires ClockFrom(frames, start)
    ensures var r := Run(Create(maxParticles, maxLifeTime, particlesPerSecond, slots), frames);
      && Steady(r)
      && 0 <= r.numAlive <= maxParticles
      && SpawnedInOrderBy(r, if |frames| == 0 then start else frames[|frames| - 1].currentTime)
  {
    var e := Create(maxParticles, maxLifeTime, particlesPerSecond, slots);
    RunStaysSteady(e, frames);
    RunKeepsSpawnOrder(e, start, frames);
  }
}

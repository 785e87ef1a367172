/** A step that holds between one and two emission intervals and finds no
    expired particle spawns exactly one, and what that means for a freshly
    constructed emitter driven at one step per interval. */
module Scenarios {
  import opened Particles
  import opened RingArith
  import opened Emitters
  import opened Reclaim
  import opened Emission
  import opened Simulation
  import opened FallThrough

  /** With nothing expired the reclaim pass changes nothing. */
  lemma ReclaimNoneExpired(e: Emitter, currentTime: real)
    requires RingValid(e) && CountExpired(AliveView(e), currentTime, e.maxLifeTime) == 0
    ensures ReclaimPass(e, currentTime) == e
  {
    ReclaimRetiresOldest(e, currentTime);
    ModOnce(e.firstAlive, e.maxParticles);
    var r := ReclaimPass(e, currentTime);
    assert r.firstAlive == e.firstAlive && r.numAlive == e.numAlive;
  }

  /** An accumulator holding more than one interval but at most two runs
      the catch-up loop exactly once. */
  lemma EmitLoopOnce(e: Emitter, currentTime: real)
    requires Shaped(e)
    requires e.timeBetweenParticles < e.timeSinceLastEmission <= 2.0 * e.timeBetweenParticles
    ensures EmitLoop(e, currentTime) == Emit(e, currentTime).(timeSinceLastEmission :=
      e.timeSinceLastEmission - e.timeBetweenParticles)
  {
    var e1 := Emit(e, currentTime).(timeSinceLastEmission := e.timeSinceLastEmission - e.timeBetweenParticles);
    assert EmitLoop(e1, currentTime) == e1;
  }

  /** With nothing expired and an accumulator that crosses the emission
      threshold exactly once, `Update` appends one particle spawned now. */
  lemma UpdateSpawnsOne(e: Emitter, dt: real, currentTime: real)
    requires RingValid(e) && e.numAlive < e.maxParticles
    requires CountExpired(AliveView(e), currentTime, e.maxLifeTime) == 0
    requires e.timeBetweenParticles < e.timeSinceLastEmission + dt <= 2.0 * e.timeBetweenParticles
    ensures RingValid(Update(e, dt, currentTime))
    ensures AliveView(Update(e, dt, currentTime)) ==
      AliveView(e) + [Particle(currentTime, Add(e.particles[e.firstDead].position, SpawnOffset))]
    ensures Update(e, dt, currentTime).timeSinceLastEmission
         == e.timeSinceLastEmission + dt - e.timeBetweenParticles
    ensures Update(e, dt, currentTime).firstAlive == e.firstAlive
  {
    var t := currentTime;
    ReclaimNoneExpired(e, t);
    var e1 := e.(timeSinceLastEmission := e.timeSinceLastEmission + dt);
    assert Update(e, dt, t) == EmitLoop(e1, t);
    EmitLoopOnce(e1, t);
    assert AliveView(e1) == AliveView(e);
    EmitAppends(e1, t);
    EmitPreservesRing(e1, t);
  }

  /** Four slots, lifetime 10, one particle per second, stepped by one second
      at clock readings 1, 2, 3 and 4, with the frame as written: the first
      step only fills the accumulator to exactly one interval and, since the
      emission test is strict, spawns nothing; each later step spawns one.
      Nothing expires, so each frame as written is the corrected frame. Three
      particles are alive afterwards, spawned at 2, 3 and 4, and the buffer is
      not full. */
  lemma OneSecondSteps(slots: seq<Particle>)
    requires |slots| == 4
    ensures var e := Create(4, 10.0, 1, slots);
      var r := UpdateAsWritten(UpdateAsWritten(UpdateAsWritten(UpdateAsWritten(e, 1.0, 1.0), 1.0, 2.0), 1.0, 3.0), 1.0, 4.0);
      && RingValid(r)
      && r.numAlive == 3 && r.firstAlive == 0 && r.firstDead == 3
      && AliveView(r)[0].emitTime == 2.0 && AliveView(r)[1].emitTime == 3.0 && AliveView(r)[2].emitTime == 4.0
  {
    var e := Create(4, 10.0, 1, slots);
    assert e.timeBetweenParticles == 1.0;
    UpdateAsWrittenAgreesOtherwise(e, 1.0, 1.0);
    var e1 := Update(e, 1.0, 1.0);
    assert e1 == e.(timeSinceLastEmission := 1.0);
    assert AliveView(e1) == [];
    UpdateAsWrittenAgreesOtherwise(e1, 1.0, 2.0);
    UpdateSpawnsOne(e1, 1.0, 2.0);
    var e2 := Update(e1, 1.0, 2.0);
    assert AliveView(e2)[0].emitTime == 2.0;
    assert CountExpired(AliveView(e2), 3.0, 10.0) == 0;
    UpdateAsWrittenAgreesOtherwise(e2, 1.0, 3.0);
    UpdateSpawnsOne(e2, 1.0, 3.0);
    var e3 := Update(e2, 1.0, 3.0);
    assert AliveView(e3)[0].emitTime == 2.0 && AliveView(e3)[1].emitTime == 3.0;
    assert CountExpired(AliveView(e3), 4.0, 10.0) == 0 by {
      CountExpiredExtremes(AliveView(e3), 4.0, 10.0);
    }
    UpdateAsWrittenAgreesOtherwise(e3, 1.0, 4.0);
    UpdateSpawnsOne(e3, 1.0, 4.0);
    var r := Update(e3, 1.0, 4.0);
    RingCount(r);
  }
}

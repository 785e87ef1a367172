/** The reclaim pass of `Update` tests its three index cases with plain `if`s.
    When the contiguous or wrapped scan retires every living particle, the
    indices end up equal and the full-buffer case runs as well, re-scanning
    every slot (the ones just retired and slots never written) and driving
    `numAlive` below zero. */
module FallThrough {
  import opened Particles
  import opened RingArith
  import opened Emitters
  import opened Reclaim
  import opened Emission
  import opened Simulation
  import opened IndexBuffer

  /** The living particles all expire at once while the indices differ. */
  predicate AllExpireUnwrapped(e: Emitter, currentTime: real)
    requires RingValid(e)
  {
    && e.numAlive > 0
    && e.firstAlive != e.firstDead
    && CountExpired(AliveView(e), currentTime, e.maxLifeTime) == e.numAlive
  }

  /** Counting over the whole slot array counts at least the living ones. */
  lemma WholeArrayCountsAlive(e: Emitter, currentTime: real)
    requires RingValid(e) && e.numAlive > 0
    ensures CountExpired(e.particles[0..e.maxParticles], currentTime, e.maxLifeTime)
         >= CountExpired(AliveView(e), currentTime, e.maxLifeTime)
  {
    var p, t, l := e.particles, currentTime, e.maxLifeTime;
    var fa, fd := e.firstAlive, e.firstDead;
    AliveViewSlices(e);
    assert p[0..e.maxParticles] == p;
    if fa < fd {
      assert p == p[..fa] + p[fa..fd] + p[fd..];
      CountExpiredAppend(p[..fa] + p[fa..fd], p[fd..], t, l);
      CountExpiredAppend(p[..fa], p[fa..fd], t, l);
    } else {
      assert p == p[..fd] + p[fd..fa] + p[fa..];
      CountExpiredAppend(p[..fd] + p[fd..fa], p[fa..], t, l);
      CountExpiredAppend(p[..fd], p[fd..fa], t, l);
      CountExpiredAppend(p[fa..], p[..fd], t, l);
    }
  }

  /** As written: when every living particle expires and the indices differ,
      the full-array branch runs after the first scan and `numAlive` ends at
      minus the number of expired slots in the whole array, which is at least
      the number of particles that were alive. */
  lemma AsWrittenGoesNegative(e: Emitter, currentTime: real)
    requires RingValid(e) && AllExpireUnwrapped(e, currentTime)
    ensures ReclaimAsWritten(e, currentTime).numAlive
         == -(CountExpired(e.particles[0..e.maxParticles], currentTime, e.maxLifeTime) as int)
    ensures ReclaimAsWritten(e, currentTime).numAlive <= -e.numAlive < 0
  {
    var mid := FirstScansRetireAll(e, currentTime);
    WholeArrayCountsAlive(e, currentTime);
  }

  /** The contiguous or the wrapped scan retires everything, leaving equal
      indices and a zero count: the state the third branch then tests. */
  lemma FirstScansRetireAll(e: Emitter, currentTime: real) returns (mid: Emitter)
    requires RingValid(e) && AllExpireUnwrapped(e, currentTime)
    ensures Shaped(mid) && mid.particles == e.particles && mid.maxLifeTime == e.maxLifeTime
    ensures mid.firstAlive == mid.firstDead && mid.numAlive == 0
    ensures ReclaimAsWritten(e, currentTime) == Scan(mid, currentTime, 0, e.maxParticles)
  {
    RingCount(e);
    ScannedCountsAlive(e, currentTime);
    mid := Retire(e, e.numAlive);
    if e.firstAlive > e.firstDead {
      WrappedScanRetires(e, currentTime);
    }
  }

  /** As written, whenever the living particles do not all expire at once
      with differing indices, the fall-through is harmless: the pass agrees
      with the corrected one. */
  lemma AsWrittenAgreesOtherwise(e: Emitter, currentTime: real)
    requires RingValid(e) && !AllExpireUnwrapped(e, currentTime)
    ensures ReclaimAsWritten(e, currentTime) == ReclaimPass(e, currentTime)
  {
    if e.numAlive > 0 && e.firstAlive != e.firstDead {
      SomeSurvivorKeepsIndicesApart(e, currentTime);
    }
  }

  /** The same holds for a whole frame: away from the all-expire case, the
      frame as written is the corrected frame. */
  lemma UpdateAsWrittenAgreesOtherwise(e: Emitter, dt: real, currentTime: real)
    requires RingValid(e) && !AllExpireUnwrapped(e, currentTime)
    ensures UpdateAsWritten(e, dt, currentTime) == Update(e, dt, currentTime)
  {
    AsWrittenAgreesOtherwise(e, currentTime);
  }

  /** When some living particle survives, the corrected pass leaves the
      indices apart, in the same order as before when they did not wrap. */
  lemma SomeSurvivorKeepsIndicesApart(e: Emitter, currentTime: real)
    requires RingValid(e) && e.numAlive > 0 && e.firstAlive != e.firstDead
    requires CountExpired(AliveView(e), currentTime, e.maxLifeTime) < e.numAlive
    ensures ReclaimPass(e, currentTime).firstAlive != e.firstDead
    ensures e.firstAlive < e.firstDead ==> ReclaimPass(e, currentTime).firstAlive < e.firstDead
    ensures ReclaimAsWritten(e, currentTime) == ReclaimPass(e, currentTime)
  {
    var m := e.maxParticles;
    var k := CountExpired(AliveView(e), currentTime, e.maxLifeTime);
    RingCount(e);
    ReclaimRetiresOldest(e, currentTime);
    ModOnce(e.firstAlive + k, m);
    ModOnce(e.firstAlive + e.numAlive, m);
    if e.firstAlive < e.firstDead {
      ScannedCountsAlive(e, currentTime);
    }
  }

  const Junk: Particle := Particle(0.0, Vec3(0.0, 0.0, 0.0))

  /** The first frame of the concrete run below: one particle spawned at 1.5
      into slot 0, half an interval left over. Both versions agree. */
  lemma FirstFrame() returns (e1: Emitter)
    ensures e1 == Update(Create(2, 0.5, 1, [Junk, Junk]), 1.5, 1.5)
    ensures e1 == UpdateAsWritten(Create(2, 0.5, 1, [Junk, Junk]), 1.5, 1.5)
    ensures e1.numAlive == 1 && e1.firstAlive == 0 && e1.firstDead == 1
    ensures e1.particles[0].emitTime == 1.5 && e1.particles[1] == Junk
    ensures e1.timeSinceLastEmission == 0.5 && e1.timeBetweenParticles == 1.0
    ensures e1.maxLifeTime == 0.5 && e1.maxParticles == 2
  {
    var e0 := Create(2, 0.5, 1, [Junk, Junk]);
    assert e0.timeBetweenParticles == 1.0;
    assert ReclaimPass(e0, 1.5) == e0 && ReclaimAsWritten(e0, 1.5) == e0;
    var a := e0.(timeSinceLastEmission := 1.5);
    var em := Emit(a, 1.5);
    e1 := em.(timeSinceLastEmission := 0.5);
    assert EmitLoop(e1, 1.5) == e1;
    assert EmitLoop(a, 1.5) == e1;
  }

  /** A concrete run: two slots never written (spawn time 0), lifetime half a
      second, one particle per second. The first frame spawns one particle;
      in the second it has expired, the contiguous scan retires it, and the
      fall-through re-scans both slots. The corrected update ends with one
      living particle; the source ends with `numAlive == -1`, which `Draw`
      turns into an index count of 2^32 - 6. */
  lemma FallThroughExample()
    ensures var e0 := Create(2, 0.5, 1, [Junk, Junk]);
      && Update(Update(e0, 1.5, 1.5), 1.0, 2.5).numAlive == 1
      && UpdateAsWritten(UpdateAsWritten(e0, 1.5, 1.5), 1.0, 2.5).numAlive == -1
      && DrawIndexCount(UpdateAsWritten(UpdateAsWritten(e0, 1.5, 1.5), 1.0, 2.5)) == 0x1_0000_0000 - 6
  {
    var e1 := FirstFrame();
    SecondFrameFixed(e1);
    SecondFrameAsWritten(e1);
  }

  lemma SecondFrameFixed(e1: Emitter)
    requires Shaped(e1) && e1.numAlive == 1 && e1.firstAlive == 0 && e1.firstDead == 1
    requires e1.particles[0].emitTime == 1.5 && e1.particles[1] == Junk
    requires e1.timeSinceLastEmission == 0.5 && e1.timeBetweenParticles == 1.0
    requires e1.maxLifeTime == 0.5 && e1.maxParticles == 2
    ensures Update(e1, 1.0, 2.5).numAlive == 1
  {
    var r := ReclaimPass(e1, 2.5);
    assert e1.particles[0..1] == [e1.particles[0]];
    assert r.numAlive == 0 && r.firstAlive == 1 && r.firstDead == 1;
    var a := r.(timeSinceLastEmission := 1.5);
    var em := Emit(a, 2.5);
    assert em.numAlive == 1;
    assert EmitLoop(em.(timeSinceLastEmission := 0.5), 2.5) == em.(timeSinceLastEmission := 0.5);
  }

  lemma SecondFrameAsWritten(e1: Emitter)
    requires Shaped(e1) && e1.numAlive == 1 && e1.firstAlive == 0 && e1.firstDead == 1
    requires e1.particles[0].emitTime == 1.5 && e1.particles[1] == Junk
    requires e1.timeSinceLastEmission == 0.5 && e1.timeBetweenParticles == 1.0
    requires e1.maxLifeTime == 0.5 && e1.maxParticles == 2
    ensures UpdateAsWritten(e1, 1.0, 2.5).numAlive == -1
    ensures DrawIndexCount(UpdateAsWritten(e1, 1.0, 2.5)) == 0x1_0000_0000 - 6
  {
    var t := 2.5;
    assert e1.particles[0..1] == [e1.particles[0]];
    var mid := Scan(e1, t, 0, 1);
    assert mid.numAlive == 0 && mid.firstAlive == 1;
    assert e1.particles[0..2] == [e1.particles[0], Junk];
    var r := Scan(mid, t, 0, 2);
    assert r.numAlive == -2 && r.firstAlive == 1;
    assert ReclaimAsWritten(e1, t) == r;
    var a := r.(timeSinceLastEmission := 1.5);
    var em := Emit(a, t);
    assert em.numAlive == -1;
    assert EmitLoop(em.(timeSinceLastEmission := 0.5), t) == em.(timeSinceLastEmission := 0.5);
  }
}

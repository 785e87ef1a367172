/** The emitter's CPU-side state: a fixed array of particle slots used as a
    ring buffer, with the oldest living slot at `firstAlive`, the next slot to
    write at `firstDead`, and the number of living particles in `numAlive`.
    Full and empty both have `firstAlive == firstDead`; only `numAlive` tells
    them apart. */
module Emitters {
  import opened Particles
  import opened RingArith

  datatype Emitter = Emitter(
    maxParticles: int,
    particles: seq<Particle>,
    firstAlive: int,
    firstDead: int,
    numAlive: int,
    maxLifeTime: real,
    particlesPerSecond: int,
    timeBetweenParticles: real,
    timeSinceLastEmission: real)

  /** The shape every operation relies on: one slot per particle, both ring
      indices inside the slot array, and a positive emission interval. */
  predicate Shaped(e: Emitter) {
    && e.maxParticles > 0
    && |e.particles| == e.maxParticles
    && 0 <= e.firstAlive < e.maxParticles
    && 0 <= e.firstDead < e.maxParticles
    && e.timeBetweenParticles > 0.0
  }

  /** The ring relation: `numAlive == firstDead - firstAlive (mod maxParticles)`. */
  predicate RingCongruent(e: Emitter)
    requires e.maxParticles > 0
  {
    (e.firstAlive + e.numAlive - e.firstDead) % e.maxParticles == 0
  }

  /** The ring-buffer invariant: a well-shaped state whose count is within
      capacity and agrees with the two indices. */
  predicate RingValid(e: Emitter) {
    && Shaped(e)
    && 0 <= e.numAlive <= e.maxParticles
    && RingCongruent(e)
  }

  /** Under the invariant the count is determined by the indices, except
      that equal indices mean either empty or full. */
  lemma RingCount(e: Emitter)
    requires RingValid(e)
    ensures e.firstAlive < e.firstDead ==> e.numAlive == e.firstDead - e.firstAlive
    ensures e.firstAlive > e.firstDead ==> e.numAlive == e.maxParticles - e.firstAlive + e.firstDead
    ensures e.firstAlive == e.firstDead ==> e.numAlive == 0 || e.numAlive == e.maxParticles
    ensures (e.firstAlive + e.numAlive) % e.maxParticles == e.firstDead
  {
    var m := e.maxParticles;
    var d := e.firstAlive + e.numAlive - e.firstDead;
    assert -m < d < 2 * m;
    assert d % m == 0;
    assert d == 0 || d == m by {
      assert 0 <= d;
      ModOnce(d, m);
    }
    ModOnce(e.firstAlive + e.numAlive, m);
  }

  /** The living particles, oldest first, read around the ring from `firstAlive`. */
  function AliveView(e: Emitter): (v: seq<Particle>)
    requires Shaped(e) && e.numAlive >= 0
    ensures |v| == e.numAlive
  {
    seq(e.numAlive, k requires 0 <= k < e.numAlive =>
      e.particles[(e.firstAlive + k) % e.maxParticles])
  }

  /** The living particles as slices of the slot array: one slice when the
      range does not wrap, the tail then the head when it does (or when the
      buffer is full). */
  lemma AliveViewSlices(e: Emitter)
    requires RingValid(e)
    ensures e.firstAlive < e.firstDead ==> AliveView(e) == e.particles[e.firstAlive..e.firstDead]
    ensures e.firstAlive >= e.firstDead && e.numAlive > 0 ==>
      AliveView(e) == e.particles[e.firstAlive..] + e.particles[..e.firstDead]
  {
    RingCount(e);
    var m := e.maxParticles;
    var v := AliveView(e);
    if e.firstAlive < e.firstDead {
      forall k | 0 <= k < |v| ensures v[k] == e.particles[e.firstAlive..e.firstDead][k] {
        ModOnce(e.firstAlive + k, m);
      }
    } else if e.numAlive > 0 {
      var w := e.particles[e.firstAlive..] + e.particles[..e.firstDead];
      assert |w| == |v|;
      forall k | 0 <= k < |v| ensures v[k] == w[k] {
        ModOnce(e.firstAlive + k, m);
      }
    }
  }

  /** The constructor: empty ring, zero accumulator, interval `1/particlesPerSecond`.
      The slot array is allocated but not cleared, so its contents are a parameter. */
  function Create(maxParticles: int, maxLifeTime: real, particlesPerSecond: int, slots: seq<Particle>): (e: Emitter)
    requires maxParticles > 0 && particlesPerSecond > 0
    requires |slots| == maxParticles
    ensures RingValid(e)
    ensures e.firstAlive == 0 && e.firstDead == 0 && e.numAlive == 0
    ensures AliveView(e) == []
    ensures e.particles == slots && e.maxParticles == maxParticles && e.maxLifeTime == maxLifeTime
    ensures e.timeBetweenParticles * (particlesPerSecond as real) == 1.0
    ensures e.timeSinceLastEmission == 0.0
  {
    Emitter(maxParticles, slots, 0, 0, 0, maxLifeTime, particlesPerSecond,
            1.0 / (particlesPerSecond as real), 0.0)
  }

  /** Spawn one particle at `firstDead`, unless every slot is alive. */
  function Emit(e: Emitter, currentTime: real): (r: Emitter)
    requires Shaped(e)
    ensures Shaped(r) && |r.particles| == |e.particles|
    ensures e.numAlive == e.maxParticles ==> r == e
    ensures e.numAlive != e.maxParticles ==>
      && r.particles[e.firstDead].emitTime == currentTime
      && r.particles[e.firstDead].position == Add(e.particles[e.firstDead].position, SpawnOffset)
      && r.firstDead == (if e.firstDead + 1 == e.maxParticles then 0 else e.firstDead + 1)
      && r.numAlive == e.numAlive + 1
      && r.firstAlive == e.firstAlive
    ensures forall i :: 0 <= i < |e.particles| && i != e.firstDead ==> r.particles[i] == e.particles[i]
    ensures r.maxParticles == e.maxParticles && r.maxLifeTime == e.maxLifeTime
    ensures r.timeBetweenParticles == e.timeBetweenParticles
    ensures r.timeSinceLastEmission == e.timeSinceLastEmission
  {
    if e.numAlive == e.maxParticles then e
    else
      var slot := e.particles[e.firstDead];
      var spawned := Particle(currentTime, Add(slot.position, SpawnOffset));
      ModOnce(e.firstDead + 1, e.maxParticles);
      e.(particles := e.particles[e.firstDead := spawned],
         firstDead := (e.firstDead + 1) % e.maxParticles,
         numAlive := e.numAlive + 1)
  }

  /** Emission keeps the ring relation and never pushes the count past capacity. */
  lemma EmitPreservesRing(e: Emitter, currentTime: real)
    requires Shaped(e)
    ensures RingCongruent(e) ==> RingCongruent(Emit(e, currentTime))
    ensures RingValid(e) ==> RingValid(Emit(e, currentTime))
  {
    var r := Emit(e, currentTime);
    if e.numAlive != e.maxParticles && RingCongruent(e) {
      var m := e.maxParticles;
      var d := e.firstAlive + e.numAlive - e.firstDead;
      if e.firstDead + 1 == m {
        assert r.firstAlive + r.numAlive - r.firstDead == d + m;
        ModShift(d, m);
      } else {
        assert r.firstAlive + r.numAlive - r.firstDead == d;
      }
    }
  }

  /** A non-full emission appends one particle, spawned now, to the living
      particles; a full one leaves them as they were. */
  lemma EmitAppends(e: Emitter, currentTime: real)
    requires RingValid(e)
    ensures e.numAlive < e.maxParticles ==>
      AliveView(Emit(e, currentTime)) ==
        AliveView(e) + [Particle(currentTime, Add(e.particles[e.firstDead].position, SpawnOffset))]
    ensures e.numAlive == e.maxParticles ==> AliveView(Emit(e, currentTime)) == AliveView(e)
  {
    EmitPreservesRing(e, currentTime);
    if e.numAlive < e.maxParticles {
      var m := e.maxParticles;
      var r := Emit(e, currentTime);
      RingCount(e);
      var v, w := AliveView(e), AliveView(r);
      forall k | 0 <= k < |w|
        ensures w[k] == (v + [r.particles[e.firstDead]])[k]
      {
        ModOnce(e.firstAlive + k, m);
        ModOnce(e.firstAlive + e.numAlive, m);
      }
    }
  }

  /** Age check of one slot: if the particle in slot `index` has expired,
      retire the oldest living particle. The slot checked and the slot
      retired are not tied together. */
  function SingleUpdate(e: Emitter, currentTime: real, index: int): (r: Emitter)
    requires Shaped(e) && 0 <= index < e.maxParticles
    ensures Shaped(r)
    ensures r.particles == e.particles && r.firstDead == e.firstDead
    ensures r.maxParticles == e.maxParticles && r.maxLifeTime == e.maxLifeTime
    ensures r.timeBetweenParticles == e.timeBetweenParticles
    ensures r.timeSinceLastEmission == e.timeSinceLastEmission
    ensures Expired(e.particles[index], currentTime, e.maxLifeTime) <==>
      && r.numAlive == e.numAlive - 1
      && r.firstAlive == (if e.firstAlive + 1 == e.maxParticles then 0 else e.firstAlive + 1)
    ensures !Expired(e.particles[index], currentTime, e.maxLifeTime) <==> r == e
  {
    if Expired(e.particles[index], currentTime, e.maxLifeTime) then
      ModOnce(e.firstAlive + 1, e.maxParticles);
      e.(firstAlive := (e.firstAlive + 1) % e.maxParticles, numAlive := e.numAlive - 1)
    else e
  }

  /** Retiring one particle keeps the ring relation. */
  lemma SingleUpdatePreservesRing(e: Emitter, currentTime: real, index: int)
    requires Shaped(e) && 0 <= index < e.maxParticles
    ensures RingCongruent(e) <==> RingCongruent(SingleUpdate(e, currentTime, index))
  {
    var r := SingleUpdate(e, currentTime, index);
    var m := e.maxParticles;
    var d := e.firstAlive + e.numAlive - e.firstDead;
    if r != e && e.firstAlive + 1 == m {
      assert r.firstAlive + r.numAlive - r.firstDead == d - m;
      ModShift(d, m);
    }
  }

  /** The state after retiring the `k` oldest particles at once: `firstAlive`
      advances by `k` around the ring and the count drops by `k`. */
  function Retire(e: Emitter, k: int): Emitter
    requires e.maxParticles > 0
  {
    e.(firstAlive := (e.firstAlive + k) % e.maxParticles, numAlive := e.numAlive - k)
  }

  /** Retiring `k1` then `k2` particles is retiring `k1 + k2`. */
  lemma RetireTwice(e: Emitter, k1: int, k2: int)
    requires Shaped(e) && 0 <= k1 <= e.maxParticles
    ensures Retire(Retire(e, k1), k2) == Retire(e, k1 + k2)
  {
    ModReduceFirst(e.firstAlive + k1, k2, e.maxParticles);
  }

  /** Retiring the `k` oldest living particles keeps the invariant and removes
      exactly the first `k` of them. */
  lemma RetireOldest(e: Emitter, k: int)
    requires RingValid(e) && 0 <= k <= e.numAlive
    ensures RingValid(Retire(e, k))
    ensures AliveView(Retire(e, k)) == AliveView(e)[k..]
  {
    var m, r := e.maxParticles, Retire(e, k);
    ModOnce(e.firstAlive + k, m);
    var d := e.firstAlive + e.numAlive - e.firstDead;
    if e.firstAlive + k >= m {
      assert r.firstAlive + r.numAlive - r.firstDead == d - m;
      ModShift(d, m);
    }
    forall j | 0 <= j < r.numAlive
      ensures AliveView(r)[j] == AliveView(e)[k + j]
    {
      ModReduceFirst(e.firstAlive + k, j, m);
    }
  }
}

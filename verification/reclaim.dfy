/** The reclaim pass of `Update`: scanning slots and retiring the oldest
    living particle once per expired slot seen. */
module Reclaim {
  import opened Particles
  import opened RingArith
  import opened Emitters

  /** `SingleUpdate` on every slot of `[lo, hi)` in increasing order: one of
      the source's `for` loops. The scan retires one particle per expired slot
      in the range and changes nothing else. */
  function Scan(e: Emitter, currentTime: real, lo: int, hi: int): (r: Emitter)
    requires Shaped(e) && 0 <= lo <= hi <= e.maxParticles
    ensures Shaped(r)
    ensures r == Retire(e, CountExpired(e.particles[lo..hi], currentTime, e.maxLifeTime))
    ensures RingCongruent(e) ==> RingCongruent(r)
    decreases hi - lo
  {
    if lo == hi then
      ModOnce(e.firstAlive, e.maxParticles);
      e
    else
      var t, l := currentTime, e.maxLifeTime;
      var s := e.particles[lo..hi];
      assert s[1..] == e.particles[lo + 1..hi];
      var x := if Expired(e.particles[lo], t, l) then 1 else 0;
      var e1 := SingleUpdate(e, t, lo);
      ModOnce(e.firstAlive + x, e.maxParticles);
      assert e1 == Retire(e, x);
      RetireTwice(e, x, CountExpired(e.particles[lo + 1..hi], t, l));
      SingleUpdatePreservesRing(e, t, lo);
      Scan(e1, t, lo + 1, hi)
  }

  /** The reclaim pass exactly as the source writes it: three plain `if`s, so
      a later branch tests the indices the earlier branch left behind. */
  function ReclaimAsWritten(e: Emitter, currentTime: real): (r: Emitter)
    requires Shaped(e)
    ensures Shaped(r)
    ensures r.particles == e.particles && r.firstDead == e.firstDead
    ensures r.maxLifeTime == e.maxLifeTime && r.timeBetweenParticles == e.timeBetweenParticles
    ensures r.timeSinceLastEmission == e.timeSinceLastEmission
    ensures e.numAlive <= 0 ==> r == e
    ensures RingCongruent(e) ==> RingCongruent(r)
    ensures r.numAlive <= e.numAlive
  {
    if e.numAlive > 0 then
      var m := e.maxParticles;
      var e1 := if e.firstAlive < e.firstDead then Scan(e, currentTime, e.firstAlive, e.firstDead) else e;
      var e2 := if e1.firstAlive > e1.firstDead
                then Scan(Scan(e1, currentTime, e1.firstAlive, m), currentTime, 0, e1.firstDead)
                else e1;
      if e2.firstAlive == e2.firstDead then Scan(e2, currentTime, 0, m) else e2
    else
      e
  }

  /** The reclaim pass with the three cases made exclusive (`else if`): the
      range scanned is fixed by the indices on entry. */
  function ReclaimPass(e: Emitter, currentTime: real): (r: Emitter)
    requires Shaped(e)
    ensures Shaped(r)
    ensures r.particles == e.particles && r.firstDead == e.firstDead
    ensures r.maxLifeTime == e.maxLifeTime && r.timeBetweenParticles == e.timeBetweenParticles
    ensures r.timeSinceLastEmission == e.timeSinceLastEmission
    ensures e.numAlive <= 0 ==> r == e
  {
    if e.numAlive > 0 then
      var m := e.maxParticles;
      if e.firstAlive < e.firstDead then Scan(e, currentTime, e.firstAlive, e.firstDead)
      else if e.firstAlive > e.firstDead then Scan(Scan(e, currentTime, e.firstAlive, m), currentTime, 0, e.firstDead)
      else Scan(e, currentTime, 0, m)
    else
      e
  }

  /** The slots the pass scans, in scan order, hold exactly the living
      particles (as a count of expired ones): a contiguous range, the tail then
      the head, or the whole array when the buffer is full. */
  lemma ScannedCountsAlive(e: Emitter, currentTime: real)
    requires RingValid(e) && e.numAlive > 0
    ensures var m, t, l := e.maxParticles, currentTime, e.maxLifeTime;
      && (e.firstAlive < e.firstDead ==>
            CountExpired(e.particles[e.firstAlive..e.firstDead], t, l) == CountExpired(AliveView(e), t, l))
      && (e.firstAlive > e.firstDead ==>
            CountExpired(e.particles[e.firstAlive..m], t, l) + CountExpired(e.particles[0..e.firstDead], t, l)
            == CountExpired(AliveView(e), t, l))
      && (e.firstAlive == e.firstDead ==>
            CountExpired(e.particles[0..m], t, l) == CountExpired(AliveView(e), t, l))
  {
    var m, t, l := e.maxParticles, currentTime, e.maxLifeTime;
    AliveViewSlices(e);
    var p := e.particles;
    if e.firstAlive >= e.firstDead {
      assert p[e.firstAlive..m] == p[e.firstAlive..];
      assert p[0..e.firstDead] == p[..e.firstDead];
      CountExpiredAppend(p[e.firstAlive..], p[..e.firstDead], t, l);
      if e.firstAlive == e.firstDead {
        assert p[0..m] == p[..e.firstAlive] + p[e.firstAlive..];
        CountExpiredAppend(p[..e.firstAlive], p[e.firstAlive..], t, l);
      }
    }
  }

  /** The corrected pass keeps the ring invariant for any slot contents, and
      retires exactly the oldest `k` living particles, where `k` is the number
      of living particles that have expired. */
  lemma ReclaimRetiresOldest(e: Emitter, currentTime: real)
    requires RingValid(e)
    ensures var k := CountExpired(AliveView(e), currentTime, e.maxLifeTime);
      && ReclaimPass(e, currentTime) == Retire(e, k)
      && RingValid(ReclaimPass(e, currentTime))
      && ReclaimPass(e, currentTime).numAlive == e.numAlive - k
      && AliveView(ReclaimPass(e, currentTime)) == AliveView(e)[k..]
  {
    var k := CountExpired(AliveView(e), currentTime, e.maxLifeTime);
    if e.numAlive > 0 {
      ScannedCountsAlive(e, currentTime);
      if e.firstAlive > e.firstDead {
        WrappedScanRetires(e, currentTime);
      }
    } else {
      ModOnce(e.firstAlive, e.maxParticles);
    }
    RetireOldest(e, k);
  }

  lemma ReclaimKeepsRing(e: Emitter, currentTime: real)
    requires Shaped(e)
    ensures RingValid(e) ==> RingValid(ReclaimPass(e, currentTime))
  {
    if RingValid(e) { ReclaimRetiresOldest(e, currentTime); }
  }

  /** The two scans of the wrapped case together retire as many particles as
      the tail and the head hold expired ones. */
  lemma WrappedScanRetires(e: Emitter, currentTime: real)
    requires RingValid(e) && e.numAlive > 0 && e.firstAlive > e.firstDead
    ensures ReclaimPass(e, currentTime) == Retire(e, CountExpired(AliveView(e), currentTime, e.maxLifeTime))
  {
    var m, t, l := e.maxParticles, currentTime, e.maxLifeTime;
    ScannedCountsAlive(e, t);
    var k1 := CountExpired(e.particles[e.firstAlive..m], t, l);
    var k2 := CountExpired(e.particles[0..e.firstDead], t, l);
    var e1 := Scan(e, t, e.firstAlive, m);
    assert e1.particles == e.particles;
    RetireTwice(e, k1, k2);
  }

  /** With the living particles in spawn order, the corrected pass retires
      every expired particle and only expired ones. */
  lemma ReclaimRemovesExactlyExpired(e: Emitter, currentTime: real)
    requires RingValid(e) && SpawnOrdered(AliveView(e))
    ensures var r := ReclaimPass(e, currentTime);
      && RingValid(r)
      && (forall i :: 0 <= i < e.numAlive - r.numAlive ==> Expired(AliveView(e)[i], currentTime, e.maxLifeTime))
      && (forall i :: 0 <= i < r.numAlive ==> !Expired(AliveView(r)[i], currentTime, e.maxLifeTime))
  {
    ReclaimRetiresOldest(e, currentTime);
    OrderedExpiredPrefix(AliveView(e), currentTime, e.maxLifeTime);
  }
}

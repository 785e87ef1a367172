/** One particle record (the emitter's `ParticleData`) and facts about
    sequences of particles: which ones have outlived their lifetime, how many,
    and what spawn order implies about them.

    Times are idealised as `real` seconds; the source uses 32-bit floats. */
module Particles {

  /** A 3-component spatial offset (the source's XMFLOAT3). */
  datatype Vec3 = Vec3(x: real, y: real, z: real)

  function Add(a: Vec3, b: Vec3): Vec3 {
    Vec3(a.x + b.x, a.y + b.y, a.z + b.z)
  }

  /** A particle slot: the time it was spawned and its position. */
  datatype Particle = Particle(emitTime: real, position: Vec3)

  /** The fixed nudge `Emit` adds to the position of the slot it writes. */
  const SpawnOffset: Vec3 := Vec3(0.5 * 0.7, 0.8 * 0.7, 0.4 * 0.7)

  /** A particle has expired once its age reaches the emitter's lifetime. */
  predicate Expired(p: Particle, currentTime: real, maxLifeTime: real) {
    currentTime - p.emitTime >= maxLifeTime
  }

  /** How many particles of `s` have expired at `currentTime`. */
  function CountExpired(s: seq<Particle>, currentTime: real, maxLifeTime: real): (n: nat)
    ensures n <= |s|
  {
    if |s| == 0 then 0
    else (if Expired(s[0], currentTime, maxLifeTime) then 1 else 0) + CountExpired(s[1..], currentTime, maxLifeTime)
  }

  /** The count is the length exactly when every particle has expired, and
      zero exactly when none has. */
  lemma {:induction false} CountExpiredExtremes(s: seq<Particle>, currentTime: real, maxLifeTime: real)
    ensures CountExpired(s, currentTime, maxLifeTime) == |s| <==>
      forall i :: 0 <= i < |s| ==> Expired(s[i], currentTime, maxLifeTime)
    ensures CountExpired(s, currentTime, maxLifeTime) == 0 <==>
      forall i :: 0 <= i < |s| ==> !Expired(s[i], currentTime, maxLifeTime)
  {
    if |s| > 0 {
      CountExpiredExtremes(s[1..], currentTime, maxLifeTime);
      assert forall i :: 1 <= i < |s| ==> s[i] == s[1..][i - 1];
    }
  }

  /** Counting distributes over concatenation. */
  lemma {:induction false} CountExpiredAppend(a: seq<Particle>, b: seq<Particle>, currentTime: real, maxLifeTime: real)
    ensures CountExpired(a + b, currentTime, maxLifeTime)
         == CountExpired(a, currentTime, maxLifeTime) + CountExpired(b, currentTime, maxLifeTime)
  {
    if |a| == 0 {
      assert a + b == b;
    } else {
      assert (a + b)[1..] == a[1..] + b;
      CountExpiredAppend(a[1..], b, currentTime, maxLifeTime);
    }
  }

  /** Particles appear in spawn order: emit times never decrease along `s`. */
  predicate SpawnOrdered(s: seq<Particle>) {
    forall i, j :: 0 <= i <= j < |s| ==> s[i].emitTime <= s[j].emitTime
  }

  /** In a spawn-ordered sequence the expired particles are exactly a prefix,
      and its length is the number of expired particles. */
  lemma {:induction false} OrderedExpiredPrefix(s: seq<Particle>, currentTime: real, maxLifeTime: real)
    requires SpawnOrdered(s)
    ensures forall i :: 0 <= i < CountExpired(s, currentTime, maxLifeTime) ==> Expired(s[i], currentTime, maxLifeTime)
    ensures forall i :: CountExpired(s, currentTime, maxLifeTime) <= i < |s| ==> !Expired(s[i], currentTime, maxLifeTime)
  {
    if |s| > 0 {
      var tail := s[1..];
      if Expired(s[0], currentTime, maxLifeTime) {
        OrderedExpiredPrefix(tail, currentTime, maxLifeTime);
        forall i | 1 <= i < |s| ensures s[i] == tail[i - 1] { }
      } else {
        forall i | 0 <= i < |s| ensures !Expired(s[i], currentTime, maxLifeTime) {
          assert s[0].emitTime <= s[i].emitTime;
        }
        CountExpiredExtremes(s, currentTime, maxLifeTime);
      }
    }
  }
}

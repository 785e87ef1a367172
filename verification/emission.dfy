/** The emission pass of `Update`: the catch-up loop that, while the
    accumulator holds more than one interval, calls `Emit` and removes one
    interval. */
module Emission {
  import opened Emitters

  lemma MulPos(x: real, b: real)
    requires x > 0.0 && b > 0.0
    ensures x * b > 0.0
  {
  }

  /** Removing one interval from an accumulator above it lowers the whole
      number of intervals it holds by one; this is what bounds the loop. */
  lemma FloorStep(a: real, b: real)
    requires b > 0.0 && a > b
    ensures (a / b).Floor >= 1
    ensures ((a - b) / b).Floor == (a / b).Floor - 1
  {
    var q, q' := a / b, (a - b) / b;
    assert q * b == a;
    assert q' * b == a - b;
    var x := q' - (q - 1.0);
    assert x * b == 0.0;
    if x > 0.0 { MulPos(x, b); } else if x < 0.0 { MulPos(-x, b); }
    if q <= 1.0 { MulPos(1.0 - q, b); }
  }

  /** How many times the catch-up loop subtracts `interval` from `acc`. */
  function EmissionCount(acc: real, interval: real): (n: nat)
    requires interval > 0.0
    ensures n == 0 <==> acc <= interval
    decreases (acc / interval).Floor
  {
    if acc > interval then
      FloorStep(acc, interval);
      1 + EmissionCount(acc - interval, interval)
    else
      0
  }

  /** What the catch-up loop leaves in the accumulator. */
  function Remainder(acc: real, interval: real): (rem: real)
    requires interval > 0.0
    ensures rem <= interval
    ensures acc >= 0.0 ==> rem >= 0.0
    ensures acc <= interval ==> rem == acc
    decreases EmissionCount(acc, interval)
  {
    if acc > interval then Remainder(acc - interval, interval) else acc
  }

  lemma OneMoreInterval(acc: real, interval: real, n: nat)
    ensures acc - ((1 + n) as real) * interval == (acc - interval) - (n as real) * interval
  {
    assert ((1 + n) as real) * interval == interval + (n as real) * interval;
  }

  /** The loop removes exactly `EmissionCount` whole intervals, leaving a
      remainder in `(0, interval]` whenever it removed any. */
  lemma {:induction false} EmissionCountRemainder(acc: real, interval: real)
    requires interval > 0.0
    ensures var n := EmissionCount(acc, interval);
      && Remainder(acc, interval) == acc - (n as real) * interval
      && (n > 0 ==> Remainder(acc, interval) > 0.0)
    decreases EmissionCount(acc, interval)
  {
    if acc > interval {
      var rest := EmissionCount(acc - interval, interval);
      EmissionCountRemainder(acc - interval, interval);
      OneMoreInterval(acc, interval, rest);
    }
  }

  /** `n` calls of `Emit` at the same clock time. */
  function EmitRepeat(e: Emitter, currentTime: real, n: nat): (r: Emitter)
    requires Shaped(e)
    ensures Shaped(r)
    ensures r.maxParticles == e.maxParticles && r.maxLifeTime == e.maxLifeTime
    ensures r.timeBetweenParticles == e.timeBetweenParticles
    ensures r.timeSinceLastEmission == e.timeSinceLastEmission
    ensures RingValid(e) ==> RingValid(r)
    decreases n
  {
    if n == 0 then e
    else
      EmitPreservesRing(e, currentTime);
      EmitRepeat(Emit(e, currentTime), currentTime, n - 1)
  }

  /** Repeated emission fills free slots until the buffer is full and drops
      the rest: the count saturates at capacity, the particles already alive
      stay first and in order, and every particle added was spawned now. */
  lemma {:induction false} EmitRepeatSaturates(e: Emitter, currentTime: real, n: nat)
    requires RingValid(e)
    ensures var r := EmitRepeat(e, currentTime, n);
      && r.numAlive == (if e.numAlive + n <= e.maxParticles then e.numAlive + n else e.maxParticles)
      && AliveView(r)[..e.numAlive] == AliveView(e)
      && forall i :: e.numAlive <= i < r.numAlive ==> AliveView(r)[i].emitTime == currentTime
    decreases n
  {
    if n > 0 {
      var e1 := Emit(e, currentTime);
      EmitPreservesRing(e, currentTime);
      EmitAppends(e, currentTime);
      EmitRepeatSaturates(e1, currentTime, n - 1);
      var r := EmitRepeat(e1, currentTime, n - 1);
      assert r == EmitRepeat(e, currentTime, n);
      if e.numAlive < e.maxParticles {
        assert AliveView(r)[..e.numAlive] == AliveView(r)[..e1.numAlive][..e.numAlive];
        assert AliveView(e1)[e.numAlive].emitTime == currentTime;
      }
    }
  }

  /** The catch-up loop: while the accumulator holds more than one interval,
      emit at the current time and remove one interval. */
  function EmitLoop(e: Emitter, currentTime: real): (r: Emitter)
    requires Shaped(e)
    ensures Shaped(r)
    ensures r.maxParticles == e.maxParticles && r.maxLifeTime == e.maxLifeTime
    ensures r.timeBetweenParticles == e.timeBetweenParticles
    ensures r.timeSinceLastEmission <= r.timeBetweenParticles
    ensures e.timeSinceLastEmission >= 0.0 ==> r.timeSinceLastEmission >= 0.0
    ensures RingValid(e) ==> RingValid(r)
    ensures RingCongruent(e) ==> RingCongruent(r)
    ensures e.numAlive <= e.maxParticles ==> r.numAlive <= r.maxParticles
    decreases EmissionCount(e.timeSinceLastEmission, e.timeBetweenParticles)
  {
    var acc, interval := e.timeSinceLastEmission, e.timeBetweenParticles;
    if acc > interval then
      EmitPreservesRing(e, currentTime);
      EmitLoop(Emit(e, currentTime).(timeSinceLastEmission := acc - interval), currentTime)
    else
      e
  }

  /** The loop calls `Emit` once per interval it removes from the
      accumulator: it is `EmissionCount` emissions, with the accumulator left
      at its remainder. */
  lemma {:induction false} EmitLoopCatchesUp(e: Emitter, currentTime: real)
    requires Shaped(e)
    ensures var acc, interval := e.timeSinceLastEmission, e.timeBetweenParticles;
      EmitLoop(e, currentTime) ==
        EmitRepeat(e, currentTime, EmissionCount(acc, interval)).(timeSinceLastEmission := Remainder(acc, interval))
    decreases EmissionCount(e.timeSinceLastEmission, e.timeBetweenParticles)
  {
    var acc, interval := e.timeSinceLastEmission, e.timeBetweenParticles;
    if acc > interval {
      var e0 := Emit(e, currentTime);
      var e1 := e0.(timeSinceLastEmission := acc - interval);
      EmitLoopCatchesUp(e1, currentTime);
      var n := EmissionCount(acc, interval);
      EmitRepeatShift(e0, currentTime, n - 1, acc - interval);
      EmitRepeatShift(e0, currentTime, n - 1, Remainder(acc, interval));
    }
  }

  /** Emission never reads the accumulator, so it can be set before or after. */
  lemma {:induction false} EmitRepeatShift(e: Emitter, currentTime: real, n: nat, acc: real)
    requires Shaped(e)
    ensures EmitRepeat(e.(timeSinceLastEmission := acc), currentTime, n)
         == EmitRepeat(e, currentTime, n).(timeSinceLastEmission := acc)
    decreases n
  {
    if n > 0 {
      EmitRepeatShift(Emit(e, currentTime), currentTime, n - 1, acc);
      assert Emit(e.(timeSinceLastEmission := acc), currentTime)
          == Emit(e, currentTime).(timeSinceLastEmission := acc);
    }
  }
}

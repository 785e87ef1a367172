/** `CopyParticlesToGPU`: the living particles are copied into a flat
    destination buffer with at most two block copies. */
module GpuCopy {
  import opened Particles
  import opened Emitters

  datatype Option<T> = None | Some(value: T)

  /** What the copy writes at the start of the destination buffer. When the
      indices do not wrap it copies `numAlive` slots starting at `firstAlive`;
      otherwise slots `[0, firstDead)` followed directly by
      `[firstAlive, maxParticles)`. `None` stands for a first-case copy whose
      size would run outside the slot array (a negative count converted to an
      unsigned size, or more slots than remain after `firstAlive`). */
  function CopyToGpu(e: Emitter): (dest: Option<seq<Particle>>)
    requires Shaped(e)
    ensures dest.None? <==>
      e.firstAlive < e.firstDead && !(0 <= e.numAlive <= e.maxParticles - e.firstAlive)
    ensures dest.Some? ==> |dest.value| <= e.maxParticles
    ensures dest.Some? && e.firstAlive < e.firstDead ==>
      && |dest.value| == e.numAlive
      && forall i :: 0 <= i < e.numAlive ==> dest.value[i] == e.particles[e.firstAlive + i]
    ensures dest.Some? && e.firstAlive >= e.firstDead ==>
      && |dest.value| == e.firstDead + (e.maxParticles - e.firstAlive)
      && (forall i :: 0 <= i < e.firstDead ==> dest.value[i] == e.particles[i])
      && (forall i :: e.firstAlive <= i < e.maxParticles ==>
            dest.value[e.firstDead + (i - e.firstAlive)] == e.particles[i])
  {
    if e.firstAlive < e.firstDead then
      if 0 <= e.numAlive <= e.maxParticles - e.firstAlive then
        Some(e.particles[e.firstAlive..e.firstAlive + e.numAlive])
      else
        None
    else
      Some(e.particles[..e.firstDead] + e.particles[e.firstAlive..])
  }

  /** Under the ring invariant the copy always stays inside the slot array and
      writes exactly the living particles: oldest first when the indices do not
      wrap, and otherwise rotated so the slots at the front of the array come
      first. When the buffer is empty with equal indices it copies every slot,
      though none is alive. */
  lemma CopyHoldsAlive(e: Emitter)
    requires RingValid(e)
    ensures CopyToGpu(e).Some?
    ensures e.firstAlive < e.firstDead ==> CopyToGpu(e).value == AliveView(e)
    ensures e.firstAlive >= e.firstDead && e.numAlive > 0 ==>
      && |CopyToGpu(e).value| == e.numAlive
      && CopyToGpu(e).value == AliveView(e)[e.maxParticles - e.firstAlive..]
                               + AliveView(e)[..e.maxParticles - e.firstAlive]
    ensures e.numAlive > 0 ==> multiset(CopyToGpu(e).value) == multiset(AliveView(e))
    ensures e.numAlive == 0 && e.firstAlive == e.firstDead ==>
      |CopyToGpu(e).value| == e.maxParticles
  {
    RingCount(e);
    AliveViewSlices(e);
    var m, fa, fd := e.maxParticles, e.firstAlive, e.firstDead;
    if fa < fd {
      assert e.particles[fa..fa + e.numAlive] == e.particles[fa..fd];
    } else if e.numAlive > 0 {
      var v := AliveView(e);
      var tail, head := e.particles[fa..], e.particles[..fd];
      assert v == tail + head;
      assert v[m - fa..] == head;
      assert v[..m - fa] == tail;
      assert multiset(head + tail) == multiset(tail + head);
    }
  }
}

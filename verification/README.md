# Particle emitter ring buffer

A Dafny model of the CPU side of the course engine's particle `Emitter`. The
emitter keeps a fixed array of `maxParticles` particle slots and uses it as a
ring buffer:

- `firstAlive` is the oldest living slot;
- `firstDead` is the next slot to write;
- `numAlive` counts the living particles.

Equal indices mean either empty or full, and only `numAlive` tells the two
apart.

Each frame, `Update` runs two passes:

- A reclaim pass scans the living range and retires the oldest particle once
  for every expired slot it sees (`SingleUpdate`).
- A catch-up loop then adds the frame's step to the accumulator
  `timeSinceLastEmission` and, while it holds more than one interval, calls
  `Emit` and removes one interval. `Emit` does nothing when every slot is
  alive.

`CopyParticlesToGPU` flattens the slots into the GPU buffer with one or two
block copies. `CreateParticlesandBuffers` builds a static index buffer with two
triangles per particle quad. `Draw` asks for `numAlive * 6` indices.

The logic exists in two snapshots: `DX11/DX11Starter/Emitter.cpp` (complete)
and `DX11Starter/Emitter.cpp` (earlier, with the same update, emission, copy
and index logic). It is modelled once, and the table cites both.

The model is functional. An `Emitter` is an immutable record, and every
operation returns a new record. Times are `real`. The `seq` of slots stands for
the array.

Modules:

| module | contents |
|---|---|
| `Particles` | the particle record and counts of expired particles |
| `RingArith` | modular arithmetic |
| `Emitters` | the state, the ring invariant, `Create`, `Emit`, `SingleUpdate` |
| `Reclaim` | the reclaim pass, both as written and corrected |
| `Emission` | the catch-up loop |
| `Simulation` | `Update` and runs of frames |
| `GpuCopy` | the copy |
| `IndexBuffer` | the index buffer and the draw count |
| `FallThrough` | the defect in the reclaim pass |
| `Scenarios` | a concrete run |

The key definitions:

- **Ring invariant** (`RingValid`): `0 <= numAlive <= maxParticles` and
  `numAlive ≡ firstDead − firstAlive (mod maxParticles)`.
- **Living particles** (`AliveView`): read oldest-first, starting at
  `firstAlive` and wrapping around the array.

## Model

| member | source | states |
|---|---|---|
| Emitters.Create | DX11/DX11Starter/Emitter.cpp:21-29 | a new emitter has both indices and the count at zero, no living particle, a zero accumulator and an interval equal to one over the rate, and satisfies the ring invariant |
| Emitters.Emit | DX11/DX11Starter/Emitter.cpp:149-173 | with every slot alive nothing changes; otherwise the `firstDead` slot gets the spawn time and its position moved by the fixed offset, `firstDead` advances with wrap-around, the count grows by one, `firstAlive` and every other slot stay as they were |
| Emitters.EmitPreservesRing | DX11/DX11Starter/Emitter.cpp:166-172 | emission keeps the count congruent to `firstDead - firstAlive` and never pushes it past capacity |
| Emitters.EmitAppends | DX11Starter/Emitter.cpp:138-162 | a non-full emission appends exactly the spawned particle to the living particles, oldest-first; a full one leaves them as they were |
| Emitters.SingleUpdate | DX11/DX11Starter/Emitter.cpp:131-147 | the oldest particle is retired (`firstAlive` advances with wrap-around, the count drops by one) if and only if the checked slot's age has reached the lifetime; otherwise the state is unchanged |
| Emitters.SingleUpdatePreservesRing | DX11Starter/Emitter.cpp:120-136 | a single age check keeps the ring congruence, and breaks it only when it was already broken |
| Emitters.RingCount | DX11/DX11Starter/Emitter.cpp:56-80 | under the invariant the indices fix the count: `firstDead - firstAlive` without wrap-around, `maxParticles - firstAlive + firstDead` with it, and zero or capacity when the indices are equal |
| Emitters.AliveViewSlices | DX11/DX11Starter/Emitter.cpp:58-73 | the living particles are the slice `[firstAlive, firstDead)`, or the tail from `firstAlive` followed by the head up to `firstDead` |
| Emitters.RetireTwice | DX11Starter/Emitter.cpp:127-134 | retiring `k1` and then `k2` particles is retiring `k1 + k2`: the wrap-around of `firstAlive` can be taken once at the end |
| Emitters.RetireOldest | DX11/DX11Starter/Emitter.cpp:139-145 | advancing `firstAlive` by `k` around the ring and dropping the count by `k`, for `k` up to the count, keeps the invariant and removes exactly the `k` oldest living particles |
| Reclaim.Scan | DX11/DX11Starter/Emitter.cpp:59-61 | a scan loop retires one particle for each expired slot in its range and changes nothing else, so it keeps the ring congruence |
| Reclaim.ReclaimAsWritten | DX11/DX11Starter/Emitter.cpp:56-80 | the pass exactly as written: it leaves the slots and `firstDead` alone, does nothing unless some particle is alive, never raises the count, and keeps the ring congruence |
| Reclaim.ReclaimPass | DX11Starter/Emitter.cpp:56-80 | the pass with exclusive branches: it leaves the slots and `firstDead` alone and does nothing unless some particle is alive |
| Reclaim.ScannedCountsAlive | DX11/DX11Starter/Emitter.cpp:58-79 | under the invariant each branch's scan range holds exactly as many expired slots as there are expired living particles |
| Reclaim.ReclaimRetiresOldest | DX11/DX11Starter/Emitter.cpp:56-80 | the corrected pass keeps the invariant for any slot contents and is the same as retiring the oldest `k` living particles at once, where `k` counts the expired ones |
| Reclaim.ReclaimKeepsRing | DX11Starter/Emitter.cpp:58-79 | the corrected pass preserves the ring invariant |
| Reclaim.WrappedScanRetires | DX11/DX11Starter/Emitter.cpp:65-73 | the two wrapped-case loops together retire exactly as many of the oldest particles as are expired among the living |
| Reclaim.ReclaimRemovesExactlyExpired | DX11/DX11Starter/Emitter.cpp:55-80 | with the living particles in spawn order, the pass retires every expired particle and no other |
| Emission.EmissionCount | DX11/DX11Starter/Emitter.cpp:87 | the loop runs at least once exactly when the accumulator is strictly above one interval |
| Emission.Remainder | DX11/DX11Starter/Emitter.cpp:87-92 | the accumulator left behind is at most one interval, non-negative when it started so, and untouched when no emission happens |
| Emission.EmissionCountRemainder | DX11Starter/Emitter.cpp:84-92 | the loop removes exactly `EmissionCount` whole intervals, leaving a positive remainder whenever it removed any |
| Emission.EmitRepeat | DX11Starter/Emitter.cpp:87-92 | repeated emission keeps the capacity, lifetime, interval and accumulator, and the ring invariant |
| Emission.EmitRepeatSaturates | DX11/DX11Starter/Emitter.cpp:152-153 | `n` emissions raise the count to `min(maxParticles, numAlive + n)`, keep the living particles first and in order, and spawn the new ones now |
| Emission.EmitLoop | DX11/DX11Starter/Emitter.cpp:84-92 | the catch-up loop ends with the accumulator within one interval (non-negative if it started so), keeps the ring invariant and the ring congruence, and never raises the count above `maxParticles` |
| Emission.EmitLoopCatchesUp | DX11/DX11Starter/Emitter.cpp:87-92 | the loop is exactly `EmissionCount` calls of `Emit`, with the accumulator left at its remainder |
| Simulation.Update | DX11/DX11Starter/Emitter.cpp:46-93 | one frame, with the corrected (else-if) reclaim pass, keeps the slot count, lifetime and interval, leaves the accumulator within one interval, and preserves the ring invariant |
| Simulation.UpdateAsWritten | DX11Starter/Emitter.cpp:46-93 | the frame as written keeps the slot count and interval, leaves the accumulator within one interval, keeps `numAlive` congruent to `firstDead - firstAlive` modulo `maxParticles`, and never raises the count above `maxParticles`; it does not keep `0 <= numAlive` |
| Simulation.ReclaimKeepsSpawnOrder | DX11/DX11Starter/Emitter.cpp:56-80 | the corrected (else-if) reclaim pass keeps the living particles in spawn order |
| Simulation.EmitLoopKeepsSpawnOrder | DX11/DX11Starter/Emitter.cpp:84-92 | the catch-up loop keeps spawn order, since everything it appends is spawned now |
| Simulation.UpdateKeepsSpawnOrder | DX11Starter/Emitter.cpp:46-93 | a frame with the corrected (else-if) reclaim pass, whose clock is no earlier than any living particle's spawn time, keeps spawn order |
| Simulation.Run | DX11/DX11Starter/Emitter.cpp:46-93 | a sequence of frames, each with the corrected (else-if) reclaim pass, keeps the shape and the ring invariant |
| Simulation.RunStaysSteady | DX11/DX11Starter/Emitter.cpp:82-92 | with non-negative steps every run with the corrected (else-if) reclaim pass keeps the invariant and the accumulator within `[0, interval]` |
| Simulation.RunKeepsSpawnOrder | DX11/DX11Starter/Emitter.cpp:46-93 | with a clock that never runs backwards, the living particles stay in spawn order through a run with the corrected (else-if) reclaim pass |
| Simulation.CreatedEmitterRuns | DX11/DX11Starter/Emitter.cpp:11-38 | a new emitter driven by frames with the corrected (else-if) reclaim pass, non-negative steps and a monotone clock keeps `0 <= numAlive <= maxParticles`, the accumulator within one interval, and spawn order |
| GpuCopy.CopyToGpu | DX11/DX11Starter/Emitter.cpp:250-271 | without wrap-around the copy writes `numAlive` slots from `firstAlive`; otherwise it writes `[0, firstDead)` followed directly by `[firstAlive, maxParticles)`; it reads outside the array exactly when an unwrapped count is negative or too large |
| GpuCopy.CopyHoldsAlive | DX11Starter/Emitter.cpp:227-248 | under the invariant the copy stays inside the array. Unwrapped, it writes the living particles oldest-first. Wrapped, it writes exactly `numAlive` of them as a rotation of that order (same multiset). Empty with equal indices, it copies all `maxParticles` slots |
| IndexBuffer.QuadIndices | DX11/DX11Starter/Emitter.cpp:197-207 | the generator loop produces exactly the reference two-triangles-per-quad sequence |
| IndexBuffer.QuadIndexShape | DX11Starter/Emitter.cpp:179-190 | the sequence has `6 * maxParticles` entries and quad `k` is `4k, 4k+1, 4k+2, 4k, 4k+2, 4k+3` |
| IndexBuffer.QuadIndexBounds | DX11/DX11Starter/Emitter.cpp:199-206 | every index is below `4 * maxParticles` |
| IndexBuffer.DrawIndexCount | DX11/DX11Starter/Emitter.cpp:123 | the draw count is `6 * numAlive` taken as a 32-bit unsigned value: exact when that fits, and wrapped to `2^32 + 6 * numAlive` for a negative count |
| IndexBuffer.DrawWithinIndexBuffer | DX11/DX11Starter/Emitter.cpp:193-207 | under the invariant a draw reads no more indices than the buffer holds |
| FallThrough.AsWrittenGoesNegative | DX11/DX11Starter/Emitter.cpp:56-80 | as written, when every living particle expires and the indices differ, the count ends at minus the number of expired slots in the whole array, at or below minus the old count |
| FallThrough.FirstScansRetireAll | DX11/DX11Starter/Emitter.cpp:58-73 | in that case the first or second branch retires everything and leaves equal indices with a zero count, so the third branch runs |
| FallThrough.AsWrittenAgreesOtherwise | DX11Starter/Emitter.cpp:56-80 | in every other case the pass as written agrees with the corrected one |
| FallThrough.UpdateAsWrittenAgreesOtherwise | DX11/DX11Starter/Emitter.cpp:46-93 | in those cases the whole frame as written agrees with the corrected frame |
| FallThrough.SomeSurvivorKeepsIndicesApart | DX11/DX11Starter/Emitter.cpp:58-75 | when some living particle survives, the corrected pass leaves `firstAlive` different from `firstDead` (and still below it when there was no wrap-around), so no later branch fires and the code as written agrees |
| FallThrough.FallThroughExample | DX11/DX11Starter/Emitter.cpp:75-79 | a concrete two-slot run: the corrected frame ends with one living particle, but the code as written ends with a count of -1 and asks `Draw` for `2^32 - 6` indices |
| Scenarios.ReclaimNoneExpired | DX11/DX11Starter/Emitter.cpp:56-80 | with no living particle expired the corrected (else-if) reclaim pass leaves the state unchanged |
| Scenarios.EmitLoopOnce | DX11/DX11Starter/Emitter.cpp:87-92 | an accumulator above one interval but at most two runs the loop exactly once: one `Emit`, one interval removed |
| Scenarios.UpdateSpawnsOne | DX11/DX11Starter/Emitter.cpp:84-92 | a frame with the corrected (else-if) reclaim pass, with nothing expired and an accumulator that crosses one interval exactly once, appends one particle spawned now and keeps `firstAlive` |
| Scenarios.OneSecondSteps | DX11/DX11Starter/Emitter.cpp:87 | four one-second frames as written on a new emitter at one particle per second leave three particles alive, spawned at 2, 3 and 4, because the emission test is strict |

## Left out

- Direct3D work is not modelled: creating buffers and views, `Map`/`Unmap`, the `memcpy` calls as memory operations, the input-assembler setup, shader constants, and `DrawIndexed` as a call. Only the index arithmetic, the copied contents and the draw count are kept.
- The emitter's transform, position and material, and the destructor and array reallocation in `CreateParticlesandBuffers`, carry no ring logic.
- The DX12 emitter is a stub and is not part of this model. So are `Material`, `GameEntity`, `Game` and the headers.
- Floating point is not modelled. Times and positions are `real`, so 32-bit float rounding is not modelled, neither in `1.0f / particlesPerSecond` nor in the accumulator.
- Emitters.Create: requires `maxParticles > 0` and `particlesPerSecond > 0`, which the source never checks. The source's behaviour outside those bounds is left out:
  - a zero rate gives an infinite interval;
  - a negative rate never leaves the catch-up loop;
  - zero slots give an emitter that does nothing on the CPU side. `Emit` returns at once because `numAlive == maxParticles` (line 152), and the reclaim pass never runs because it needs `numAlive > 0`, so neither `%` is ever evaluated. What zero slots affect is buffer creation: both buffers get a `ByteWidth` of 0 (lines 219 and 231), and Direct3D calls are not modelled;
  - a negative slot count fails the array allocations at lines 193 and 197.
- The slot array is allocated but never cleared, because the zeroing at DX11/DX11Starter/Emitter.cpp:194 is commented out. `Create` therefore takes the initial slot contents as a parameter, and every property holds for any contents.
- IndexBuffer.QuadIndices: requires `maxParticles >= 0`; for a negative count the source's `new unsigned int[maxParticles * 6]` fails. The 32-bit overflow of `maxParticles * 4` and `maxParticles * 6` in the generator is not modelled.
- IndexBuffer.DrawWithinIndexBuffer: requires `6 * maxParticles < 2^31`. The products `maxParticles * 6` (line 197) and `numAlive * 6` (line 123) are signed 32-bit `int`, so they are defined only in that range.
- GpuCopy.CopyToGpu: describes only the slots written at the start of the destination; the rest of the discarded mapping is unspecified. An out-of-range read, undefined behaviour in the source, becomes `None`.
- Simulation.Update, Simulation.Run and the run lemmas (RunStaysSteady, UpdateKeepsSpawnOrder, RunKeepsSpawnOrder, CreatedEmitterRuns) use the corrected (else-if) reclaim pass. So do Simulation.ReclaimKeepsSpawnOrder, Scenarios.ReclaimNoneExpired and Scenarios.UpdateSpawnsOne. For the code as written, a frame keeps the ring congruence and the bound `numAlive <= maxParticles` (`Simulation.UpdateAsWritten`), but not the lower bound `0 <= numAlive`: `FallThrough.FallThroughExample` starts from `Create` and reaches `numAlive == -1`. The frame as written is the corrected frame except when every living particle expires while the indices differ (`FallThrough.UpdateAsWrittenAgreesOtherwise`). Only `Simulation.UpdateAsWritten`, the lemmas of `FallThrough` and `Scenarios.OneSecondSteps` speak about the code as written.
- Two behaviours of the code that a reader might not expect:
  - The wrapped copy is not oldest-first. It writes `[0, firstDead)` before `[firstAlive, maxParticles)`, a rotation of the living particles (`GpuCopy.CopyHoldsAlive`).
  - The emission test is strict. A step that brings the accumulator to exactly one interval spawns nothing, so four one-second steps at one particle per second leave three particles, not four (`Scenarios.OneSecondSteps`).
- The earlier snapshot's `Draw` has no draw call, so the draw count cites only the complete snapshot.

## Findings

| source | as written | input that shows it | evidently intended | confidence | as-written member | corrected member |
|---|---|---|---|---|---|---|
| DX11/DX11Starter/Emitter.cpp:56-80 (same in DX11Starter/Emitter.cpp:56-80) | the three reclaim branches are plain `if`s. When the first or second branch retires every living particle, the indices become equal, so the third branch rescans all slots, including stale ones and ones never written, and drives `numAlive` negative. `Draw` then asks for about 2^32 indices | two slots, lifetime 0.5, one particle per second, slots zeroed; `Update(1.5, 1.5)` then `Update(1.0, 2.5)` ends with `numAlive == -1` and a draw count of 2^32 − 6 | `else if`: the branch is chosen by the indices on entry, and the pass retires exactly the expired living particles | not executed | FallThrough.AsWrittenGoesNegative (with Reclaim.ReclaimAsWritten and FallThrough.FallThroughExample) | Reclaim.ReclaimRetiresOldest (about Reclaim.ReclaimPass, which Simulation.Update uses) |

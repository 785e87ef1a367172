/** The particle index buffer: two triangles per particle quad, built once
    when the emitter creates its buffers, and the index count each draw uses. */
module IndexBuffer {
  import opened Emitters

  /** Corner of quad `q` used by position `c` of its six indices: triangles
      (0, 1, 2) and (0, 2, 3). */
  function Corner(c: int): int
    requires 0 <= c < 6
  {
    [0, 1, 2, 0, 2, 3][c]
  }

  /** The index buffer as a reference sequence: entry `j` belongs to quad
      `j / 6` and names one of its four vertices. */
  function QuadIndexSeq(maxParticles: nat): seq<int> {
    seq(6 * maxParticles, j requires 0 <= j < 6 * maxParticles => 4 * (j / 6) + Corner(j % 6))
  }

  /** The generator loop: `i` steps through the first vertex of every quad
      and six indices are appended per quad. */
  method QuadIndices(maxParticles: int) returns (indices: seq<int>)
    requires maxParticles >= 0
    ensures indices == QuadIndexSeq(maxParticles)
  {
    indices := [];
    var i := 0;
    while i < maxParticles * 4
      invariant 0 <= i <= maxParticles * 4 && i % 4 == 0
      invariant |indices| == 6 * (i / 4)
      invariant forall j :: 0 <= j < |indices| ==> indices[j] == 4 * (j / 6) + Corner(j % 6)
    {
      indices := indices + [i, i + 1, i + 2, i, i + 2, i + 3];
      i := i + 4;
    }
  }

  lemma QuadEntry(maxParticles: nat, k: int, c: int)
    requires 0 <= k < maxParticles && 0 <= c < 6
    ensures 6 * k + c < 6 * maxParticles
    ensures QuadIndexSeq(maxParticles)[6 * k + c] == 4 * k + Corner(c)
  {
    assert (6 * k + c) / 6 == k && (6 * k + c) % 6 == c;
  }

  /** Quad `k` occupies entries `6k .. 6k+5` as `4k, 4k+1, 4k+2, 4k, 4k+2,
      4k+3`. */
  lemma QuadIndexShape(maxParticles: nat, k: int)
    requires 0 <= k < maxParticles
    ensures |QuadIndexSeq(maxParticles)| == 6 * maxParticles
    ensures QuadIndexSeq(maxParticles)[6 * k..6 * k + 6]
         == [4 * k, 4 * k + 1, 4 * k + 2, 4 * k, 4 * k + 2, 4 * k + 3]
  {
    var s := QuadIndexSeq(maxParticles);
    QuadEntry(maxParticles, k, 0);
    QuadEntry(maxParticles, k, 1);
    QuadEntry(maxParticles, k, 2);
    QuadEntry(maxParticles, k, 3);
    QuadEntry(maxParticles, k, 4);
    QuadEntry(maxParticles, k, 5);
  }

  /** Every index names one of the `4 * maxParticles` quad vertices. */
  lemma QuadIndexBounds(maxParticles: nat)
    ensures forall j :: 0 <= j < 6 * maxParticles ==> 0 <= QuadIndexSeq(maxParticles)[j] < 4 * maxParticles
  {
    forall j | 0 <= j < 6 * maxParticles ensures 0 <= QuadIndexSeq(maxParticles)[j] < 4 * maxParticles {
      QuadEntry(maxParticles, j / 6, j % 6);
    }
  }

  /** The index count `Draw` passes on: `numAlive * 6`, converted to the
      32-bit unsigned count the draw call takes. */
  function DrawIndexCount(e: Emitter): (n: int)
    ensures 0 <= n < 0x1_0000_0000
    ensures 0 <= e.numAlive && 6 * e.numAlive < 0x1_0000_0000 ==> n == 6 * e.numAlive
    ensures e.numAlive < 0 && -6 * e.numAlive <= 0x1_0000_0000 ==> n == 0x1_0000_0000 + 6 * e.numAlive
  {
    (e.numAlive * 6) % 0x1_0000_0000
  }

  /** Under the ring invariant each draw reads no more indices than the
      buffer holds. */
  lemma DrawWithinIndexBuffer(e: Emitter)
    requires RingValid(e) && 6 * e.maxParticles < 0x8000_0000
    ensures DrawIndexCount(e) == 6 * e.numAlive
    ensures DrawIndexCount(e) <= |QuadIndexSeq(e.maxParticles)|
  {
  }
}

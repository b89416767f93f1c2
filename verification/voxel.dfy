/** The voxel example: a chunk of voxels built by a triple loop in row-major
    order, and the closed-form formula that finds a voxel's place in it.

    Coordinates are `nat`: the `u32` width of the example (and the overflow
    of `size.x * size.y * size.z`) is not modelled.
 */
module Voxels {
  import opened Vectors

  datatype Voxel = Voxel(position: Vector3<nat>)

  datatype VoxelChunk = VoxelChunk(voxels: seq<Voxel>, size: Vector3<nat>)

  /** The number of voxels in a chunk of the given size. */
  function Volume(size: Vector3<nat>): nat {
    size.x * size.y * size.z
  }

  /** Every coordinate of `p` is below the chunk's size in that axis. */
  predicate InBounds(size: Vector3<nat>, p: Vector3<nat>) {
    p.x < size.x && p.y < size.y && p.z < size.z
  }

  /** `position_as_index`: `z + y * size.z + x * size.z * size.y`. An
      in-bounds position indexes inside the chunk. */
  function PositionAsIndex(size: Vector3<nat>, p: Vector3<nat>): (r: nat)
    ensures InBounds(size, p) ==> r < Volume(size)
  {
    var u := p.y + size.y * p.x;
    if InBounds(size, p) then
      DigitBound(p.y, p.x, size.y, size.x);
      DigitBound(p.z, u, size.z, size.y * size.x);
      VolumeAsProduct(size);
      Regroup(p.x, p.y, p.z, size.y, size.z);
      p.z + p.y * size.z + p.x * size.z * size.y
    else
      p.z + p.y * size.z + p.x * size.z * size.y
  }

  /** The inverse reading of an index as a position: z is the fastest-moving
      coordinate, then y, then x. */
  function IndexAsPosition(size: Vector3<nat>, i: nat): (p: Vector3<nat>)
    requires size.y > 0 && size.z > 0
  {
    Vector3((i / size.z) / size.y, (i / size.z) % size.y, i % size.z)
  }

  // ---------------------------------------------------------------------------
  // Mixed-radix arithmetic behind the index formula.

  lemma MulMonotone(n: nat, b: nat, d: nat)
    requires b <= d
    ensures n * b <= n * d
  {
  }

  /** A digit below the radix plus the radix times a number below `m` stays
      below `n * m`. */
  lemma DigitBound(a: nat, b: nat, n: nat, m: nat)
    requires a < n && b < m
    ensures a + n * b < n * m
  {
    MulMonotone(n, b + 1, m);
  }

  /** Writing a number `t` as `a + n * b` with `a < n` is unique. */
  lemma DigitUnique(t: nat, a: nat, b: nat, c: nat, d: nat, n: nat)
    requires a < n && c < n
    requires t == a + n * b && t == c + n * d
    ensures a == c && b == d
  {
    if b < d {
      MulMonotone(n, b + 1, d);
    } else if d < b {
      MulMonotone(n, d + 1, b);
    }
  }

  /** `a + n * b` has digit `a` and quotient `b` under Euclidean division by `n`. */
  lemma DigitSplit(i: nat, n: nat)
    requires n > 0
    ensures i == i % n + n * (i / n) && i % n < n
  {
  }

  /** The index formula, regrouped as nested mixed-radix digits. */
  lemma Regroup(x: nat, y: nat, z: nat, sy: nat, sz: nat)
    ensures z + y * sz + x * sz * sy == z + sz * (y + sy * x)
  {
    calc {
      z + y * sz + x * sz * sy;
      z + sz * y + sz * (sy * x);
      z + sz * (y + sy * x);
    }
  }

  lemma IndexAsDigits(size: Vector3<nat>, p: Vector3<nat>)
    ensures PositionAsIndex(size, p) == p.z + size.z * (p.y + size.y * p.x)
  {
    Regroup(p.x, p.y, p.z, size.y, size.z);
  }

  lemma VolumeAsProduct(size: Vector3<nat>)
    ensures Volume(size) == size.z * (size.y * size.x)
  {
  }

  // ---------------------------------------------------------------------------
  // Properties of the index formula.

  /** The digits of `a + n * b`, for a digit `a < n`, are `a` and `b`. */
  lemma DigitsOf(t: nat, a: nat, b: nat, n: nat)
    requires a < n && t == a + n * b
    ensures t % n == a && t / n == b
  {
    DigitSplit(t, n);
    DigitUnique(t, t % n, t / n, a, b, n);
  }

  /** Every in-bounds position is read back from its index. */
  lemma PositionToIndexToPosition(size: Vector3<nat>, p: Vector3<nat>)
    requires InBounds(size, p)
    ensures size.y > 0 && size.z > 0
    ensures IndexAsPosition(size, PositionAsIndex(size, p)) == p
  {
    var u := p.y + size.y * p.x;
    IndexAsDigits(size, p);
    DigitsOf(PositionAsIndex(size, p), p.z, u, size.z);
    DigitsOf(u, p.y, p.x, size.y);
  }

  /** Distinct in-bounds positions have distinct indices. */
  lemma IndexInjective(size: Vector3<nat>, p: Vector3<nat>, q: Vector3<nat>)
    requires InBounds(size, p) && InBounds(size, q)
    requires PositionAsIndex(size, p) == PositionAsIndex(size, q)
    ensures p == q
  {
    PositionToIndexToPosition(size, p);
    PositionToIndexToPosition(size, q);
  }

  /** Every index inside the chunk reads back as an in-bounds position with
      that index. */
  lemma IndexToPositionToIndex(size: Vector3<nat>, i: nat)
    requires size.y > 0 && size.z > 0
    requires i < Volume(size)
    ensures InBounds(size, IndexAsPosition(size, i))
    ensures PositionAsIndex(size, IndexAsPosition(size, i)) == i
  {
    var q := IndexAsPosition(size, i);
    DigitSplit(i, size.z);
    DigitSplit(i / size.z, size.y);
    assert i == q.z + size.z * (q.y + size.y * q.x);
    IndexAsDigits(size, q);
    VolumeAsProduct(size);
    if q.x >= size.x {
      MulMonotone(size.y, size.x, q.x);
      MulMonotone(size.z, size.y * size.x, q.y + size.y * q.x);
    }
  }

  // ---------------------------------------------------------------------------
  // The chunk.

  /** A chunk as `new` leaves it: one voxel per in-bounds position, and the
      voxel stored at index i is the one whose position has index i. */
  ghost predicate WellFormed(chunk: VoxelChunk) {
    && |chunk.voxels| == Volume(chunk.size)
    && forall i :: 0 <= i < |chunk.voxels| ==>
         && InBounds(chunk.size, chunk.voxels[i].position)
         && PositionAsIndex(chunk.size, chunk.voxels[i].position) == i
  }

  /** `VoxelChunk::new(size)`: for x, then y, then z, each from 0 up to the
      size in that axis, push the voxel at (x, y, z). */
  method NewChunk(size: Vector3<nat>) returns (chunk: VoxelChunk)
    ensures chunk.size == size
    ensures |chunk.voxels| == Volume(size)
    ensures forall i :: 0 <= i < |chunk.voxels| ==>
              && InBounds(size, chunk.voxels[i].position)
              && PositionAsIndex(size, chunk.voxels[i].position) == i
  {
    var voxels: seq<Voxel> := [];
    for x := 0 to size.x
      invariant |voxels| == PositionAsIndex(size, Vector3(x, 0, 0))
      invariant forall i :: 0 <= i < |voxels| ==>
                  && InBounds(size, voxels[i].position)
                  && PositionAsIndex(size, voxels[i].position) == i
    {
      for y := 0 to size.y
        invariant |voxels| == PositionAsIndex(size, Vector3(x, y, 0))
        invariant forall i :: 0 <= i < |voxels| ==>
                    && InBounds(size, voxels[i].position)
                    && PositionAsIndex(size, voxels[i].position) == i
      {
        for z := 0 to size.z
          invariant |voxels| == PositionAsIndex(size, Vector3(x, y, z))
          invariant forall i :: 0 <= i < |voxels| ==>
                      && InBounds(size, voxels[i].position)
                      && PositionAsIndex(size, voxels[i].position) == i
        {
          voxels := voxels + [Voxel(Vector3(x, y, z))];
        }
        NextRow(size, x, y);
      }
      NextLayer(size, x);
    }
    LastLayer(size);
    chunk := VoxelChunk(voxels, size);
  }

  /** The index after the last voxel of row y is the first of row y + 1. */
  lemma NextRow(size: Vector3<nat>, x: nat, y: nat)
    ensures PositionAsIndex(size, Vector3(x, y + 1, 0)) == PositionAsIndex(size, Vector3(x, y, size.z))
  {
    assert (y + 1) * size.z == y * size.z + size.z;
  }

  /** The index after the last voxel of layer x is the first of layer x + 1. */
  lemma NextLayer(size: Vector3<nat>, x: nat)
    ensures PositionAsIndex(size, Vector3(x + 1, 0, 0)) == PositionAsIndex(size, Vector3(x, size.y, 0))
  {
    assert (x + 1) * size.z * size.y == x * size.z * size.y + size.z * size.y;
  }

  /** The index after the last layer is the volume. */
  lemma LastLayer(size: Vector3<nat>)
    ensures PositionAsIndex(size, Vector3(size.x, 0, 0)) == Volume(size)
  {
  }

  /** `chunk[position]`: the voxel stored at `position_as_index(size, position)`.
      Past the end of the voxel list the source panics; before it, a chunk
      built by `new` returns the voxel at exactly that position. */
  function Index(chunk: VoxelChunk, p: Vector3<nat>): (r: Voxel)
    requires PositionAsIndex(chunk.size, p) < |chunk.voxels|
    ensures WellFormed(chunk) && InBounds(chunk.size, p) ==> r.position == p
  {
    ChunkLookup(chunk, p);
    chunk.voxels[PositionAsIndex(chunk.size, p)]
  }

  /** In a well-formed chunk the voxel at an in-bounds position's index has
      that position. */
  lemma ChunkLookup(chunk: VoxelChunk, p: Vector3<nat>)
    requires PositionAsIndex(chunk.size, p) < |chunk.voxels|
    ensures WellFormed(chunk) && InBounds(chunk.size, p) ==>
              chunk.voxels[PositionAsIndex(chunk.size, p)].position == p
  {
    if WellFormed(chunk) && InBounds(chunk.size, p) {
      IndexInjective(chunk.size, p, chunk.voxels[PositionAsIndex(chunk.size, p)].position);
    }
  }

  /** The example's `main`: in a chunk of size (8, 16, 8), the voxel found at
      (4, 8, 4) has position (4, 8, 4). */
  method LookupExample() returns (found: Vector3<nat>)
    ensures found == Vector3(4, 8, 4)
  {
    var size: Vector3<nat> := Vector3(8, 16, 8);
    var chunk := NewChunk(size);
    var position: Vector3<nat> := Vector3(4, 8, 4);
    found := Index(chunk, position).position;
  }
}

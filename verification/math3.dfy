/**
 * The three-dimensional value helpers: vectors and quaternions as host objects,
 * their native copies, and the optional-target, zero-allocation read contract.
 * Native copies live in stores of their own; a freed copy is `None`, so a read
 * after `free()` is a call no caller can make.
 */
module Math3 {
  import opened Wrappers
  import opened Components
  import opened ObjectStore

  /** Native copies handed across the boundary. */
  datatype RawVector = RawVector(x: real, y: real, z: real)
  datatype RawRotation = RawRotation(x: real, y: real, z: real, w: real)

  /**
   * Host objects (`Vector3` and `Quaternion` instances) and the native copies
   * (`RawVector` and `RawRotation`), the latter `None` once freed.
   */
  datatype Heap = Heap(
    vectors: seq<Vec3>, rotations: seq<Quat>,
    rawVectors: seq<Option<RawVector>>, rawRotations: seq<Option<RawRotation>>)

  /** An absent raw object, or one that is allocated and not yet freed. */
  ghost predicate LiveRawVector(heap: Heap, raw: Option<Ref>)
  {
    raw.Some? ==> raw.value < |heap.rawVectors| && heap.rawVectors[raw.value].Some?
  }

  ghost predicate LiveRawRotation(heap: Heap, raw: Option<Ref>)
  {
    raw.Some? ==> raw.value < |heap.rawRotations| && heap.rawRotations[raw.value].Some?
  }

  ghost predicate VectorRef(heap: Heap, t: Option<Ref>)
  {
    t.Some? ==> t.value < |heap.vectors|
  }

  ghost predicate RotationRef(heap: Heap, t: Option<Ref>)
  {
    t.Some? ==> t.value < |heap.rotations|
  }

  // ---------------------------------------------------------------------------
  // VectorOps

  /** `VectorOps.new`: a fresh vector object with the given components. */
  function NewVector(heap: Heap, x: real, y: real, z: real): (r: (Heap, Ref))
    ensures r.1 == |heap.vectors| && r.0.vectors == heap.vectors + [Vec3(x, y, z)]
    ensures r.0.rotations == heap.rotations
    ensures r.0.rawVectors == heap.rawVectors && r.0.rawRotations == heap.rawRotations
  {
    var (vs, v) := Alloc(heap.vectors, Vec3(x, y, z));
    (heap.(vectors := vs), v)
  }

  /** `VectorOps.zeros`: a fresh vector at the origin. */
  function Zeros(heap: Heap): (r: (Heap, Ref))
    ensures r.1 == |heap.vectors| && |r.0.vectors| == |heap.vectors| + 1
    ensures r.0.vectors[r.1] == Vec3(0.0, 0.0, 0.0)
    ensures r.0.vectors[..|heap.vectors|] == heap.vectors && r.0.rotations == heap.rotations
    ensures r.0.rawVectors == heap.rawVectors && r.0.rawRotations == heap.rawRotations
  {
    NewVector(heap, 0.0, 0.0, 0.0)
  }

  /** `VectorOps.intoRaw`: a newly allocated native copy of a vector's components. */
  function IntoRawVector(heap: Heap, v: Vec3): (r: (Heap, Ref))
    ensures r.1 == |heap.rawVectors| && r.0.rawVectors == heap.rawVectors + [Some(RawVector(v.x, v.y, v.z))]
    ensures r.0.vectors == heap.vectors && r.0.rotations == heap.rotations && r.0.rawRotations == heap.rawRotations
  {
    var (rs, q) := Alloc(heap.rawVectors, Some(RawVector(v.x, v.y, v.z)));
    (heap.(rawVectors := rs), q)
  }

  /**
   * The target, or a fresh zero vector when none is given (`target ??= zeros()`),
   * then overwritten with `value`.
   */
  function FillVector(heap: Heap, value: Vec3, target: Option<Ref>): (r: (Heap, Ref))
    requires VectorRef(heap, target)
  {
    var (h1, t) := if target.Some? then (heap, target.value) else Zeros(heap);
    (h1.(vectors := Write(h1.vectors, t, value)), t)
  }

  /**
   * `VectorOps.fromRaw`: `None` exactly when `raw` is absent; otherwise the supplied
   * target itself (or one fresh vector) holding the raw components. The raw copy is
   * freed, so it cannot be read again; no other object changes.
   */
  function VectorFromRaw(heap: Heap, raw: Option<Ref>, target: Option<Ref>): (r: (Heap, Option<Ref>))
    requires VectorRef(heap, target) && LiveRawVector(heap, raw)
    ensures raw.None? <==> r.1.None?
    ensures raw.None? ==> r.0 == heap
    ensures raw.Some? && target.Some? ==> r.1 == target && |r.0.vectors| == |heap.vectors|
    ensures raw.Some? && target.None? ==> r.1 == Some(|heap.vectors|) && |r.0.vectors| == |heap.vectors| + 1
    ensures raw.Some? ==>
      var rv := heap.rawVectors[raw.value].value;
      r.0.vectors[r.1.value] == Vec3(rv.x, rv.y, rv.z)
    ensures forall q :: 0 <= q < |heap.vectors| && Some(q) != r.1 ==> r.0.vectors[q] == heap.vectors[q]
    ensures raw.Some? ==> r.0.rawVectors == heap.rawVectors[raw.value := None] && !LiveRawVector(r.0, raw)
    ensures r.0.rotations == heap.rotations && r.0.rawRotations == heap.rawRotations
  {
    match raw
    case None => (heap, None)
    case Some(q) =>
      var rv := heap.rawVectors[q].value;
      var (h, t) := FillVector(heap, Vec3(rv.x, rv.y, rv.z), target);
      (h.(rawVectors := Write(h.rawVectors, q, None)), Some(t))
  }

  /** `VectorOps.copy`: `out` takes the components of `input`; nothing else changes. */
  function CopyVector(heap: Heap, out: Ref, input: Ref): (h: Heap)
    requires out < |heap.vectors| && input < |heap.vectors|
    ensures |h.vectors| == |heap.vectors| && h.rotations == heap.rotations
    ensures h.rawVectors == heap.rawVectors && h.rawRotations == heap.rawRotations
    ensures h.vectors[out] == heap.vectors[input]
    ensures h.vectors[input] == heap.vectors[input]
    ensures forall q :: 0 <= q < |heap.vectors| && q != out ==> h.vectors[q] == heap.vectors[q]
  {
    heap.(vectors := Write(heap.vectors, out, heap.vectors[input]))
  }

  /**
   * `VectorOps.fromBuffer`: the target itself (or one fresh vector) holding the
   * first three scalars of `buffer`.
   */
  function VectorFromBuffer(heap: Heap, buffer: seq<real>, target: Option<Ref>): (r: (Heap, Ref))
    requires |buffer| >= 3
    requires VectorRef(heap, target)
    ensures target.Some? ==> r.1 == target.value && |r.0.vectors| == |heap.vectors|
    ensures target.None? ==> r.1 == |heap.vectors| && |r.0.vectors| == |heap.vectors| + 1
    ensures r.0.vectors[r.1] == Vec3(buffer[0], buffer[1], buffer[2])
    ensures forall q :: 0 <= q < |heap.vectors| && q != r.1 ==> r.0.vectors[q] == heap.vectors[q]
    ensures r.0.rotations == heap.rotations
    ensures r.0.rawVectors == heap.rawVectors && r.0.rawRotations == heap.rawRotations
  {
    FillVector(heap, Vec3(buffer[0], buffer[1], buffer[2]), target)
  }

  /**
   * Converting a vector to its native copy and back yields the same components, and
   * the native copy is freed again: the round trip leaks no native object.
   */
  lemma VectorRawRoundTrip(heap: Heap, v: Vec3, target: Option<Ref>)
    requires VectorRef(heap, target)
    ensures var (h1, raw) := IntoRawVector(heap, v);
      var r := VectorFromRaw(h1, Some(raw), target);
      && r.1.Some? && r.0.vectors[r.1.value] == v
      && r.0.rawVectors == heap.rawVectors + [None]
  {
  }

  // ---------------------------------------------------------------------------
  // RotationOps

  /** `RotationOps.identity`: a fresh quaternion (0, 0, 0, 1). */
  function Identity(heap: Heap): (r: (Heap, Ref))
    ensures r.1 == |heap.rotations| && |r.0.rotations| == |heap.rotations| + 1
    ensures r.0.rotations[r.1] == Quat(0.0, 0.0, 0.0, 1.0)
    ensures r.0.rotations[..|heap.rotations|] == heap.rotations && r.0.vectors == heap.vectors
    ensures r.0.rawVectors == heap.rawVectors && r.0.rawRotations == heap.rawRotations
  {
    var (rs, q) := Alloc(heap.rotations, Quat(0.0, 0.0, 0.0, 1.0));
    (heap.(rotations := rs), q)
  }

  /** `RotationOps.intoRaw`: a newly allocated native copy of a quaternion. */
  function IntoRawRotation(heap: Heap, q: Quat): (r: (Heap, Ref))
    ensures r.1 == |heap.rawRotations| && r.0.rawRotations == heap.rawRotations + [Some(RawRotation(q.x, q.y, q.z, q.w))]
    ensures r.0.vectors == heap.vectors && r.0.rotations == heap.rotations && r.0.rawVectors == heap.rawVectors
  {
    var (rs, k) := Alloc(heap.rawRotations, Some(RawRotation(q.x, q.y, q.z, q.w)));
    (heap.(rawRotations := rs), k)
  }

  /** The target, or a fresh identity quaternion, then overwritten with `value`. */
  function FillRotation(heap: Heap, value: Quat, target: Option<Ref>): (r: (Heap, Ref))
    requires RotationRef(heap, target)
  {
    var (h1, t) := if target.Some? then (heap, target.value) else Identity(heap);
    (h1.(rotations := Write(h1.rotations, t, value)), t)
  }

  /**
   * `RotationOps.fromRaw`: `None` exactly when `raw` is absent; otherwise the target
   * itself (or one fresh quaternion) holding x, y, z, w of the raw rotation, which
   * is then freed.
   */
  function RotationFromRaw(heap: Heap, raw: Option<Ref>, target: Option<Ref>): (r: (Heap, Option<Ref>))
    requires RotationRef(heap, target) && LiveRawRotation(heap, raw)
    ensures raw.None? <==> r.1.None?
    ensures raw.None? ==> r.0 == heap
    ensures raw.Some? && target.Some? ==> r.1 == target && |r.0.rotations| == |heap.rotations|
    ensures raw.Some? && target.None? ==> r.1 == Some(|heap.rotations|) && |r.0.rotations| == |heap.rotations| + 1
    ensures raw.Some? ==>
      var rr := heap.rawRotations[raw.value].value;
      r.0.rotations[r.1.value] == Quat(rr.x, rr.y, rr.z, rr.w)
    ensures forall q :: 0 <= q < |heap.rotations| && Some(q) != r.1 ==> r.0.rotations[q] == heap.rotations[q]
    ensures raw.Some? ==> r.0.rawRotations == heap.rawRotations[raw.value := None] && !LiveRawRotation(r.0, raw)
    ensures r.0.vectors == heap.vectors && r.0.rawVectors == heap.rawVectors
  {
    match raw
    case None => (heap, None)
    case Some(k) =>
      var rr := heap.rawRotations[k].value;
      var (h, t) := FillRotation(heap, Quat(rr.x, rr.y, rr.z, rr.w), target);
      (h.(rawRotations := Write(h.rawRotations, k, None)), Some(t))
  }

  /** `RotationOps.copy`. */
  function CopyRotation(heap: Heap, out: Ref, input: Ref): (h: Heap)
    requires out < |heap.rotations| && input < |heap.rotations|
    ensures |h.rotations| == |heap.rotations| && h.vectors == heap.vectors
    ensures h.rawVectors == heap.rawVectors && h.rawRotations == heap.rawRotations
    ensures h.rotations[out] == heap.rotations[input]
    ensures h.rotations[input] == heap.rotations[input]
    ensures forall q :: 0 <= q < |heap.rotations| && q != out ==> h.rotations[q] == heap.rotations[q]
  {
    heap.(rotations := Write(heap.rotations, out, heap.rotations[input]))
  }

  /** `RotationOps.fromBuffer`: x, y, z, w from the first four scalars of `buffer`. */
  function RotationFromBuffer(heap: Heap, buffer: seq<real>, target: Option<Ref>): (r: (Heap, Ref))
    requires |buffer| >= 4
    requires RotationRef(heap, target)
    ensures target.Some? ==> r.1 == target.value && |r.0.rotations| == |heap.rotations|
    ensures target.None? ==> r.1 == |heap.rotations| && |r.0.rotations| == |heap.rotations| + 1
    ensures r.0.rotations[r.1] == Quat(buffer[0], buffer[1], buffer[2], buffer[3])
    ensures forall q :: 0 <= q < |heap.rotations| && q != r.1 ==> r.0.rotations[q] == heap.rotations[q]
    ensures r.0.vectors == heap.vectors
    ensures r.0.rawVectors == heap.rawVectors && r.0.rawRotations == heap.rawRotations
  {
    FillRotation(heap, Quat(buffer[0], buffer[1], buffer[2], buffer[3]), target)
  }

  /** A quaternion survives the trip through its native copy, and the copy is freed. */
  lemma RotationRawRoundTrip(heap: Heap, q: Quat, target: Option<Ref>)
    requires RotationRef(heap, target)
    ensures var (h1, raw) := IntoRawRotation(heap, q);
      var r := RotationFromRaw(h1, Some(raw), target);
      && r.1.Some? && r.0.rotations[r.1.value] == q
      && r.0.rawRotations == heap.rawRotations + [None]
  {
  }

  /**
   * Reading many buffers into one target, as a hot loop does: the same object
   * comes back every time and the heap never grows.
   */
  lemma {:induction false} ReuseAllocatesNothing(heap: Heap, buffers: seq<seq<real>>, t: Ref)
    requires t < |heap.vectors|
    requires forall k :: 0 <= k < |buffers| ==> |buffers[k]| >= 3
    ensures |ReadAll(heap, buffers, t).vectors| == |heap.vectors|
    ensures |buffers| > 0 ==>
      (var last := buffers[|buffers| - 1]; ReadAll(heap, buffers, t).vectors[t] == Vec3(last[0], last[1], last[2]))
    decreases |buffers|
  {
    if |buffers| > 0 {
      var (h1, r) := VectorFromBuffer(heap, buffers[0], Some(t));
      ReuseAllocatesNothing(h1, buffers[1..], t);
      if |buffers| > 1 {
        assert buffers[1..][|buffers[1..]| - 1] == buffers[|buffers| - 1];
      }
    }
  }

  function ReadAll(heap: Heap, buffers: seq<seq<real>>, t: Ref): Heap
    requires t < |heap.vectors|
    requires forall k :: 0 <= k < |buffers| ==> |buffers[k]| >= 3
    decreases |buffers|
  {
    if |buffers| == 0 then heap
    else
      var (h1, r) := VectorFromBuffer(heap, buffers[0], Some(t));
      ReadAll(h1, buffers[1..], r)
  }

  // ---------------------------------------------------------------------------
  // SdpMatrix3

  /** A symmetric 3x3 matrix stored as its upper triangle, row major. */
  datatype SdpMatrix3 = SdpMatrix3(elements: seq<real>)

  /** Reading a typed-array element; `None` is JavaScript's `undefined` past the end. */
  function Element(m: SdpMatrix3, k: nat): Option<real>
  {
    if k < |m.elements| then Some(m.elements[k]) else None
  }

  function M11(m: SdpMatrix3): Option<real> { Element(m, 0) }
  function M12(m: SdpMatrix3): Option<real> { Element(m, 1) }
  function M21(m: SdpMatrix3): Option<real> { M12(m) }
  function M13(m: SdpMatrix3): Option<real> { Element(m, 2) }
  function M31(m: SdpMatrix3): Option<real> { M13(m) }
  function M22(m: SdpMatrix3): Option<real> { Element(m, 3) }
  function M23(m: SdpMatrix3): Option<real> { Element(m, 4) }
  function M32(m: SdpMatrix3): Option<real> { M23(m) }
  function M33(m: SdpMatrix3): Option<real> { Element(m, 5) }

  /** The accessor for row `r`, column `c` (both 1-based). */
  function Entry(m: SdpMatrix3, r: nat, c: nat): Option<real>
    requires 1 <= r <= 3 && 1 <= c <= 3
  {
    match (r, c)
    case (1, 1) => M11(m)
    case (1, 2) => M12(m)
    case (1, 3) => M13(m)
    case (2, 1) => M21(m)
    case (2, 2) => M22(m)
    case (2, 3) => M23(m)
    case (3, 1) => M31(m)
    case (3, 2) => M32(m)
    case (_, _) => M33(m)
  }

  /** Position of entry (r, c), r <= c, in a row-major upper triangle of a 3x3 matrix. */
  function UpperIndex(r: nat, c: nat): nat
    requires 1 <= r <= c <= 3
  {
    (r - 1) * (8 - r) / 2 + (c - r)
  }

  /** The accessors describe a symmetric matrix read from its row-major upper triangle. */
  lemma SdpSymmetric(m: SdpMatrix3, r: nat, c: nat)
    requires 1 <= r <= 3 && 1 <= c <= 3
    ensures Entry(m, r, c) == Entry(m, c, r)
    ensures r <= c ==> Entry(m, r, c) == Element(m, UpperIndex(r, c))
  {
  }
}

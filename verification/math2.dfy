/**
 * The two-dimensional value helpers: vectors as host objects with the same
 * optional-target contract as in 3D, and rotations as plain angles (numbers have
 * no identity, so there is no target for them). Native copies live in stores of
 * their own and are `None` once freed.
 */
module Math2 {
  import opened Wrappers
  import opened Components
  import opened ObjectStore

  datatype RawVector = RawVector(x: real, y: real)

  /** A native rotation, seen through its `angle` getter (radians). */
  datatype RawRotation = RawRotation(angle: real)

  /** Host `Vector2` objects, and the native vectors and rotations not yet freed. */
  datatype Heap = Heap(
    vectors: seq<Vec2>,
    rawVectors: seq<Option<RawVector>>, rawRotations: seq<Option<RawRotation>>)

  ghost predicate VectorRef(heap: Heap, t: Option<Ref>)
  {
    t.Some? ==> t.value < |heap.vectors|
  }

  /** An absent raw object, or one that is allocated and not yet freed. */
  ghost predicate LiveRawVector(heap: Heap, raw: Option<Ref>)
  {
    raw.Some? ==> raw.value < |heap.rawVectors| && heap.rawVectors[raw.value].Some?
  }

  ghost predicate LiveRawRotation(heap: Heap, raw: Option<Ref>)
  {
    raw.Some? ==> raw.value < |heap.rawRotations| && heap.rawRotations[raw.value].Some?
  }

  /** `VectorOps.new`: a fresh vector object. */
  function NewVector(heap: Heap, x: real, y: real): (r: (Heap, Ref))
    ensures r.1 == |heap.vectors| && r.0.vectors == heap.vectors + [Vec2(x, y)]
    ensures r.0.rawVectors == heap.rawVectors && r.0.rawRotations == heap.rawRotations
  {
    var (vs, v) := Alloc(heap.vectors, Vec2(x, y));
    (heap.(vectors := vs), v)
  }

  /** `VectorOps.zeros`: a fresh vector (0, 0). */
  function Zeros(heap: Heap): (r: (Heap, Ref))
    ensures r.1 == |heap.vectors| && |r.0.vectors| == |heap.vectors| + 1
    ensures r.0.vectors[r.1] == Vec2(0.0, 0.0)
    ensures r.0.vectors[..|heap.vectors|] == heap.vectors
    ensures r.0.rawVectors == heap.rawVectors && r.0.rawRotations == heap.rawRotations
  {
    NewVector(heap, 0.0, 0.0)
  }

  /** `VectorOps.intoRaw`: a newly allocated native copy of a vector. */
  function IntoRawVector(heap: Heap, v: Vec2): (r: (Heap, Ref))
    ensures r.1 == |heap.rawVectors| && r.0.rawVectors == heap.rawVectors + [Some(RawVector(v.x, v.y))]
    ensures r.0.vectors == heap.vectors && r.0.rawRotations == heap.rawRotations
  {
    var (rs, q) := Alloc(heap.rawVectors, Some(RawVector(v.x, v.y)));
    (heap.(rawVectors := rs), q)
  }

  /** The target, or a fresh zero vector, then overwritten with `value`. */
  function FillVector(heap: Heap, value: Vec2, target: Option<Ref>): (r: (Heap, Ref))
    requires VectorRef(heap, target)
  {
    var (h1, t) := if target.Some? then (heap, target.value) else Zeros(heap);
    (h1.(vectors := Write(h1.vectors, t, value)), t)
  }

  /**
   * `VectorOps.fromRaw`: `None` exactly when `raw` is absent; otherwise the target
   * itself (or one fresh vector) holding x and y of the raw vector, which is then
   * freed.
   */
  function VectorFromRaw(heap: Heap, raw: Option<Ref>, target: Option<Ref>): (r: (Heap, Option<Ref>))
    requires VectorRef(heap, target) && LiveRawVector(heap, raw)
    ensures raw.None? <==> r.1.None?
    ensures raw.None? ==> r.0 == heap
    ensures raw.Some? && target.Some? ==> r.1 == target && |r.0.vectors| == |heap.vectors|
    ensures raw.Some? && target.None? ==> r.1 == Some(|heap.vectors|) && |r.0.vectors| == |heap.vectors| + 1
    ensures raw.Some? ==>
      var rv := heap.rawVectors[raw.value].value;
      r.0.vectors[r.1.value] == Vec2(rv.x, rv.y)
    ensures forall q :: 0 <= q < |heap.vectors| && Some(q) != r.1 ==> r.0.vectors[q] == heap.vectors[q]
    ensures raw.Some? ==> r.0.rawVectors == heap.rawVectors[raw.value := None] && !LiveRawVector(r.0, raw)
    ensures r.0.rawRotations == heap.rawRotations
  {
    match raw
    case None => (heap, None)
    case Some(q) =>
      var rv := heap.rawVectors[q].value;
      var (h, t) := FillVector(heap, Vec2(rv.x, rv.y), target);
      (h.(rawVectors := Write(h.rawVectors, q, None)), Some(t))
  }

  /** `VectorOps.copy`: `out` takes x and y of `input`; nothing else changes. */
  function CopyVector(heap: Heap, out: Ref, input: Ref): (h: Heap)
    requires out < |heap.vectors| && input < |heap.vectors|
    ensures |h.vectors| == |heap.vectors|
    ensures h.vectors[out] == heap.vectors[input] && h.vectors[input] == heap.vectors[input]
    ensures forall q :: 0 <= q < |heap.vectors| && q != out ==> h.vectors[q] == heap.vectors[q]
    ensures h.rawVectors == heap.rawVectors && h.rawRotations == heap.rawRotations
  {
    heap.(vectors := Write(heap.vectors, out, heap.vectors[input]))
  }

  /** `VectorOps.fromBuffer`: the target itself (or one fresh vector) holding `buffer[0], buffer[1]`. */
  function VectorFromBuffer(heap: Heap, buffer: seq<real>, target: Option<Ref>): (r: (Heap, Ref))
    requires |buffer| >= 2
    requires VectorRef(heap, target)
    ensures target.Some? ==> r.1 == target.value && |r.0.vectors| == |heap.vectors|
    ensures target.None? ==> r.1 == |heap.vectors| && |r.0.vectors| == |heap.vectors| + 1
    ensures r.0.vectors[r.1] == Vec2(buffer[0], buffer[1])
    ensures forall q :: 0 <= q < |heap.vectors| && q != r.1 ==> r.0.vectors[q] == heap.vectors[q]
    ensures r.0.rawVectors == heap.rawVectors && r.0.rawRotations == heap.rawRotations
  {
    FillVector(heap, Vec2(buffer[0], buffer[1]), target)
  }

  /** A vector survives the trip through its native copy, and the copy is freed. */
  lemma VectorRawRoundTrip(heap: Heap, v: Vec2, target: Option<Ref>)
    requires VectorRef(heap, target)
    ensures var (h1, raw) := IntoRawVector(heap, v);
      var r := VectorFromRaw(h1, Some(raw), target);
      && r.1.Some? && r.0.vectors[r.1.value] == v
      && r.0.rawVectors == heap.rawVectors + [None]
  {
  }

  /** `RotationOps.identity`: the zero angle. */
  const IDENTITY_ANGLE: real := 0.0

  /**
   * `RotationOps.fromRaw`: `None` exactly when `raw` is absent, otherwise its angle;
   * the raw rotation is freed.
   */
  function RotationFromRaw(heap: Heap, raw: Option<Ref>): (r: (Heap, Option<real>))
    requires LiveRawRotation(heap, raw)
    ensures r.1.None? <==> raw.None?
    ensures raw.None? ==> r.0 == heap
    ensures raw.Some? ==> r.1.value == heap.rawRotations[raw.value].value.angle
    ensures raw.Some? ==> r.0.rawRotations == heap.rawRotations[raw.value := None] && !LiveRawRotation(r.0, raw)
    ensures r.0.vectors == heap.vectors && r.0.rawVectors == heap.rawVectors
  {
    match raw
    case None => (heap, None)
    case Some(k) =>
      var angle := heap.rawRotations[k].value.angle;
      (heap.(rawRotations := Write(heap.rawRotations, k, None)), Some(angle))
  }

  /** `RotationOps.fromBuffer`: the first scalar of the buffer is the angle. */
  function RotationFromBuffer(buffer: seq<real>): (a: real)
    requires |buffer| >= 1
  {
    buffer[0]
  }
}

/**
 * The native rigid-body set as the host sees it: a generational arena of bodies
 * (one slot per index, each live slot tagged with its generation) plus the
 * packed transform buffer it owns. Physics is not modelled; a body is its state
 * record, its type and the handles of its attached colliders.
 */
module NativeBodySet {
  import opened Wrappers
  import opened Handles
  import opened Components
  import opened TransformLayout
  import Coarena

  /** The body type enum exposed to the host, numbered in declaration order. */
  datatype RawRigidBodyType =
    | RawDynamic
    | RawFixed
    | RawKinematicPositionBased
    | RawKinematicVelocityBased

  /** The engine's own body type enum. */
  datatype RigidBodyType =
    | Dynamic
    | Fixed
    | KinematicPositionBased
    | KinematicVelocityBased

  /** Discriminant of a raw type; the host casts its status number to this enum. */
  function RawOrdinal(t: RawRigidBodyType): nat
  {
    match t
    case RawDynamic => 0
    case RawFixed => 1
    case RawKinematicPositionBased => 2
    case RawKinematicVelocityBased => 3
  }

  function Ordinal(t: RigidBodyType): nat
  {
    match t
    case Dynamic => 0
    case Fixed => 1
    case KinematicPositionBased => 2
    case KinematicVelocityBased => 3
  }

  /** `Into<RigidBodyType> for RawRigidBodyType`: maps each variant to its namesake. */
  function IntoRigidBodyType(t: RawRigidBodyType): (r: RigidBodyType)
    ensures Ordinal(r) == RawOrdinal(t)
  {
    match t
    case RawDynamic => Dynamic
    case RawFixed => Fixed
    case RawKinematicPositionBased => KinematicPositionBased
    case RawKinematicVelocityBased => KinematicVelocityBased
  }

  /** `Into<RawRigidBodyType> for RigidBodyType`. */
  function IntoRawRigidBodyType(t: RigidBodyType): (r: RawRigidBodyType)
    ensures RawOrdinal(r) == Ordinal(t)
  {
    match t
    case Dynamic => RawDynamic
    case Fixed => RawFixed
    case KinematicPositionBased => RawKinematicPositionBased
    case KinematicVelocityBased => RawKinematicVelocityBased
  }

  lemma RawTypeRoundTrip(t: RawRigidBodyType)
    ensures IntoRawRigidBodyType(IntoRigidBodyType(t)) == t
  {
  }

  lemma TypeRoundTrip(t: RigidBodyType)
    ensures IntoRigidBodyType(IntoRawRigidBodyType(t)) == t
  {
  }

  /** Pose and velocities of one body: the values the packing loop copies out. */
  datatype BodyState =
    | Body3(translation: Vec3, rotation: Quat, linvel: Vec3, angvel: Vec3)
    | Body2(translation2: Vec2, angle: real, linvel2: Vec2, angvel2: real)

  function DimOf(b: BodyState): Dim
  {
    if b.Body3? then Dim3 else Dim2
  }

  /** The scalars of one field, in the order the buffer stores them. */
  function FieldValues(b: BodyState, f: Field): (r: seq<real>)
    ensures |r| == Width(DimOf(b), f)
  {
    match (b, f)
    case (Body3(t, _, _, _), Translation) => [t.x, t.y, t.z]
    case (Body3(_, r, _, _), Rotation) => [r.x, r.y, r.z, r.w]
    case (Body3(_, _, lv, _), Linvel) => [lv.x, lv.y, lv.z]
    case (Body3(_, _, _, av), Angvel) => [av.x, av.y, av.z]
    case (Body2(t, _, _, _), Translation) => [t.x, t.y]
    case (Body2(_, a, _, _), Rotation) => [a]
    case (Body2(_, _, lv, _), Linvel) => [lv.x, lv.y]
    case (Body2(_, _, _, av), Angvel) => [av]
  }

  /** The record the packing loop writes for one body. */
  function Record(b: BodyState): (r: seq<real>)
    ensures |r| == Stride(DimOf(b))
    ensures forall f :: r[Offset(DimOf(b), f)..Offset(DimOf(b), f) + Width(DimOf(b), f)] == FieldValues(b, f)
  {
    FieldValues(b, Translation) + FieldValues(b, Rotation) + FieldValues(b, Linvel) + FieldValues(b, Angvel)
  }

  datatype RigidBody = RigidBody(state: BodyState, bodyType: RigidBodyType, colliders: seq<Handle>)

  /** A live arena slot: the generation it was filled under and its body. */
  datatype Entry = Entry(generation: U32, body: RigidBody)

  datatype RawRigidBodySet = RawRigidBodySet(dim: Dim, slots: seq<Option<Entry>>, transformData: seq<real>)

  /** Every live body has the dimension the module is compiled for. */
  ghost predicate AllDim(d: Dim, slots: seq<Option<Entry>>)
  {
    forall i :: 0 <= i < |slots| && slots[i].Some? ==> DimOf(slots[i].value.body.state) == d
  }

  /** `RawRigidBodySet::new`: no bodies, empty buffer. */
  function NewSet(d: Dim): (s: RawRigidBodySet)
    ensures AllDim(d, s.slots)
    ensures forall h :: !Contains(s, h)
    ensures |s.transformData| == 0
  {
    RawRigidBodySet(d, [], [])
  }

  /** Generation-checked lookup: a stale handle to a reused slot finds nothing. */
  function Get(s: RawRigidBodySet, h: Handle): (r: Option<RigidBody>)
    ensures r.Some? ==> h.index < |s.slots| && s.slots[h.index] == Some(Entry(h.generation, r.value))
    ensures r.None? ==> h.index >= |s.slots| || s.slots[h.index].None? || s.slots[h.index].value.generation != h.generation
  {
    if h.index < |s.slots| && s.slots[h.index].Some? && s.slots[h.index].value.generation == h.generation
    then Some(s.slots[h.index].value.body)
    else None
  }

  /** `contains`: the lookup finds a body. */
  function Contains(s: RawRigidBodySet, h: Handle): bool
  {
    Get(s, h).Some?
  }

  const INVALID_BODY := "Invalid RigidBody reference. It may have been removed from the physics World."

  /** `map`: applies `f` to the body of `h`, failing on a handle not in the set. */
  function Map<T>(s: RawRigidBodySet, h: Handle, f: RigidBody -> T): (r: Result<T, string>)
    ensures r.Success? <==> Contains(s, h)
    ensures r.Success? ==> r.value == f(Get(s, h).value)
    ensures r.Failure? ==> r.error == INVALID_BODY
  {
    match Get(s, h)
    case Some(b) => Success(f(b))
    case None => Failure(INVALID_BODY)
  }

  /** `map_mut`: replaces the body of `h` by `f`'s new body, failing on a handle not in the set. */
  function MapMut<T>(s: RawRigidBodySet, h: Handle, f: RigidBody -> (RigidBody, T)): (r: Result<(RawRigidBodySet, T), string>)
    ensures r.Success? <==> Contains(s, h)
    ensures r.Success? ==> r.value.1 == f(Get(s, h).value).1
    ensures r.Success? ==> Get(r.value.0, h) == Some(f(Get(s, h).value).0)
    ensures r.Success? ==> forall h': Handle :: h'.index != h.index ==> Get(r.value.0, h') == Get(s, h')
    ensures r.Success? ==> r.value.0.transformData == s.transformData && |r.value.0.slots| == |s.slots|
    ensures r.Failure? ==> r.error == INVALID_BODY
  {
    match Get(s, h)
    case Some(b) =>
      var (b', t) := f(b);
      Success((s.(slots := s.slots[h.index := Some(Entry(h.generation, b'))]), t))
    case None => Failure(INVALID_BODY)
  }

  /** `contains` holds exactly when `map` would not fail. */
  lemma ContainsIffMapSucceeds<T>(s: RawRigidBodySet, h: Handle, f: RigidBody -> T)
    ensures Contains(s, h) <==> Map(s, h, f).Success?
  {
  }

  /** `len`: number of live bodies. */
  function Len(s: RawRigidBodySet): nat
  {
    Coarena.Count(s.slots)
  }

  /** Inserts `b` under the handle `h` the arena allocated for it. */
  function Insert(s: RawRigidBodySet, h: Handle, b: RigidBody): (r: RawRigidBodySet)
    ensures Get(r, h) == Some(b)
    ensures forall h': Handle :: h'.index != h.index ==> Get(r, h') == Get(s, h')
    ensures r.transformData == s.transformData && r.dim == s.dim
  {
    var grown := Coarena.Grow(s.slots, h.index);
    s.(slots := grown[h.index := Some(Entry(h.generation, b))])
  }

  /** `remove`: drops the body of `h`; a handle not in the set changes nothing. */
  function Remove(s: RawRigidBodySet, h: Handle): (r: RawRigidBodySet)
    ensures !Contains(r, h)
    ensures !Contains(s, h) ==> r == s
    ensures forall h': Handle :: h'.index != h.index ==> Get(r, h') == Get(s, h')
    ensures r.transformData == s.transformData && r.dim == s.dim && |r.slots| == |s.slots|
  {
    if Contains(s, h) then s.(slots := s.slots[h.index := None]) else s
  }

  /** The live handles in arena order: what `forEachRigidBodyHandle` passes to its callback. */
  function HandlesFrom(slots: seq<Option<Entry>>, start: nat): (r: seq<Handle>)
    requires start <= |slots| <= WORD
    decreases |slots| - start
  {
    if start == |slots| then []
    else
      (if slots[start].Some? then [Handle(start, slots[start].value.generation)] else [])
      + HandlesFrom(slots, start + 1)
  }

  lemma {:induction false} HandlesFromExact(slots: seq<Option<Entry>>, start: nat)
    requires start <= |slots| <= WORD
    ensures forall k :: 0 <= k < |HandlesFrom(slots, start)| ==>
      var h := HandlesFrom(slots, start)[k];
      start <= h.index < |slots| && slots[h.index].Some? && slots[h.index].value.generation == h.generation
    ensures forall i :: start <= i < |slots| && slots[i].Some? ==>
      Handle(i, slots[i].value.generation) in HandlesFrom(slots, start)
    ensures forall k, l :: 0 <= k < l < |HandlesFrom(slots, start)| ==>
      HandlesFrom(slots, start)[k].index < HandlesFrom(slots, start)[l].index
    decreases |slots| - start
  {
    if start < |slots| {
      HandlesFromExact(slots, start + 1);
    }
  }

  lemma {:induction false} HandlesFromCount(slots: seq<Option<Entry>>, start: nat)
    requires start <= |slots| <= WORD
    ensures |HandlesFrom(slots, start)| == Coarena.Count(slots[start..])
    decreases |slots| - start
  {
    if start < |slots| {
      assert slots[start..][1..] == slots[start + 1..];
      HandlesFromCount(slots, start + 1);
    }
  }

  /**
   * `forEachRigidBodyHandle`: the handles of exactly the live bodies, each once,
   * in ascending index order.
   */
  function LiveHandles(s: RawRigidBodySet): (r: seq<Handle>)
    requires |s.slots| <= WORD
    ensures forall k :: 0 <= k < |r| ==> Contains(s, r[k])
    ensures forall h :: Contains(s, h) ==> h in r
    ensures forall k, l :: 0 <= k < l < |r| ==> r[k].index < r[l].index
    ensures |r| == Len(s)
  {
    HandlesFromExact(s.slots, 0);
    HandlesFromCount(s.slots, 0);
    assert s.slots[0..] == s.slots;
    HandlesFrom(s.slots, 0)
  }

  // ---------------------------------------------------------------------------
  // transformBufferInfo: pointer and length packed into one 64-bit pattern

  /** Low word: the buffer's byte address; high word: its element count (both cast to u32). */
  function TransformBufferInfo(ptr: nat, s: RawRigidBodySet): (w: U64)
    ensures w % WORD == ptr % WORD
    ensures w / WORD == |s.transformData| % WORD
  {
    PackInfo(ptr % 0x1_0000_0000, |s.transformData| % 0x1_0000_0000)
  }

  function PackInfo(ptr: U32, len: U32): U64
  {
    ptr + len * 0x1_0000_0000
  }

  /** What the host does with the word: split it into (pointer, length). */
  function UnpackInfo(w: U64): (U32, U32)
  {
    (w % 0x1_0000_0000, w / 0x1_0000_0000)
  }

  lemma UnpackPack(ptr: U32, len: U32)
    ensures UnpackInfo(PackInfo(ptr, len)) == (ptr, len)
  {
  }

  lemma PackUnpack(w: U64)
    ensures PackInfo(UnpackInfo(w).0, UnpackInfo(w).1) == w
  {
  }

  /** A buffer address and length that fit in 32 bits are recovered exactly by the host. */
  lemma InfoRoundTrip(ptr: U32, s: RawRigidBodySet)
    requires |s.transformData| < WORD
    ensures UnpackInfo(TransformBufferInfo(ptr, s)) == (ptr, |s.transformData|)
  {
    var len: U32 := |s.transformData|;
    assert ptr % 0x1_0000_0000 == ptr && len % 0x1_0000_0000 == len;
    assert TransformBufferInfo(ptr, s) == PackInfo(ptr, len);
    UnpackPack(ptr, len);
  }

  /** `transformBufferStride`. */
  function TransformBufferStride(s: RawRigidBodySet): (n: nat)
    ensures n == Stride(s.dim)
    ensures n == Offset(s.dim, Angvel) + Width(s.dim, Angvel)
  {
    SetStride(s.dim)
  }
}

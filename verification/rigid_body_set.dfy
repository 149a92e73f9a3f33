/**
 * The host-side rigid-body set: a sparse arena of body wrappers over the native
 * set, plus the shared `TransformBufferRef` cell through which every wrapper reads
 * the packed transform buffer. Buffer-ref objects have identity (a body keeps the
 * ref it was created with), so the model keeps them in a store of cells and a
 * wrapper holds a reference into it.
 */
module RigidBodies {
  import opened Wrappers
  import opened Handles
  import opened TransformLayout
  import opened NativeBodySet
  import TransformSync
  import C = Coarena
  import opened ObjectStore

  /** A host body wrapper: its handle, the buffer-ref object it shares, its user data. */
  datatype Body<U> = Body(handle: Handle, bufferRef: Ref, userData: Option<U>)

  /** The `TransformBufferRef` objects ever created: each is null or a view of native memory. */
  type Cells = seq<Option<seq<real>>>

  /**
   * `raw` and `arena` (the source's `map`) become `None` (JavaScript `undefined`) once the set is freed;
   * `bufferRef` is the ref object the set currently shares with new bodies.
   */
  datatype RigidBodySet<U> = RigidBodySet(
    raw: Option<RawRigidBodySet>,
    arena: Option<C.Coarena<Body<U>>>,
    bufferRef: Ref,
    cells: Cells)

  /** Descriptor fields the model keeps: initial state, status and user data. */
  datatype RigidBodyDesc<U> = RigidBodyDesc(state: BodyState, status: RawRigidBodyType, userData: Option<U>)

  /** A set that has not been freed. */
  ghost predicate Live<U>(s: RigidBodySet<U>)
  {
    s.raw.Some? && s.arena.Some? && s.bufferRef < |s.cells|
  }

  /**
   * The host arena mirrors the native arena: one wrapper per live native body,
   * at the body's index and carrying its full handle, and the counter is exact.
   */
  ghost predicate Consistent<U>(s: RigidBodySet<U>)
  {
    && Live(s)
    && var raw := s.raw.value;
    && var data := s.arena.value.data;
    && AllDim(raw.dim, raw.slots)
    && |raw.slots| <= WORD
    && C.Valid(s.arena.value)
    && (forall i :: 0 <= i < |data| && data[i].Some? ==>
          i < |raw.slots| && raw.slots[i].Some? && data[i].value.handle == Handle(i, raw.slots[i].value.generation))
    && (forall i :: 0 <= i < |raw.slots| && raw.slots[i].Some? ==> i < |data| && data[i].Some?)
    && (forall i :: 0 <= i < |data| && data[i].Some? ==> data[i].value.bufferRef == s.bufferRef)
  }

  /**
   * The shared ref is either null or a view of a buffer holding the current record
   * of every live body: a reader never sees a record older than the native state.
   */
  ghost predicate Coherent<U>(s: RigidBodySet<U>)
  {
    && Live(s)
    && (s.cells[s.bufferRef].None? ||
        (s.cells[s.bufferRef] == Some(s.raw.value.transformData) && TransformSync.BufferCurrent(s.raw.value)))
  }

  /** The native arena may hand out `h` for a new body: its slot is past the end or empty. */
  predicate FreshSlot(raw: RawRigidBodySet, h: Handle)
  {
    h.index >= |raw.slots| || raw.slots[h.index].None?
  }

  // ---------------------------------------------------------------------------
  // Construction and release

  /** `new RigidBodySet()`: a new native set, an empty arena and a fresh null ref. */
  function New<U>(d: Dim): (s: RigidBodySet<U>)
    ensures Consistent(s)
    ensures s.cells[s.bufferRef] == None
    ensures Len(s) == 0
  {
    RigidBodySet(Some(NewSet(d)), Some(C.New()), 0, [None])
  }

  /**
   * `new RigidBodySet(raw)`: wraps an existing native set, putting exactly one
   * wrapper per handle the native set enumerates into the arena.
   */
  method FromRaw<U>(raw: RawRigidBodySet) returns (s: RigidBodySet<U>)
    requires |raw.slots| <= WORD
    ensures Live(s) && s.raw == Some(raw) && s.cells == [None] && s.bufferRef == 0
    ensures forall h :: Contains(raw, h) ==> Get(s, h) == Some(Body(h, 0, None))
    ensures forall h :: Get(s, h).Some? ==> Contains(raw, Get(s, h).value.handle)
    ensures Len(s) == NativeBodySet.Len(raw)
    ensures AllDim(raw.dim, raw.slots) ==> Consistent(s)
  {
    var hs := LiveHandles(raw);
    var a: C.Coarena<Body<U>> := WrapHandles(hs, 0);
    s := RigidBodySet(Some(raw), Some(a), 0, [None]);
    forall h | Contains(raw, h) ensures Get(s, h) == Some(Body(h, 0, None)) {
      var j :| 0 <= j < |hs| && hs[j] == h;
    }
    WrappedConsistent(raw, hs, a);
  }

  /** The loop of the constructor: one `set` per enumerated handle, in order. */
  method WrapHandles<U>(hs: seq<Handle>, ref: Ref) returns (a: C.Coarena<Body<U>>)
    requires forall k, l :: 0 <= k < l < |hs| ==> hs[k].index < hs[l].index
    ensures C.Valid(a) && a.size == |hs|
    ensures forall j :: 0 <= j < |hs| ==> C.Get(a, hs[j]) == Some(Body(hs[j], ref, None))
    ensures forall i :: 0 <= i < |a.data| && a.data[i].Some? ==>
      exists j :: 0 <= j < |hs| && hs[j].index == i && a.data[i] == Some(Body(hs[j], ref, None))
  {
    a := C.New();
    var k := 0;
    while k < |hs|
      invariant 0 <= k <= |hs|
      invariant C.Valid(a) && a.size == k
      invariant forall j :: 0 <= j < k ==> C.Get(a, hs[j]) == Some(Body(hs[j], ref, None))
      invariant forall i :: 0 <= i < |a.data| && a.data[i].Some? ==>
        exists j :: 0 <= j < k && hs[j].index == i && a.data[i] == Some(Body(hs[j], ref, None))
    {
      C.SetPreservesValid(a, hs[k], Body(hs[k], ref, None));
      a := C.Set(a, hs[k], Body(hs[k], ref, None));
      k := k + 1;
    }
  }

  lemma WrappedConsistent<U>(raw: RawRigidBodySet, hs: seq<Handle>, a: C.Coarena<Body<U>>)
    requires |raw.slots| <= WORD && hs == LiveHandles(raw)
    requires C.Valid(a) && a.size == |hs|
    requires forall j :: 0 <= j < |hs| ==> C.Get(a, hs[j]) == Some(Body(hs[j], 0, None))
    requires forall i :: 0 <= i < |a.data| && a.data[i].Some? ==>
      exists j :: 0 <= j < |hs| && hs[j].index == i && a.data[i] == Some(Body(hs[j], 0, None))
    ensures var s := RigidBodySet(Some(raw), Some(a), 0, [None]);
      && (forall h :: Get(s, h).Some? ==> Contains(raw, Get(s, h).value.handle))
      && Len(s) == NativeBodySet.Len(raw)
      && (AllDim(raw.dim, raw.slots) ==> Consistent(s))
  {
    var s := RigidBodySet(Some(raw), Some(a), 0, [None]);
    forall h | Get(s, h).Some? ensures Contains(raw, Get(s, h).value.handle) {
      var j :| 0 <= j < |hs| && hs[j].index == h.index && a.data[h.index] == Some(Body(hs[j], 0, None));
    }
    forall i | 0 <= i < |a.data| && a.data[i].Some?
      ensures i < |raw.slots| && raw.slots[i].Some? && a.data[i].value.handle == Handle(i, raw.slots[i].value.generation)
    {
      var j :| 0 <= j < |hs| && hs[j].index == i && a.data[i] == Some(Body(hs[j], 0, None));
      assert Contains(raw, hs[j]);
    }
    forall i | 0 <= i < |a.data| && a.data[i].Some? ensures a.data[i].value.bufferRef == 0 {
      var j :| 0 <= j < |hs| && hs[j].index == i && a.data[i] == Some(Body(hs[j], 0, None));
    }
    forall i | 0 <= i < |raw.slots| && raw.slots[i].Some?
      ensures i < |a.data| && a.data[i].Some?
    {
      var h := Handle(i, raw.slots[i].value.generation);
      assert Contains(raw, h);
      var j :| 0 <= j < |hs| && hs[j] == h;
      assert C.Get(a, hs[j]).Some?;
    }
  }

  /**
   * `free`: releases the native set, drops the arena and installs a fresh null
   * ref. Ref objects created earlier, and the bodies holding them, are untouched.
   */
  function Free<U>(s: RigidBodySet<U>): (r: RigidBodySet<U>)
    ensures r.raw.None? && r.arena.None?
    ensures r.bufferRef == |s.cells| && |r.cells| == |s.cells| + 1
    ensures r.cells[r.bufferRef] == None && r.cells[..|s.cells|] == s.cells
  {
    var (cells, newRef) := Alloc(s.cells, None);
    RigidBodySet(None, None, newRef, cells)
  }

  // ---------------------------------------------------------------------------
  // Buffer refresh and body creation

  /** `syncTransformBuffer`: the shared ref now views the native set's packed buffer. */
  function SyncTransformBuffer<U>(s: RigidBodySet<U>): (r: RigidBodySet<U>)
    requires Live(s)
    ensures Live(r) && r.raw == s.raw && r.arena == s.arena && r.bufferRef == s.bufferRef
    ensures |r.cells| == |s.cells|
    ensures r.cells[r.bufferRef] == Some(s.raw.value.transformData)
    ensures forall q :: 0 <= q < |s.cells| && q != s.bufferRef ==> r.cells[q] == s.cells[q]
  {
    s.(cells := Write(s.cells, s.bufferRef, Some(s.raw.value.transformData)))
  }

  /**
   * `createRigidBody`: the native set stores a body built from the descriptor under
   * the handle `h` it allocates, the shared ref is reset to null (native memory may
   * have moved), and a wrapper carrying the descriptor's user data is stored under `h`.
   */
  function CreateRigidBody<U>(s: RigidBodySet<U>, desc: RigidBodyDesc<U>, h: Handle): (r: (RigidBodySet<U>, Body<U>))
    requires Live(s)
    ensures Live(r.0) && r.0.bufferRef == s.bufferRef && |r.0.cells| == |s.cells|
    ensures r.0.cells[s.bufferRef] == None
    ensures forall q :: 0 <= q < |s.cells| && q != s.bufferRef ==> r.0.cells[q] == s.cells[q]
    ensures r.1 == Body(h, s.bufferRef, desc.userData)
    ensures Get(r.0, h) == Some(r.1)
    ensures forall h': Handle :: h'.index != h.index ==> Get(r.0, h') == Get(s, h')
    ensures NativeBodySet.Get(r.0.raw.value, h) == Some(RigidBody(desc.state, IntoRigidBodyType(desc.status), []))
    ensures forall h': Handle :: h'.index != h.index ==> NativeBodySet.Get(r.0.raw.value, h') == NativeBodySet.Get(s.raw.value, h')
  {
    var raw := Insert(s.raw.value, h, RigidBody(desc.state, IntoRigidBodyType(desc.status), []));
    var cells := Write(s.cells, s.bufferRef, None);
    var body := Body(h, s.bufferRef, desc.userData);
    (RigidBodySet(Some(raw), Some(C.Set(s.arena.value, h, body)), s.bufferRef, cells), body)
  }

  // ---------------------------------------------------------------------------
  // Lookup

  /** `get`: the wrapper stored at the handle's index (no generation check on the host). */
  function Get<U>(s: RigidBodySet<U>, h: Handle): (r: Option<Body<U>>)
    requires s.arena.Some?
    ensures r.Some? ==> r.value in C.GetAll(s.arena.value)
  {
    C.Get(s.arena.value, h)
  }

  /** `contains`: `get` finds a wrapper. */
  function ContainsBody<U>(s: RigidBodySet<U>, h: Handle): (b: bool)
    requires s.arena.Some?
    ensures b <==> Get(s, h).Some?
    ensures b ==> HandleToIndex(h) < |s.arena.value.data|
  {
    Get(s, h) != None
  }

  /** `len`: the arena's counter, which on a consistent set is the native body count. */
  function Len<U>(s: RigidBodySet<U>): (n: int)
    requires s.arena.Some?
    ensures C.Valid(s.arena.value) ==> n == |GetAll(s)|
  {
    C.Len(s.arena.value)
  }

  /** `getAll`: the wrappers in ascending index order. */
  function GetAll<U>(s: RigidBodySet<U>): (r: seq<Body<U>>)
    requires s.arena.Some?
    ensures forall h :: Get(s, h).Some? ==> Get(s, h).value in r
  {
    C.GetAll(s.arena.value)
  }

  /** `forEach`: visits exactly what `getAll` returns, in the same order. */
  method ForEach<U>(s: RigidBodySet<U>) returns (visited: seq<Body<U>>)
    requires s.arena.Some?
    ensures visited == GetAll(s)
  {
    visited := C.ForEach(s.arena.value);
  }

  // ---------------------------------------------------------------------------
  // Removal with its cascade

  /** Deletes every handle of `hs` from a collaborator's arena (`unmap` on each). */
  function UnmapAll<W>(a: C.Coarena<W>, hs: seq<Handle>): (r: C.Coarena<W>)
    ensures forall k :: 0 <= k < |hs| ==> C.Get(r, hs[k]) == None
    ensures forall h: Handle :: (forall k :: 0 <= k < |hs| ==> hs[k].index != h.index) ==> C.Get(r, h) == C.Get(a, h)
    ensures C.Valid(a) ==> C.Valid(r)
    decreases |hs|
  {
    if |hs| == 0 then a
    else
      assert C.Valid(a) ==> C.Valid(C.Delete(a, hs[0])) by {
        if C.Valid(a) { C.DeletePreservesValid(a, hs[0]); }
      }
      UnmapAll(C.Delete(a, hs[0]), hs[1..])
  }

  /** `rbNumColliders`: number of colliders attached to a body; fails like `map`. */
  function RbNumColliders(raw: RawRigidBodySet, h: Handle): Result<nat, string>
  {
    Map(raw, h, (b: RigidBody) => |b.colliders|)
  }

  /**
   * `remove`: unmaps the attached colliders (`rbCollider(h, i)` for every
   * `i < rbNumColliders(h)`) and the attached impulse and multibody joints (handles
   * the native set enumerates, parameters here), removes the body natively, then
   * deletes its wrapper. Fails, changing nothing, when the native lookup of `h`
   * fails.
   */
  function Remove<U, K, J, M>(
    s: RigidBodySet<U>, h: Handle,
    colliders: C.Coarena<K>, impulseJoints: C.Coarena<J>, multibodyJoints: C.Coarena<M>,
    attachedImpulse: seq<Handle>, attachedMultibody: seq<Handle>)
    : (r: Result<(RigidBodySet<U>, C.Coarena<K>, C.Coarena<J>, C.Coarena<M>), string>)
    requires Live(s)
    ensures r.Success? <==> NativeBodySet.Contains(s.raw.value, h)
    ensures r.Failure? ==> r.error == INVALID_BODY
    ensures r.Success? ==>
      var (s', cs, ijs, mjs) := r.value;
      && Live(s') && s'.cells == s.cells && s'.bufferRef == s.bufferRef
      && Get(s', h) == None
      && !NativeBodySet.Contains(s'.raw.value, h)
      && (forall h': Handle :: h'.index != h.index ==> Get(s', h') == Get(s, h'))
      && (forall c :: c in NativeBodySet.Get(s.raw.value, h).value.colliders ==> C.Get(cs, c) == None)
      && (forall j :: j in attachedImpulse ==> C.Get(ijs, j) == None)
      && (forall j :: j in attachedMultibody ==> C.Get(mjs, j) == None)
  {
    match RbNumColliders(s.raw.value, h)
    case Failure(e) => Failure(e)
    case Success(n) =>
      var attached := NativeBodySet.Get(s.raw.value, h).value.colliders;
      var cs := UnmapAll(colliders, attached[..n]);
      assert attached[..n] == attached;
      var ijs := UnmapAll(impulseJoints, attachedImpulse);
      var mjs := UnmapAll(multibodyJoints, attachedMultibody);
      var raw := NativeBodySet.Remove(s.raw.value, h);
      Success((s.(raw := Some(raw), arena := Some(C.Delete(s.arena.value, h))), cs, ijs, mjs))
  }

  // ---------------------------------------------------------------------------
  // Reading body state: the dual path

  const UNDEFINED_READ := "read past the end of the transform buffer"

  /**
   * A body accessor: with a non-null ref, read the field from the record at
   * `index * stride`; with a null ref, ask the native set (which fails like `map`).
   */
  function ReadField<U>(s: RigidBodySet<U>, b: Body<U>, f: Field): (r: Result<seq<real>, string>)
    requires s.raw.Some? && b.bufferRef < |s.cells|
    ensures s.cells[b.bufferRef].None? ==> r == Map(s.raw.value, b.handle, (body: RigidBody) => FieldValues(body.state, f))
    ensures r.Success? && s.cells[b.bufferRef].Some? ==>
      var start := BufferIndex(b.handle) * Stride(s.raw.value.dim) + Offset(s.raw.value.dim, f);
      start + Width(s.raw.value.dim, f) <= |s.cells[b.bufferRef].value| &&
      r.value == s.cells[b.bufferRef].value[start..start + Width(s.raw.value.dim, f)]
  {
    var d := s.raw.value.dim;
    match s.cells[b.bufferRef]
    case Some(buf) =>
      var start := BufferIndex(b.handle) * Stride(d) + Offset(d, f);
      if start + Width(d, f) <= |buf| then Success(buf[start..start + Width(d, f)])
      else Failure(UNDEFINED_READ)
    case None => Map(s.raw.value, b.handle, (body: RigidBody) => FieldValues(body.state, f))
  }

  /**
   * One world step as the host sees it: the native step (physics, then packing the
   * buffer), then `syncTransformBuffer`.
   */
  function StepWorld<U>(s: RigidBodySet<U>, physics: BodyState -> BodyState): (r: RigidBodySet<U>)
    requires Live(s) && AllDim(s.raw.value.dim, s.raw.value.slots)
    requires forall b :: DimOf(physics(b)) == DimOf(b)
    ensures Live(r) && r.arena == s.arena && r.bufferRef == s.bufferRef
    ensures r.cells[r.bufferRef] == Some(r.raw.value.transformData)
    ensures TransformSync.BufferCurrent(r.raw.value)
  {
    SyncTransformBuffer(s.(raw := Some(TransformSync.Step(s.raw.value, physics))))
  }

  // ---------------------------------------------------------------------------
  // The host mirrors the native set

  /**
   * On a consistent set the host lookup, which ignores generations, agrees with the
   * native one: a live handle finds its own wrapper, and whatever the host finds is
   * the wrapper of the live body at that index. A stale handle therefore finds the
   * wrapper of the body that reused its slot, and nothing when the slot is empty.
   */
  lemma LookupMatchesNative<U>(s: RigidBodySet<U>, h: Handle)
    requires Consistent(s)
    ensures NativeBodySet.Contains(s.raw.value, h) ==> Get(s, h).Some? && Get(s, h).value.handle == h
    ensures Get(s, h).Some? ==>
      && Get(s, h).value.handle.index == h.index
      && NativeBodySet.Contains(s.raw.value, Get(s, h).value.handle)
    ensures ContainsBody(s, h) <==> h.index < |s.raw.value.slots| && s.raw.value.slots[h.index].Some?
    ensures (Get(s, h).Some? && Get(s, h).value.handle == h) <==> NativeBodySet.Contains(s.raw.value, h)
  {
    var raw := s.raw.value;
    var data := s.arena.value.data;
    if NativeBodySet.Contains(raw, h) {
      assert raw.slots[h.index].Some?;
    }
    if h.index < |raw.slots| && raw.slots[h.index].Some? {
      assert data[h.index].Some?;
    }
    if Get(s, h).Some? {
      assert data[h.index].Some?;
    }
  }

  /** `len` on a consistent set is the number of live native bodies. */
  lemma LenMatchesNative<U>(s: RigidBodySet<U>)
    requires Consistent(s)
    ensures Len(s) == NativeBodySet.Len(s.raw.value)
  {
    var raw := s.raw.value;
    var data := s.arena.value.data;
    OccupiedAlike(data, raw.slots);
  }

  /** Two slot sequences occupied at the same indices have the same count. */
  lemma {:induction false} OccupiedAlike<V, W>(xs: seq<Option<V>>, ys: seq<Option<W>>)
    requires forall i :: 0 <= i < |xs| && xs[i].Some? ==> i < |ys| && ys[i].Some?
    requires forall i :: 0 <= i < |ys| && ys[i].Some? ==> i < |xs| && xs[i].Some?
    ensures C.Count(xs) == C.Count(ys)
    decreases |xs| + |ys|
  {
    if |xs| == 0 {
      C.CountNone(ys);
    } else if |ys| == 0 {
      C.CountNone(xs);
    } else {
      OccupiedAlike(xs[1..], ys[1..]);
    }
  }

  /** Creating a body under a handle the native arena may allocate keeps the mirror and the invariant. */
  lemma CreatePreservesConsistent<U>(s: RigidBodySet<U>, desc: RigidBodyDesc<U>, h: Handle)
    requires Consistent(s) && Coherent(s)
    requires FreshSlot(s.raw.value, h) && DimOf(desc.state) == s.raw.value.dim
    ensures var r := CreateRigidBody(s, desc, h).0;
      && Consistent(r) && Coherent(r)
      && Len(r) == Len(s) + 1
  {
    var (r, body) := CreateRigidBody(s, desc, h);
    var raw := s.raw.value;
    var raw' := r.raw.value;
    var a := s.arena.value;
    var a' := r.arena.value;
    assert C.Get(a, h).None?;
    C.SetPreservesValid(a, h, body);
    var grown := C.Grow(raw.slots, h.index);
    assert raw'.slots == grown[h.index := Some(Entry(h.generation, RigidBody(desc.state, IntoRigidBodyType(desc.status), [])))];
    forall i | 0 <= i < |raw'.slots| && raw'.slots[i].Some?
      ensures DimOf(raw'.slots[i].value.body.state) == raw'.dim
    {
      if i != h.index { assert raw'.slots[i] == raw.slots[i]; }
    }
    forall i | 0 <= i < |a'.data| && a'.data[i].Some?
      ensures i < |raw'.slots| && raw'.slots[i].Some?
      ensures a'.data[i].value.handle == Handle(i, raw'.slots[i].value.generation)
      ensures a'.data[i].value.bufferRef == r.bufferRef
    {
      if i != h.index {
        assert a'.data[i] == a.data[i];
        assert raw'.slots[i] == raw.slots[i];
      }
    }
    forall i | 0 <= i < |raw'.slots| && raw'.slots[i].Some?
      ensures i < |a'.data| && a'.data[i].Some?
    {
      if i != h.index {
        assert raw'.slots[i] == raw.slots[i];
        assert a'.data[i] == a.data[i];
      }
    }
  }

  /** A successful removal keeps the mirror, keeps the buffer coherent, and drops one body. */
  lemma RemovePreservesConsistent<U, K, J, M>(
    s: RigidBodySet<U>, h: Handle,
    colliders: C.Coarena<K>, impulseJoints: C.Coarena<J>, multibodyJoints: C.Coarena<M>,
    attachedImpulse: seq<Handle>, attachedMultibody: seq<Handle>)
    requires Consistent(s) && Coherent(s)
    requires NativeBodySet.Contains(s.raw.value, h)
    ensures var r := Remove(s, h, colliders, impulseJoints, multibodyJoints, attachedImpulse, attachedMultibody);
      && r.Success?
      && Consistent(r.value.0) && Coherent(r.value.0)
      && Len(r.value.0) == Len(s) - 1
  {
    var r := Remove(s, h, colliders, impulseJoints, multibodyJoints, attachedImpulse, attachedMultibody);
    assert r.value.0 == Dropped(s, h);
    DroppedConsistent(s, h);
  }

  /** The host set after the native removal of `h` and the deletion of its wrapper. */
  function Dropped<U>(s: RigidBodySet<U>, h: Handle): RigidBodySet<U>
    requires Live(s)
  {
    s.(raw := Some(NativeBodySet.Remove(s.raw.value, h)), arena := Some(C.Delete(s.arena.value, h)))
  }

  lemma DroppedConsistent<U>(s: RigidBodySet<U>, h: Handle)
    requires Consistent(s) && Coherent(s)
    requires NativeBodySet.Contains(s.raw.value, h)
    ensures Consistent(Dropped(s, h)) && Coherent(Dropped(s, h))
    ensures Len(Dropped(s, h)) == Len(s) - 1
  {
    var r := Dropped(s, h);
    var raw := s.raw.value;
    var raw' := r.raw.value;
    var a := s.arena.value;
    var a' := r.arena.value;
    assert C.Get(a, h).Some? by { assert a.data[h.index].Some?; }
    C.DeletePreservesValid(a, h);
    if s.cells[s.bufferRef].Some? {
      TransformSync.RemoveKeepsBufferCurrent(raw, h);
    }
    forall i | 0 <= i < |raw'.slots| && raw'.slots[i].Some?
      ensures DimOf(raw'.slots[i].value.body.state) == raw'.dim
    {
      assert raw'.slots[i] == raw.slots[i];
    }
    forall i | 0 <= i < |a'.data| && a'.data[i].Some?
      ensures i < |raw'.slots| && raw'.slots[i].Some?
      ensures a'.data[i].value.handle == Handle(i, raw'.slots[i].value.generation)
      ensures a'.data[i].value.bufferRef == r.bufferRef
    {
      assert a'.data[i] == a.data[i];
      assert raw'.slots[i] == raw.slots[i];
    }
    forall i | 0 <= i < |raw'.slots| && raw'.slots[i].Some?
      ensures i < |a'.data| && a'.data[i].Some?
    {
      assert raw'.slots[i] == raw.slots[i];
      assert a'.data[i] == a.data[i];
    }
  }

  /** A world step keeps the mirror and leaves the shared ref viewing a current buffer. */
  lemma StepPreservesConsistent<U>(s: RigidBodySet<U>, physics: BodyState -> BodyState)
    requires Consistent(s)
    requires forall b :: DimOf(physics(b)) == DimOf(b)
    ensures Consistent(StepWorld(s, physics)) && Coherent(StepWorld(s, physics))
    ensures Len(StepWorld(s, physics)) == Len(s)
  {
    var r := StepWorld(s, physics);
    var raw := s.raw.value;
    var raw' := r.raw.value;
    var data := s.arena.value.data;
    assert raw' == TransformSync.Step(raw, physics);
    forall i | 0 <= i < |data| && data[i].Some?
      ensures i < |raw'.slots| && raw'.slots[i].Some?
      ensures data[i].value.handle == Handle(i, raw'.slots[i].value.generation)
    {
      var h := Handle(i, raw.slots[i].value.generation);
      assert NativeBodySet.Contains(raw, h);
      assert NativeBodySet.Contains(raw', h);
    }
    forall i | 0 <= i < |raw'.slots| && raw'.slots[i].Some?
      ensures i < |data| && data[i].Some?
    {
      var h := Handle(i, raw'.slots[i].value.generation);
      assert NativeBodySet.Contains(raw', h);
      assert NativeBodySet.Contains(raw, h);
    }
  }

  /**
   * The dual path is sound: on a consistent, coherent set, reading any field of any
   * wrapper the set holds succeeds and yields the native body's current value,
   * whether the shared ref is null (native accessor) or a view (buffer record).
   */
  lemma ReadsAgreeWithNative<U>(s: RigidBodySet<U>, h: Handle, f: Field)
    requires Consistent(s) && Coherent(s)
    requires Get(s, h).Some?
    ensures var b := Get(s, h).value;
      && NativeBodySet.Contains(s.raw.value, b.handle)
      && ReadField(s, b, f) == Success(FieldValues(NativeBodySet.Get(s.raw.value, b.handle).value.state, f))
  {
    var raw := s.raw.value;
    var b := Get(s, h).value;
    var d := raw.dim;
    LookupMatchesNative(s, h);
    assert b.bufferRef == s.bufferRef by { assert s.arena.value.data[h.index].Some?; }
    var i := b.handle.index;
    var state := NativeBodySet.Get(raw, b.handle).value.state;
    match s.cells[b.bufferRef]
    case None =>
    case Some(buf) =>
      assert buf == raw.transformData;
      assert raw.slots[i].Some? && raw.slots[i].value.body.state == state;
      assert DimOf(state) == d;
      var a := RecordStart(d, i);
      assert BufferIndex(b.handle) * Stride(d) == a;
      assert a + Stride(d) <= |buf| && buf[a..a + Stride(d)] == Record(state);
      TransformSync.FieldSlice(buf, a, Record(state), Offset(d, f), Width(d, f));
  }

  /**
   * Right after `createRigidBody` every wrapper of the set reads through the native
   * accessor, so a body created since the last step never reads a stale record.
   */
  lemma CreateInvalidatesView<U>(s: RigidBodySet<U>, desc: RigidBodyDesc<U>, h: Handle, h': Handle, f: Field)
    requires Consistent(s)
    ensures var r := CreateRigidBody(s, desc, h).0;
      Get(r, h').Some? && Get(r, h').value.bufferRef == s.bufferRef ==>
        ReadField(r, Get(r, h').value, f) == Map(r.raw.value, Get(r, h').value.handle, (body: RigidBody) => FieldValues(body.state, f))
  {
  }

  /**
   * A body read right after `createRigidBody`, before any step, goes to the native
   * accessor and returns the descriptor's values.
   */
  lemma ReadAfterCreate<U>(s: RigidBodySet<U>, desc: RigidBodyDesc<U>, h: Handle, f: Field)
    requires Live(s)
    ensures var (r, b) := CreateRigidBody(s, desc, h);
      ReadField(r, b, f) == Success(FieldValues(desc.state, f))
  {
  }

  /** After `syncTransformBuffer` every wrapper of a consistent set reads through the new view. */
  lemma SyncSharedByAll<U>(s: RigidBodySet<U>, h: Handle)
    requires Consistent(s)
    requires Get(s, h).Some?
    ensures var r := SyncTransformBuffer(s);
      Get(s, h).value.bufferRef < |r.cells| && r.cells[Get(s, h).value.bufferRef] == Some(s.raw.value.transformData)
  {
    assert s.arena.value.data[h.index].Some?;
  }

  /**
   * `free` gives the set a fresh null ref; the ref objects bodies created earlier hold
   * keep their contents and are never the new one.
   */
  lemma FreeKeepsOldRefs<U>(s: RigidBodySet<U>, b: Body<U>)
    requires b.bufferRef < |s.cells|
    ensures var r := Free(s);
      b.bufferRef != r.bufferRef && r.cells[b.bufferRef] == s.cells[b.bufferRef]
  {
    var r := Free(s);
    assert r.cells[..|s.cells|][b.bufferRef] == r.cells[b.bufferRef];
  }

  // ---------------------------------------------------------------------------
  // Any sequence of host calls

  /**
   * A host call on a live set. `Create` carries the handle the native arena
   * allocates; `Step` carries the physics of the step.
   */
  datatype HostOp<U> =
    | CreateOp(desc: RigidBodyDesc<U>, h: Handle)
    | RemoveOp(h: Handle)
    | StepOp(physics: BodyState -> BodyState)

  /** Physics never turns a 3D body into a 2D one or back. */
  ghost predicate Admissible<U>(op: HostOp<U>)
  {
    op.StepOp? ==> forall b :: DimOf(op.physics(b)) == DimOf(b)
  }

  /**
   * One call. A creation the native arena could not have produced (occupied slot or
   * wrong dimension) and a failing removal leave the set as it was.
   */
  function ApplyHost<U>(s: RigidBodySet<U>, op: HostOp<U>): (r: RigidBodySet<U>)
    requires Consistent(s) && Coherent(s) && Admissible(op)
    ensures Consistent(r) && Coherent(r)
  {
    match op
    case CreateOp(desc, h) =>
      if FreshSlot(s.raw.value, h) && DimOf(desc.state) == s.raw.value.dim then
        CreatePreservesConsistent(s, desc, h);
        CreateRigidBody(s, desc, h).0
      else s
    case RemoveOp(h) =>
      var empty: C.Coarena<Handle> := C.New();
      if NativeBodySet.Contains(s.raw.value, h) then
        RemovePreservesConsistent(s, h, empty, empty, empty, [], []);
        Remove(s, h, empty, empty, empty, [], []).value.0
      else s
    case StepOp(physics) =>
      StepPreservesConsistent(s, physics);
      StepWorld(s, physics)
  }

  /** A sequence of calls keeps the host arena mirroring the native set and the shared view coherent. */
  function RunHost<U>(s: RigidBodySet<U>, ops: seq<HostOp<U>>): (r: RigidBodySet<U>)
    requires Consistent(s) && Coherent(s)
    requires forall k :: 0 <= k < |ops| ==> Admissible(ops[k])
    ensures Consistent(r) && Coherent(r)
    decreases |ops|
  {
    if |ops| == 0 then s else RunHost(ApplyHost(s, ops[0]), ops[1..])
  }

  /**
   * Over any sequence of creations, removals and steps from a new set, every
   * wrapper it holds reads, through either path, exactly its native body's current
   * field values.
   */
  lemma ReachableReadsAgree<U>(d: Dim, ops: seq<HostOp<U>>, h: Handle, f: Field)
    requires forall k :: 0 <= k < |ops| ==> Admissible(ops[k])
    ensures var r := RunHost(New(d), ops);
      Get(r, h).Some? ==>
        && NativeBodySet.Contains(r.raw.value, Get(r, h).value.handle)
        && ReadField(r, Get(r, h).value, f) == Success(FieldValues(NativeBodySet.Get(r.raw.value, Get(r, h).value.handle).value.state, f))
  {
    var r := RunHost(New(d), ops);
    if Get(r, h).Some? {
      ReadsAgreeWithNative(r, h, f);
    }
  }
}

/**
 * `sync_transform_data`: after a step the native set copies every live body's
 * translation, rotation, linear and angular velocity into its transform buffer,
 * at `index * stride`, growing the buffer (zero-filled) but never shrinking it.
 */
module TransformSync {
  import opened Wrappers
  import opened TransformLayout
  import opened NativeBodySet
  import Coarena

  /** The highest live index, if any body is live. */
  function HighestLive(slots: seq<Option<Entry>>): (r: Option<nat>)
    ensures r.Some? ==> r.value < |slots| && slots[r.value].Some?
    ensures r.Some? ==> forall i :: r.value < i < |slots| ==> slots[i].None?
    ensures r.None? ==> forall i :: 0 <= i < |slots| ==> slots[i].None?
  {
    if |slots| == 0 then None
    else if slots[|slots| - 1].Some? then Some(|slots| - 1)
    else HighestLive(slots[..|slots| - 1])
  }

  /**
   * The buffer length a sync needs: zero for an empty set, otherwise enough for
   * the record of the highest live index.
   */
  function RequiredLen(d: Dim, slots: seq<Option<Entry>>): (n: nat)
    ensures forall i :: 0 <= i < |slots| && slots[i].Some? ==> RecordStart(d, i) + Stride(d) <= n
    ensures n == 0 || exists i :: 0 <= i < |slots| && slots[i].Some? && n == RecordStart(d, i) + Stride(d)
  {
    match HighestLive(slots)
    case None => 0
    case Some(m) =>
      assert (m + 1) * Stride(d) == RecordStart(d, m) + Stride(d);
      forall i | 0 <= i < |slots| && slots[i].Some? ensures RecordStart(d, i) + Stride(d) <= RecordStart(d, m) + Stride(d) {
        if i < m {
          RecordsAscend(d, i, m);
        }
      }
      (m + 1) * Stride(d)
  }

  /** What a cell holds before any record is written: its old value, or 0.0 once grown. */
  function Initial(data: seq<real>, c: nat): real
  {
    if c < |data| then data[c] else 0.0
  }

  /** Reference definition of one cell of the synced buffer. */
  function PackedCell(d: Dim, slots: seq<Option<Entry>>, data: seq<real>, c: nat): real
    requires AllDim(d, slots)
  {
    var i := c / Stride(d);
    if i < |slots| && slots[i].Some? then Record(slots[i].value.body.state)[c % Stride(d)]
    else Initial(data, c)
  }

  /** Reference definition of the whole synced buffer. */
  function Packed(d: Dim, slots: seq<Option<Entry>>, data: seq<real>): seq<real>
    requires AllDim(d, slots)
  {
    var n := Max(|data|, RequiredLen(d, slots));
    seq(n, c requires 0 <= c < n => PackedCell(d, slots, data, c))
  }

  /** Overwrites `|rec|` cells starting at `off`. */
  function WriteRecord(buf: seq<real>, off: nat, rec: seq<real>): (r: seq<real>)
    requires off + |rec| <= |buf|
    ensures |r| == |buf|
    ensures forall c :: 0 <= c < |buf| ==> r[c] == if off <= c < off + |rec| then rec[c - off] else buf[c]
  {
    buf[..off] + rec + buf[off + |rec|..]
  }

  lemma CountHighest(slots: seq<Option<Entry>>)
    ensures Coarena.Count(slots) > 0 <==> HighestLive(slots).Some?
  {
    if HighestLive(slots).Some? {
      var m := HighestLive(slots).value;
      assert slots == slots[..m] + [slots[m]] + slots[m + 1..];
      Coarena.CountAppend(slots[..m] + [slots[m]], slots[m + 1..]);
      Coarena.CountAppend(slots[..m], [slots[m]]);
    } else {
      Coarena.CountNone(slots);
    }
  }

  /**
   * Packs every live body's record at `index * stride`. The first loop finds the
   * highest live index, the buffer is grown with zeros when too short, and the
   * second loop writes the records in arena order.
   */
  method SyncTransformData(d: Dim, slots: seq<Option<Entry>>, data: seq<real>) returns (out: seq<real>)
    requires AllDim(d, slots)
    ensures out == Packed(d, slots, data)
    ensures |out| >= |data|
    ensures |out| == Max(|data|, RequiredLen(d, slots))
  {
    var maxIndex := MaxLiveIndex(slots);
    CountHighest(slots);
    var requiredLen := if Coarena.Count(slots) > 0 then (maxIndex + 1) * Stride(d) else 0;
    assert requiredLen == RequiredLen(d, slots);

    var buf := data;
    if |buf| < requiredLen {
      buf := buf + seq(requiredLen - |buf|, _ => 0.0);
    }
    out := WriteRecords(d, slots, data, buf);
    assert |out| == |Packed(d, slots, data)|;
    forall c | 0 <= c < |out| ensures out[c] == Packed(d, slots, data)[c] {
      PackedAt(d, slots, data, c);
    }
  }

  /** The first loop: the highest live index, or 0 when no body is live. */
  method MaxLiveIndex(slots: seq<Option<Entry>>) returns (maxIndex: nat)
    ensures maxIndex == HighestLive(slots).GetOr(0)
  {
    maxIndex := 0;
    var k := 0;
    while k < |slots|
      invariant 0 <= k <= |slots|
      invariant maxIndex == HighestLive(slots[..k]).GetOr(0)
    {
      assert slots[..k + 1][..k] == slots[..k];
      if slots[k].Some? {
        maxIndex := Max(maxIndex, k);
      }
      k := k + 1;
    }
    assert slots[..k] == slots;
  }

  /** The second loop: writes each live record into a buffer long enough for all of them. */
  method WriteRecords(d: Dim, slots: seq<Option<Entry>>, data: seq<real>, buf: seq<real>) returns (out: seq<real>)
    requires AllDim(d, slots)
    requires RequiredLen(d, slots) <= |buf|
    requires forall c :: 0 <= c < |buf| ==> buf[c] == Initial(data, c)
    ensures |out| == |buf|
    ensures forall c :: 0 <= c < |out| ==> out[c] == PackedCell(d, slots, data, c)
  {
    var s := Stride(d);
    var n := |buf|;
    out := buf;
    var k := 0;
    while k < |slots|
      invariant 0 <= k <= |slots|
      invariant |out| == n
      invariant forall c :: 0 <= c < n ==>
        out[c] == if c / s < k then PackedCell(d, slots, data, c) else Initial(data, c)
    {
      if slots[k].Some? {
        out := WriteOne(d, slots, data, out, k);
      }
      k := k + 1;
    }
    forall c | 0 <= c < n ensures out[c] == PackedCell(d, slots, data, c) {
      if c / s >= |slots| {
      }
    }
  }

  /** One iteration of the second loop on a live index `k`. */
  method WriteOne(d: Dim, slots: seq<Option<Entry>>, data: seq<real>, buf: seq<real>, k: nat) returns (out: seq<real>)
    requires AllDim(d, slots)
    requires k < |slots| && slots[k].Some?
    requires RequiredLen(d, slots) <= |buf|
    requires forall c :: 0 <= c < |buf| ==>
      buf[c] == if c / Stride(d) < k then PackedCell(d, slots, data, c) else Initial(data, c)
    ensures |out| == |buf|
    ensures forall c :: 0 <= c < |out| ==>
      out[c] == if c / Stride(d) < k + 1 then PackedCell(d, slots, data, c) else Initial(data, c)
  {
    var s := Stride(d);
    var rec := Record(slots[k].value.body.state);
    var off := k * s;
    assert off + |rec| <= |buf|;
    out := WriteRecord(buf, off, rec);
    forall c | 0 <= c < |out|
      ensures out[c] == if c / s < k + 1 then PackedCell(d, slots, data, c) else Initial(data, c)
    {
      CellStep(d, slots, data, k, c, buf[c], out[c]);
    }
  }

  /** One cell across one iteration: inside record `k` it becomes packed, elsewhere it is kept. */
  lemma CellStep(d: Dim, slots: seq<Option<Entry>>, data: seq<real>, k: nat, c: nat, before: real, after: real)
    requires AllDim(d, slots)
    requires k < |slots| && slots[k].Some?
    requires before == if c / Stride(d) < k then PackedCell(d, slots, data, c) else Initial(data, c)
    requires after == if RecordStart(d, k) <= c < RecordStart(d, k) + Stride(d)
      then Record(slots[k].value.body.state)[c - RecordStart(d, k)] else before
    ensures after == if c / Stride(d) < k + 1 then PackedCell(d, slots, data, c) else Initial(data, c)
  {
    RecordOwner(d, k, c);
  }

  // ---------------------------------------------------------------------------
  // What a synced buffer holds

  lemma PackedAt(d: Dim, slots: seq<Option<Entry>>, data: seq<real>, c: nat)
    requires AllDim(d, slots)
    requires c < Max(|data|, RequiredLen(d, slots))
    ensures |Packed(d, slots, data)| == Max(|data|, RequiredLen(d, slots))
    ensures Packed(d, slots, data)[c] == PackedCell(d, slots, data, c)
  {
  }

  /** The record of every live index sits at `index * stride`. */
  lemma PackedRecord(d: Dim, slots: seq<Option<Entry>>, data: seq<real>, i: nat)
    requires AllDim(d, slots)
    requires i < |slots| && slots[i].Some?
    ensures RecordStart(d, i) + Stride(d) <= |Packed(d, slots, data)|
    ensures Packed(d, slots, data)[RecordStart(d, i)..RecordStart(d, i) + Stride(d)] == Record(slots[i].value.body.state)
  {
    var p := Packed(d, slots, data);
    var rec := Record(slots[i].value.body.state);
    var a := RecordStart(d, i);
    var slice := p[a..a + Stride(d)];
    forall o | 0 <= o < Stride(d)
      ensures slice[o] == rec[o]
    {
      PackedRecordCell(d, slots, data, i, o);
    }
    assert slice == rec;
  }

  lemma PackedRecordCell(d: Dim, slots: seq<Option<Entry>>, data: seq<real>, i: nat, o: nat)
    requires AllDim(d, slots)
    requires i < |slots| && slots[i].Some?
    requires o < Stride(d)
    ensures RecordStart(d, i) + o < |Packed(d, slots, data)|
    ensures Packed(d, slots, data)[RecordStart(d, i) + o] == Record(slots[i].value.body.state)[o]
  {
    var c := RecordStart(d, i) + o;
    RecordOwner(d, i, c);
    PackedAt(d, slots, data, c);
  }

  /** Each field of a live body reads back from its offset inside the body's record. */
  lemma PackedField(d: Dim, slots: seq<Option<Entry>>, data: seq<real>, i: nat, f: Field)
    requires AllDim(d, slots)
    requires i < |slots| && slots[i].Some?
    ensures RecordStart(d, i) + Offset(d, f) + Width(d, f) <= |Packed(d, slots, data)|
    ensures Packed(d, slots, data)[RecordStart(d, i) + Offset(d, f)..RecordStart(d, i) + Offset(d, f) + Width(d, f)]
      == FieldValues(slots[i].value.body.state, f)
  {
    var p := Packed(d, slots, data);
    var a := RecordStart(d, i);
    var rec := Record(slots[i].value.body.state);
    PackedRecord(d, slots, data, i);
    FieldSlice(p, a, rec, Offset(d, f), Width(d, f));
    assert rec[Offset(d, f)..Offset(d, f) + Width(d, f)] == FieldValues(slots[i].value.body.state, f);
  }

  lemma FieldSlice(p: seq<real>, a: nat, rec: seq<real>, o: nat, w: nat)
    requires a + |rec| <= |p| && p[a..a + |rec|] == rec
    requires o + w <= |rec|
    ensures p[a + o..a + o + w] == rec[o..o + w]
  {
    var lhs := p[a + o..a + o + w];
    var rhs := rec[o..o + w];
    forall k | 0 <= k < w ensures lhs[k] == rhs[k] {
      assert p[a..a + |rec|][o + k] == p[a + o + k];
    }
  }

  /** A cell outside every live record is not written: it keeps its value, or is 0.0 if new. */
  lemma PackedUnowned(d: Dim, slots: seq<Option<Entry>>, data: seq<real>, c: nat)
    requires AllDim(d, slots)
    requires c < |Packed(d, slots, data)|
    requires forall i :: 0 <= i < |slots| && slots[i].Some? ==> !(RecordStart(d, i) <= c < RecordStart(d, i) + Stride(d))
    ensures Packed(d, slots, data)[c] == Initial(data, c)
  {
    var i := c / Stride(d);
    RecordOwner(d, i, c);
    PackedAt(d, slots, data, c);
  }

  /** `buf` holds the record of every live body of `slots` at `index * stride`. */
  ghost predicate RecordsAt(d: Dim, slots: seq<Option<Entry>>, buf: seq<real>)
  {
    forall i :: 0 <= i < |slots| && slots[i].Some? ==>
      && RecordStart(d, i) + Stride(d) <= |buf|
      && buf[RecordStart(d, i)..RecordStart(d, i) + Stride(d)] == Record(slots[i].value.body.state)
  }

  /** The native buffer holds the current record of every live body. */
  ghost predicate BufferCurrent(s: RawRigidBodySet)
  {
    RecordsAt(s.dim, s.slots, s.transformData)
  }

  lemma PackedIsCurrent(d: Dim, slots: seq<Option<Entry>>, data: seq<real>)
    requires AllDim(d, slots)
    ensures RecordsAt(d, slots, Packed(d, slots, data))
  {
    forall i | 0 <= i < |slots| && slots[i].Some?
      ensures RecordStart(d, i) + Stride(d) <= |Packed(d, slots, data)|
      ensures Packed(d, slots, data)[RecordStart(d, i)..RecordStart(d, i) + Stride(d)] == Record(slots[i].value.body.state)
    {
      PackedRecord(d, slots, data, i);
    }
  }

  /** Every live body's state replaced by `physics` of it; handles and other fields kept. */
  function Moved(slots: seq<Option<Entry>>, physics: BodyState -> BodyState): (r: seq<Option<Entry>>)
    ensures |r| == |slots|
    ensures forall i :: 0 <= i < |slots| ==> (r[i].Some? <==> slots[i].Some?)
    ensures forall i :: 0 <= i < |slots| && slots[i].Some? ==>
      r[i].value == slots[i].value.(body := slots[i].value.body.(state := physics(slots[i].value.body.state)))
  {
    seq(|slots|, i requires 0 <= i < |slots| =>
      match slots[i]
      case None => None
      case Some(e) => Some(e.(body := e.body.(state := physics(e.body.state)))))
  }

  /**
   * A native step: physics (a parameter of the model) moves every live body, then
   * the set's buffer is re-packed. Handles, types and colliders are unchanged.
   */
  function Step(s: RawRigidBodySet, physics: BodyState -> BodyState): (r: RawRigidBodySet)
    requires AllDim(s.dim, s.slots)
    requires forall b :: DimOf(physics(b)) == DimOf(b)
    ensures AllDim(r.dim, r.slots) && r.dim == s.dim && |r.slots| == |s.slots|
    ensures forall h :: Contains(r, h) <==> Contains(s, h)
    ensures forall h :: Contains(s, h) ==>
      Get(r, h) == Some(Get(s, h).value.(state := physics(Get(s, h).value.state)))
    ensures |r.transformData| >= |s.transformData|
    ensures BufferCurrent(r)
  {
    var moved := Moved(s.slots, physics);
    PackedIsCurrent(s.dim, moved, s.transformData);
    var r := s.(slots := moved, transformData := Packed(s.dim, moved, s.transformData));
    forall h | Contains(s, h)
      ensures Get(r, h) == Some(Get(s, h).value.(state := physics(Get(s, h).value.state)))
    {
      assert moved[h.index].value.generation == s.slots[h.index].value.generation;
    }
    forall h | Contains(r, h) ensures Contains(s, h) {
      assert moved[h.index].value.generation == s.slots[h.index].value.generation;
    }
    r
  }

  /** Removing a body keeps the buffer current for the bodies that remain. */
  lemma RemoveKeepsBufferCurrent(s: RawRigidBodySet, h: Handles.Handle)
    requires BufferCurrent(s)
    ensures BufferCurrent(Remove(s, h))
  {
    var r := Remove(s, h);
    forall i | 0 <= i < |r.slots| && r.slots[i].Some?
      ensures RecordStart(r.dim, i) + Stride(r.dim) <= |r.transformData|
      ensures r.transformData[RecordStart(r.dim, i)..RecordStart(r.dim, i) + Stride(r.dim)] == Record(r.slots[i].value.body.state)
    {
      assert r.slots[i] == s.slots[i];
    }
  }
}

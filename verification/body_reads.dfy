/**
 * What a body accessor gets back when it reads the buffer: each `fromBuffer`
 * helper, pointed at a field's offset inside a body's record, rebuilds exactly the
 * field of the body state the record was packed from.
 */
module BodyReads {
  import opened Wrappers
  import opened Components
  import opened ObjectStore
  import opened TransformLayout
  import opened NativeBodySet
  import Math2
  import Math3

  /** The scalars from field `f` of the record starting at `a` to the end of the buffer. */
  function FieldView(buf: seq<real>, a: nat, d: Dim, f: Field): (v: seq<real>)
    requires a + Stride(d) <= |buf|
    ensures |v| >= Width(d, f)
  {
    FieldsTileRecord(d);
    buf[a + Offset(d, f)..]
  }

  /** A view of a record's field starts with that field's values. */
  lemma ViewStartsWithField(buf: seq<real>, a: nat, b: BodyState, f: Field)
    requires a + Stride(DimOf(b)) <= |buf| && buf[a..a + Stride(DimOf(b))] == Record(b)
    ensures FieldView(buf, a, DimOf(b), f)[..Width(DimOf(b), f)] == FieldValues(b, f)
  {
    var d := DimOf(b);
    FieldsTileRecord(d);
    var lhs := FieldView(buf, a, d, f)[..Width(d, f)];
    var rhs := Record(b)[Offset(d, f)..Offset(d, f) + Width(d, f)];
    forall k | 0 <= k < Width(d, f) ensures lhs[k] == rhs[k] {
      assert buf[a..a + Stride(d)][Offset(d, f) + k] == buf[a + Offset(d, f) + k];
    }
    assert lhs == rhs;
  }

  /**
   * 3D: translation, linear and angular velocity read through `VectorOps.fromBuffer`,
   * rotation through `RotationOps.fromBuffer`, reproduce the packed body state.
   */
  lemma Decode3(heap: Math3.Heap, buf: seq<real>, a: nat, b: BodyState, tv: Option<Ref>, tr: Option<Ref>)
    requires b.Body3? && a + Stride(Dim3) <= |buf| && buf[a..a + Stride(Dim3)] == Record(b)
    requires Math3.VectorRef(heap, tv) && Math3.RotationRef(heap, tr)
    ensures var r := Math3.VectorFromBuffer(heap, FieldView(buf, a, Dim3, Translation), tv);
      r.0.vectors[r.1] == b.translation
    ensures var r := Math3.RotationFromBuffer(heap, FieldView(buf, a, Dim3, Rotation), tr);
      r.0.rotations[r.1] == b.rotation
    ensures var r := Math3.VectorFromBuffer(heap, FieldView(buf, a, Dim3, Linvel), tv);
      r.0.vectors[r.1] == b.linvel
    ensures var r := Math3.VectorFromBuffer(heap, FieldView(buf, a, Dim3, Angvel), tv);
      r.0.vectors[r.1] == b.angvel
  {
    ViewStartsWithField(buf, a, b, Translation);
    ViewStartsWithField(buf, a, b, Rotation);
    ViewStartsWithField(buf, a, b, Linvel);
    ViewStartsWithField(buf, a, b, Angvel);
  }

  /** 2D: the same for vectors, and `RotationOps.fromBuffer` yields the packed angle. */
  lemma Decode2(heap: Math2.Heap, buf: seq<real>, a: nat, b: BodyState, tv: Option<Ref>)
    requires b.Body2? && a + Stride(Dim2) <= |buf| && buf[a..a + Stride(Dim2)] == Record(b)
    requires Math2.VectorRef(heap, tv)
    ensures var r := Math2.VectorFromBuffer(heap, FieldView(buf, a, Dim2, Translation), tv);
      r.0.vectors[r.1] == b.translation2
    ensures Math2.RotationFromBuffer(FieldView(buf, a, Dim2, Rotation)) == b.angle
    ensures var r := Math2.VectorFromBuffer(heap, FieldView(buf, a, Dim2, Linvel), tv);
      r.0.vectors[r.1] == b.linvel2
    ensures FieldView(buf, a, Dim2, Angvel)[0] == b.angvel2
  {
    ViewStartsWithField(buf, a, b, Translation);
    ViewStartsWithField(buf, a, b, Rotation);
    ViewStartsWithField(buf, a, b, Linvel);
    ViewStartsWithField(buf, a, b, Angvel);
  }
}

/**
 * Layout of the packed transform buffer shared between the native module and the
 * host: one fixed-size record per arena index, holding translation, rotation,
 * linear velocity and angular velocity, in that order.
 */
module TransformLayout {
  import opened Handles

  datatype Dim = Dim2 | Dim3

  datatype Field = Translation | Rotation | Linvel | Angvel

  /** `BODY_TRANSFORM_STRIDE` of the host packages. */
  const HOST_STRIDE_3D: nat := 13
  const HOST_STRIDE_2D: nat := 6

  /** `BODY_STRIDE` of the native transform-buffer module. */
  const NATIVE_STRIDE_3D: nat := 13
  const NATIVE_STRIDE_2D: nat := 6

  /** `BODY_STRIDE` as redeclared by the native rigid-body set. */
  const SET_STRIDE_3D: nat := 13
  const SET_STRIDE_2D: nat := 6

  /** Number of scalars of each field. */
  function Width(d: Dim, f: Field): nat
  {
    match (d, f)
    case (Dim3, Translation) => 3
    case (Dim3, Rotation) => 4
    case (Dim3, Linvel) => 3
    case (Dim3, Angvel) => 3
    case (Dim2, Translation) => 2
    case (Dim2, Rotation) => 1
    case (Dim2, Linvel) => 2
    case (Dim2, Angvel) => 1
  }

  /** Offset of each field inside a record. */
  function Offset(d: Dim, f: Field): nat
  {
    match (d, f)
    case (Dim3, Translation) => 0
    case (Dim3, Rotation) => 3
    case (Dim3, Linvel) => 7
    case (Dim3, Angvel) => 10
    case (Dim2, Translation) => 0
    case (Dim2, Rotation) => 2
    case (Dim2, Linvel) => 3
    case (Dim2, Angvel) => 5
  }

  /**
   * The host stride of a dimension. It is the sum of the field widths and agrees
   * with both native declarations of the stride.
   */
  function Stride(d: Dim): (s: nat)
    ensures s == Width(d, Translation) + Width(d, Rotation) + Width(d, Linvel) + Width(d, Angvel)
    ensures s == NativeStride(d) && s == SetStride(d)
    ensures s > 0
  {
    match d
    case Dim3 => HOST_STRIDE_3D
    case Dim2 => HOST_STRIDE_2D
  }

  /** `BODY_STRIDE` of the native transform buffer. */
  function NativeStride(d: Dim): (s: nat)
    ensures s == Width(d, Translation) + Width(d, Rotation) + Width(d, Linvel) + Width(d, Angvel)
  {
    match d
    case Dim3 => NATIVE_STRIDE_3D
    case Dim2 => NATIVE_STRIDE_2D
  }

  /** `transformBufferStride`: the stride the native set reports to the host. */
  function SetStride(d: Dim): (s: nat)
    ensures s == Width(d, Translation) + Width(d, Rotation) + Width(d, Linvel) + Width(d, Angvel)
  {
    match d
    case Dim3 => SET_STRIDE_3D
    case Dim2 => SET_STRIDE_2D
  }

  /** Fields follow each other without gaps, in declaration order, and end at the stride. */
  lemma FieldsTileRecord(d: Dim)
    ensures Offset(d, Translation) == 0
    ensures Offset(d, Rotation) == Offset(d, Translation) + Width(d, Translation)
    ensures Offset(d, Linvel) == Offset(d, Rotation) + Width(d, Rotation)
    ensures Offset(d, Angvel) == Offset(d, Linvel) + Width(d, Linvel)
    ensures Offset(d, Angvel) + Width(d, Angvel) == Stride(d)
  {
  }

  /** The field that owns offset `o` of a record. */
  function FieldAt(d: Dim, o: nat): (f: Field)
    requires o < Stride(d)
    ensures Offset(d, f) <= o < Offset(d, f) + Width(d, f)
  {
    if o < Offset(d, Rotation) then Translation
    else if o < Offset(d, Linvel) then Rotation
    else if o < Offset(d, Angvel) then Linvel
    else Angvel
  }

  /** Distinct fields occupy disjoint offsets. */
  lemma FieldsDisjoint(d: Dim, f: Field, g: Field, o: nat)
    requires Offset(d, f) <= o < Offset(d, f) + Width(d, f)
    requires Offset(d, g) <= o < Offset(d, g) + Width(d, g)
    ensures f == g
  {
  }

  /** The arena index of a body as the host transform buffer decodes it: the low word. */
  function BufferIndex(h: Handle): (i: U32)
    ensures i == HandleToIndex(h)
  {
    DecodeEncode(h);
    Encode(h) % WORD
  }

  /** Handles that differ only in their generation address the same record. */
  lemma BufferIndexIgnoresGeneration(h1: Handle, h2: Handle)
    requires h1.index == h2.index
    ensures BufferIndex(h1) == BufferIndex(h2)
  {
  }

  /** First cell of the record of arena index `i`. */
  function RecordStart(d: Dim, i: nat): nat
  {
    i * Stride(d)
  }

  /** Cell `c` lies in the record of index `i` exactly when `c / stride == i`. */
  lemma {:induction false} RecordOwner(d: Dim, i: nat, c: nat)
    ensures RecordStart(d, i) <= c < RecordStart(d, i) + Stride(d) <==> c / Stride(d) == i
    ensures c / Stride(d) == i ==> c % Stride(d) == c - RecordStart(d, i)
  {
    match d
    case Dim3 => assert Stride(d) == 13;
    case Dim2 => assert Stride(d) == 6;
  }

  /** Records of distinct indices do not overlap. */
  lemma RecordsDisjoint(d: Dim, i: nat, j: nat, c: nat)
    requires i != j
    requires RecordStart(d, i) <= c < RecordStart(d, i) + Stride(d)
    ensures !(RecordStart(d, j) <= c < RecordStart(d, j) + Stride(d))
  {
    RecordOwner(d, i, c);
    RecordOwner(d, j, c);
  }

  /** Every record ends no later than where the next index's record begins. */
  lemma RecordsAscend(d: Dim, i: nat, j: nat)
    requires i < j
    ensures RecordStart(d, i) + Stride(d) <= RecordStart(d, j)
  {
    match d
    case Dim3 => assert Stride(d) == 13;
    case Dim2 => assert Stride(d) == 6;
  }
}

/**
 * Host objects with identity. A reference is a position in a store of object
 * values: allocating appends, writing a field overwrites one position in place.
 * This is what lets the model state that an accessor hands back the very target
 * object it was given, and that it allocated nothing.
 */
module ObjectStore {

  type Ref = nat

  /** Appends a new object; its reference is the old store size. */
  function Alloc<V>(objs: seq<V>, v: V): (r: (seq<V>, Ref))
    ensures r.1 == |objs| && r.0 == objs + [v]
  {
    (objs + [v], |objs|)
  }

  /** Overwrites the object at `r` in place. */
  function Write<V>(objs: seq<V>, r: Ref, v: V): (objs': seq<V>)
    requires r < |objs|
    ensures |objs'| == |objs| && objs'[r] == v
    ensures forall q :: 0 <= q < |objs| && q != r ==> objs'[q] == objs[q]
  {
    objs[r := v]
  }
}

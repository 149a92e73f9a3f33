/**
 * The host-side sparse arena: a growable sequence of optional slots indexed by
 * the low word of a handle, plus a counter of occupied slots.
 */
module Coarena {
  import opened Wrappers
  import opened Handles

  datatype Coarena<T> = Coarena(data: seq<Option<T>>, size: int)

  /** Number of occupied slots in `data`. */
  function Count<T>(data: seq<Option<T>>): nat
  {
    if |data| == 0 then 0
    else (if data[0].Some? then 1 else 0) + Count(data[1..])
  }

  /** The occupied slots of `data`, in ascending index order. */
  function Values<T>(data: seq<Option<T>>): seq<T>
  {
    if |data| == 0 then []
    else (if data[0].Some? then [data[0].value] else []) + Values(data[1..])
  }

  /** The value stored at slot `i`, or `None` when `i` lies beyond the storage. */
  function Slot<T>(data: seq<Option<T>>, i: nat): Option<T>
  {
    if i < |data| then data[i] else None
  }

  /** The counter agrees with the occupancy of the slots. */
  ghost predicate Valid<T>(a: Coarena<T>)
  {
    a.size == Count(a.data)
  }

  /** A fresh arena: no slots, counter zero. */
  function New<T>(): (a: Coarena<T>)
    ensures Valid(a)
    ensures forall h :: Get(a, h) == None
  {
    Coarena([], 0)
  }

  /** Pushes empty slots until slot `i` exists; existing slots are kept. */
  function Grow<T>(data: seq<Option<T>>, i: nat): (r: seq<Option<T>>)
    decreases i + 1 - |data|
    ensures |r| == Max(|data|, i + 1)
    ensures r[..|data|] == data
    ensures forall j :: |data| <= j < |r| ==> r[j] == None
  {
    if |data| > i then data else Grow(data + [None], i)
  }

  /**
   * Stores `v` under `h`, growing the storage if needed; the counter moves only
   * when an empty slot becomes occupied.
   */
  function Set<T>(a: Coarena<T>, h: Handle, v: T): (r: Coarena<T>)
    ensures |r.data| == Max(|a.data|, HandleToIndex(h) + 1)
    ensures Get(r, h) == Some(v)
    ensures forall j :: 0 <= j < |r.data| && j != HandleToIndex(h) ==> r.data[j] == Slot(a.data, j)
    ensures r.size == a.size + (if Get(a, h).None? then 1 else 0)
  {
    var i := HandleToIndex(h);
    var grown := Grow(a.data, i);
    assert grown[i] == Slot(a.data, i);
    Coarena(grown[i := Some(v)], if grown[i].None? then a.size + 1 else a.size)
  }

  /** The value stored under `h`, `None` for an empty slot or an index past the storage. */
  function Get<T>(a: Coarena<T>, h: Handle): (r: Option<T>)
    ensures HandleToIndex(h) >= |a.data| ==> r == None
    ensures r.Some? ==> r.value in Values(a.data)
  {
    var i := HandleToIndex(h);
    if i < |a.data| then
      if a.data[i].Some? then
        ValuesContains(a.data, i);
        a.data[i]
      else None
    else None
  }

  /**
   * Empties the slot of `h`; an index past the storage is ignored. The counter
   * moves only when an occupied slot becomes empty.
   */
  function Delete<T>(a: Coarena<T>, h: Handle): (r: Coarena<T>)
    ensures |r.data| == |a.data|
    ensures Get(r, h) == None
    ensures HandleToIndex(h) >= |a.data| ==> r == a
    ensures forall j :: 0 <= j < |r.data| && j != HandleToIndex(h) ==> r.data[j] == a.data[j]
    ensures r.size == a.size - (if Get(a, h).Some? then 1 else 0)
  {
    var i := HandleToIndex(h);
    if i < |a.data| then
      Coarena(a.data[i := None], if a.data[i].Some? then a.size - 1 else a.size)
    else a
  }

  /** Drops every slot. As written, the counter is NOT reset. */
  function Clear<T>(a: Coarena<T>): (r: Coarena<T>)
    ensures forall h :: Get(r, h) == None
    ensures Values(r.data) == []
    ensures r.size == a.size
  {
    a.(data := [])
  }

  /** The counter, which equals the number of stored values on a valid arena. */
  function Len<T>(a: Coarena<T>): (n: int)
    ensures Valid(a) ==> n == |GetAll(a)|
  {
    CountValues(a.data);
    a.size
  }

  /** A snapshot of the stored values in ascending slot order. */
  function GetAll<T>(a: Coarena<T>): (r: seq<T>)
    ensures |r| == Count(a.data)
    ensures forall j :: 0 <= j < |a.data| && a.data[j].Some? ==> a.data[j].value in r
    ensures forall k :: 0 <= k < |r| ==> exists j :: 0 <= j < |a.data| && a.data[j] == Some(r[k])
  {
    ValuesExact(a.data);
    Values(a.data)
  }

  /**
   * Calls `f` on every stored value in ascending slot order; the model returns
   * the sequence of values `f` is called on.
   */
  method ForEach<T>(a: Coarena<T>) returns (visited: seq<T>)
    ensures visited == GetAll(a)
  {
    visited := [];
    var k := 0;
    while k < |a.data|
      invariant 0 <= k <= |a.data|
      invariant visited == Values(a.data[..k])
    {
      ValuesAppend(a.data[..k], [a.data[k]]);
      assert a.data[..k + 1] == a.data[..k] + [a.data[k]];
      if a.data[k].Some? {
        visited := visited + [a.data[k].value];
      }
      k := k + 1;
    }
    assert a.data[..k] == a.data;
  }

  // ---------------------------------------------------------------------------
  // Counting and filtering facts

  lemma {:induction false} ValuesAppend<T>(s: seq<Option<T>>, t: seq<Option<T>>)
    ensures Values(s + t) == Values(s) + Values(t)
  {
    if |s| == 0 {
      assert s + t == t;
    } else {
      var head := if s[0].Some? then [s[0].value] else [];
      assert (s + t)[0] == s[0];
      assert (s + t)[1..] == s[1..] + t;
      assert Values(s + t) == head + Values(s[1..] + t);
      ValuesAppend(s[1..], t);
      assert Values(s) == head + Values(s[1..]);
    }
  }

  lemma {:induction false} CountAppend<T>(s: seq<Option<T>>, t: seq<Option<T>>)
    ensures Count(s + t) == Count(s) + Count(t)
  {
    if |s| == 0 {
      assert s + t == t;
    } else {
      assert (s + t)[1..] == s[1..] + t;
      CountAppend(s[1..], t);
    }
  }

  lemma {:induction false} CountValues<T>(s: seq<Option<T>>)
    ensures |Values(s)| == Count(s)
  {
    if |s| > 0 {
      CountValues(s[1..]);
    }
  }

  lemma {:induction false} ValuesContains<T>(s: seq<Option<T>>, j: nat)
    requires j < |s| && s[j].Some?
    ensures s[j].value in Values(s)
  {
    if j > 0 {
      ValuesContains(s[1..], j - 1);
    }
  }

  lemma ValuesExact<T>(s: seq<Option<T>>)
    ensures |Values(s)| == Count(s)
    ensures forall j :: 0 <= j < |s| && s[j].Some? ==> s[j].value in Values(s)
    ensures forall k :: 0 <= k < |Values(s)| ==> exists j :: 0 <= j < |s| && s[j] == Some(Values(s)[k])
  {
    CountValues(s);
    forall j | 0 <= j < |s| && s[j].Some? ensures s[j].value in Values(s) {
      ValuesContains(s, j);
    }
    forall k | 0 <= k < |Values(s)| ensures exists j :: 0 <= j < |s| && s[j] == Some(Values(s)[k]) {
      var j := ValuesSource(s, Values(s)[k]);
    }
  }

  lemma {:induction false} ValuesSource<T>(s: seq<Option<T>>, v: T) returns (j: nat)
    requires v in Values(s)
    ensures j < |s| && s[j] == Some(v)
  {
    if s[0] == Some(v) {
      j := 0;
    } else {
      var j' := ValuesSource(s[1..], v);
      j := j' + 1;
    }
  }

  /** Overwriting one slot moves the occupied count by the change at that slot. */
  lemma {:induction false} CountUpdate<T>(s: seq<Option<T>>, i: nat, x: Option<T>)
    requires i < |s|
    ensures Count(s[i := x]) == Count(s) - (if s[i].Some? then 1 else 0) + (if x.Some? then 1 else 0)
  {
    if i == 0 {
      assert s[i := x][1..] == s[1..];
    } else {
      assert s[i := x][1..] == s[1..][i - 1 := x];
      CountUpdate(s[1..], i - 1, x);
    }
  }

  lemma {:induction false} CountNone<T>(s: seq<Option<T>>)
    requires forall j :: 0 <= j < |s| ==> s[j] == None
    ensures Count(s) == 0
  {
    if |s| > 0 {
      CountNone(s[1..]);
    }
  }

  lemma CountGrow<T>(data: seq<Option<T>>, i: nat)
    ensures Count(Grow(data, i)) == Count(data)
  {
    var g := Grow(data, i);
    assert g == data + g[|data|..];
    CountAppend(data, g[|data|..]);
    CountNone(g[|data|..]);
  }

  // ---------------------------------------------------------------------------
  // The counter invariant

  lemma SetPreservesValid<T>(a: Coarena<T>, h: Handle, v: T)
    requires Valid(a)
    ensures Valid(Set(a, h, v))
  {
    var i := HandleToIndex(h);
    var grown := Grow(a.data, i);
    CountGrow(a.data, i);
    CountUpdate(grown, i, Some(v));
    assert grown[i] == Slot(a.data, i);
  }

  lemma DeletePreservesValid<T>(a: Coarena<T>, h: Handle)
    requires Valid(a)
    ensures Valid(Delete(a, h))
  {
    var i := HandleToIndex(h);
    if i < |a.data| {
      CountUpdate(a.data, i, None);
    }
  }

  /** `Clear` leaves a valid arena only when it was already empty: the counter survives. */
  lemma ClearValidity<T>(a: Coarena<T>)
    ensures Valid(Clear(a)) <==> a.size == 0
  {
  }

  /** One stored value, then `Clear`: nothing is stored but `Len` still reports one. */
  lemma ClearLeavesStaleLen<T>(v: T)
    ensures var a := Clear(Set(New(), Handle(0, 0), v));
      Len(a) == 1 && GetAll(a) == [] && !Valid(a)
  {
    var s := Set(New<T>(), Handle(0, 0), v);
    assert Get(New<T>(), Handle(0, 0)).None?;
  }

  /** `Clear` with the counter reset as well: the empty structure of a new arena. */
  function Reset<T>(a: Coarena<T>): (r: Coarena<T>)
    ensures Valid(r)
    ensures forall h :: Get(r, h) == None
    ensures Len(r) == 0 && GetAll(r) == []
  {
    Coarena([], 0)
  }

  /** After a reset the arena behaves as a new one under any sequence of sets and deletes. */
  lemma ResetActsAsNew<T>(a: Coarena<T>, ops: seq<Op<T>>)
    ensures Run(Reset(a), ops) == Run(New(), ops)
    ensures Len(Run(Reset(a), ops)) == |GetAll(Run(Reset(a), ops))|
  {
    RunPreservesValid(Reset(a), ops);
  }

  datatype Op<T> = SetOp(h: Handle, v: T) | DeleteOp(h: Handle)

  function Apply<T>(a: Coarena<T>, op: Op<T>): Coarena<T>
  {
    match op
    case SetOp(h, v) => Set(a, h, v)
    case DeleteOp(h) => Delete(a, h)
  }

  function Run<T>(a: Coarena<T>, ops: seq<Op<T>>): Coarena<T>
    decreases |ops|
  {
    if |ops| == 0 then a else Run(Apply(a, ops[0]), ops[1..])
  }

  /** Across any sequence of sets and deletes the counter equals the number of stored values. */
  lemma {:induction false} RunPreservesValid<T>(a: Coarena<T>, ops: seq<Op<T>>)
    requires Valid(a)
    ensures Valid(Run(a, ops))
    ensures Len(Run(a, ops)) == |GetAll(Run(a, ops))|
    decreases |ops|
  {
    if |ops| > 0 {
      match ops[0] {
        case SetOp(h, v) => SetPreservesValid(a, h, v);
        case DeleteOp(h) => DeletePreservesValid(a, h);
      }
      RunPreservesValid(Apply(a, ops[0]), ops[1..]);
    }
  }

  /** Storage never shrinks under sets and deletes. */
  lemma {:induction false} RunGrowsMonotonically<T>(a: Coarena<T>, ops: seq<Op<T>>)
    ensures |Run(a, ops).data| >= |a.data|
    decreases |ops|
  {
    if |ops| > 0 {
      RunGrowsMonotonically(Apply(a, ops[0]), ops[1..]);
    }
  }

  /** Reading back: a set value is found, a deleted handle is gone, other slots are untouched. */
  lemma GetAfterSet<T>(a: Coarena<T>, h: Handle, v: T, h': Handle)
    ensures Get(Set(a, h, v), h') ==
      (if HandleToIndex(h') == HandleToIndex(h) then Some(v) else Get(a, h'))
  {
  }

  lemma GetAfterDelete<T>(a: Coarena<T>, h: Handle, h': Handle)
    ensures Get(Delete(a, h), h') ==
      (if HandleToIndex(h') == HandleToIndex(h) then None else Get(a, h'))
  {
  }

  /** `GetAll` lists values in ascending slot order: it distributes over a split of the slots. */
  lemma GetAllOrdered<T>(a: Coarena<T>, k: nat)
    requires k <= |a.data|
    ensures GetAll(a) == Values(a.data[..k]) + Values(a.data[k..])
  {
    assert a.data == a.data[..k] + a.data[k..];
    ValuesAppend(a.data[..k], a.data[k..]);
  }
}

/**
 * The host physics pipeline's gravity cache: the native gravity vector is rebuilt
 * only when the gravity passed to `step` differs from the last one, the old native
 * vector is freed before the new one is allocated, and every native step receives
 * the cached vector. Native vectors live in a store whose cells become `None` when
 * freed, so leaks are visible as live cells nobody references.
 */
module PhysicsPipeline {
  import opened Wrappers
  import opened Components
  import opened ObjectStore

  /** Native `RawVector` objects: `None` once freed. */
  type NativeVectors = seq<Option<Vec3>>

  /**
   * `raw` is false once the pipeline is freed (`undefined` in the source);
   * `last` holds `lastGravityX/Y/Z`.
   */
  datatype Pipeline = Pipeline(raw: bool, cached: Option<Ref>, last: Vec3, natives: NativeVectors)

  /** The native call one `step` makes: plain or with an event queue, and the gravity it passes. */
  datatype NativeCall = StepCall(gravity: Ref) | StepWithEventsCall(gravity: Ref)

  /** Number of native vectors not yet freed. */
  function LiveCount(ns: NativeVectors): nat
    decreases |ns|
  {
    if |ns| == 0 then 0 else (if ns[0].Some? then 1 else 0) + LiveCount(ns[1..])
  }

  /** A cached vector is alive and holds the last gravity: what the class keeps between calls. */
  predicate CacheHoldsLast(p: Pipeline)
  {
    p.cached.Some? ==> p.cached.value < |p.natives| && p.natives[p.cached.value] == Some(p.last)
  }

  /** Moreover the cache owns the only live native vector. */
  ghost predicate CacheInvariant(p: Pipeline)
  {
    && CacheHoldsLast(p)
    && (forall q :: 0 <= q < |p.natives| && p.natives[q].Some? ==> p.cached == Some(q))
  }

  /** `new PhysicsPipeline()`: no cache and last gravity zero. */
  function New(natives: NativeVectors): (p: Pipeline)
    requires forall q :: 0 <= q < |natives| ==> natives[q].None?
    ensures CacheInvariant(p) && p.raw && p.cached.None?
  {
    Pipeline(true, None, Vec3(0.0, 0.0, 0.0), natives)
  }

  /** Frees a native vector. */
  function FreeNative(ns: NativeVectors, q: Ref): (r: NativeVectors)
    requires q < |ns|
    ensures |r| == |ns| && r[q].None?
    ensures forall k :: 0 <= k < |ns| && k != q ==> r[k] == ns[k]
  {
    Write(ns, q, None)
  }

  /**
   * `step`: refreshes the cache when it is absent or any component of `gravity`
   * differs from the last one, then makes one native call, `stepWithEvents`
   * exactly when an event queue is given. On a freed pipeline the cache refresh
   * still happens but the native call fails (`None`).
   */
  function Step(p: Pipeline, gravity: Vec3, withEvents: bool): (r: (Pipeline, Option<NativeCall>))
    requires CacheHoldsLast(p)
    ensures var (p', call) := r;
      && p'.raw == p.raw
      && p'.last == gravity
      && p'.cached.Some? && p'.cached.value < |p'.natives| && p'.natives[p'.cached.value] == Some(gravity)
      && (call.Some? <==> p.raw)
      && (call.Some? ==> call.value.gravity == p'.cached.value)
      && (call.Some? ==> (call.value.StepWithEventsCall? <==> withEvents))
    ensures var p' := r.0;
      if p.cached.Some? && p.last == gravity then p' == p
      else
        && |p'.natives| == |p.natives| + 1 && p'.cached == Some(|p.natives|)
        && (forall q :: 0 <= q < |p.natives| ==>
              p'.natives[q] == if p.cached == Some(q) then None else p.natives[q])
  {
    var p' :=
      if p.cached.None? || gravity.x != p.last.x || gravity.y != p.last.y || gravity.z != p.last.z then
        var ns := if p.cached.Some? then FreeNative(p.natives, p.cached.value) else p.natives;
        var (ns', g) := Alloc(ns, Some(gravity));
        p.(cached := Some(g), last := gravity, natives := ns')
      else p;
    var call := if !p.raw then None
      else if withEvents then Some(StepWithEventsCall(p'.cached.value))
      else Some(StepCall(p'.cached.value));
    (p', call)
  }

  /** `free`: the cached vector and the native pipeline are released. */
  function Free(p: Pipeline): (r: Pipeline)
    requires p.cached.Some? ==> p.cached.value < |p.natives|
    ensures !r.raw && r.cached.None? && |r.natives| == |p.natives|
    ensures p.cached.Some? ==> r.natives[p.cached.value].None?
    ensures forall q :: 0 <= q < |p.natives| && p.cached != Some(q) ==> r.natives[q] == p.natives[q]
  {
    var ns := if p.cached.Some? then FreeNative(p.natives, p.cached.value) else p.natives;
    p.(raw := false, cached := None, natives := ns)
  }

  lemma StepPreservesInvariant(p: Pipeline, gravity: Vec3, withEvents: bool)
    requires CacheInvariant(p)
    ensures CacheInvariant(Step(p, gravity, withEvents).0)
  {
  }

  /** After `free` no native vector of the pipeline is left alive. */
  lemma FreeReleasesAll(p: Pipeline)
    requires CacheInvariant(p)
    ensures forall q :: 0 <= q < |Free(p).natives| ==> Free(p).natives[q].None?
    ensures LiveCount(Free(p).natives) == 0
  {
    NoneCount(Free(p).natives);
  }

  lemma {:induction false} NoneCount(ns: NativeVectors)
    requires forall q :: 0 <= q < |ns| ==> ns[q].None?
    ensures LiveCount(ns) == 0
    decreases |ns|
  {
    if |ns| > 0 {
      NoneCount(ns[1..]);
    }
  }

  /** Live vectors all at one index: at most one is alive. */
  lemma {:induction false} SingleLive(ns: NativeVectors, c: Option<Ref>)
    requires forall q :: 0 <= q < |ns| && ns[q].Some? ==> c == Some(q)
    ensures LiveCount(ns) <= 1
    ensures c.None? ==> LiveCount(ns) == 0
    decreases |ns|
  {
    if |ns| > 0 {
      if ns[0].Some? {
        assert c == Some(0);
        forall q | 0 <= q < |ns[1..]| ensures ns[1..][q].None? {
          assert ns[q + 1].Some? ==> c == Some(q + 1);
        }
        NoneCount(ns[1..]);
      } else {
        var c' := if c.Some? && c.value > 0 then Some(c.value - 1) else None;
        forall q | 0 <= q < |ns[1..]| && ns[1..][q].Some? ensures c' == Some(q) {
          assert ns[q + 1].Some?;
        }
        SingleLive(ns[1..], c');
      }
    }
  }

  /** Steps with the given gravities, in order. */
  function RunSteps(p: Pipeline, gs: seq<Vec3>): (r: Pipeline)
    requires CacheInvariant(p)
    ensures CacheInvariant(r)
    decreases |gs|
  {
    if |gs| == 0 then p
    else
      StepPreservesInvariant(p, gs[0], false);
      RunSteps(Step(p, gs[0], false).0, gs[1..])
  }

  /** Number of steps whose gravity differs from the one before (the first always counts without a cache). */
  function Changes(prev: Option<Vec3>, gs: seq<Vec3>): nat
    decreases |gs|
  {
    if |gs| == 0 then 0
    else (if prev != Some(gs[0]) then 1 else 0) + Changes(Some(gs[0]), gs[1..])
  }

  /**
   * Over any sequence of steps at most one native gravity vector is alive, and a
   * native vector is allocated exactly once per gravity change.
   */
  lemma {:induction false} AtMostOneGravity(p: Pipeline, gs: seq<Vec3>)
    requires CacheInvariant(p)
    ensures LiveCount(RunSteps(p, gs).natives) <= 1
    ensures |RunSteps(p, gs).natives| == |p.natives| + Changes(if p.cached.Some? then Some(p.last) else None, gs)
    decreases |gs|
  {
    if |gs| == 0 {
      SingleLive(p.natives, p.cached);
    } else {
      StepPreservesInvariant(p, gs[0], false);
      var p1 := Step(p, gs[0], false).0;
      AtMostOneGravity(p1, gs[1..]);
    }
  }
}

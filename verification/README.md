# rapier.js boundary layer, in Dafny

This project models the layer between the rapier.js host bindings (TypeScript) and the native physics engine (Rust compiled to WebAssembly). It covers:

- **Handles and the sparse arena.** A handle packs a 32-bit arena index (low word) and a 32-bit generation (high word). `Coarena` maps handles to host wrappers by index only.
- **The packed transform buffer.** After every step the native rigid-body set writes each live body's translation, rotation, linear velocity and angular velocity into one flat array. Records sit at `index * stride`, with stride 13 in 3D and 6 in 2D.
- **The host `RigidBodySet`.**
  - It mirrors the native set in a `Coarena` of wrappers.
  - It shares one `TransformBufferRef` cell with all its wrappers.
  - `createRigidBody` invalidates that cell, and `syncTransformBuffer` re-borrows it.
  - It removes bodies with their colliders and joints, and frees itself.
- **Value helpers (`math.ts`, 2D and 3D).** These use an optional-target, zero-allocation contract. The model also covers the symmetric `SdpMatrix3` accessors.
- **The gravity cache of `PhysicsPipeline.step`.**
- **The benchmark regression gate (`baseline.ts`).**

Modules follow the program's structure:

| file | module | models |
|---|---|---|
| `handles.dfy` | `Handles` | handle as a pair; the 64-bit word as a natural number |
| `coarena.dfy` | `Coarena` | the sparse arena, its counter invariant, `clear` |
| `transform_layout.dfy` | `TransformLayout` | stride constants (three declarations), field offsets, record ranges |
| `native_body_set.dfy` | `NativeBodySet` | the native generational arena of bodies, `map`/`map_mut`, type conversions, `transformBufferInfo` |
| `transform_sync.dfy` | `TransformSync` | `sync_transform_data` as a loop method with a declarative reference `Packed`, and a native step |
| `rigid_body_set.dfy` | `RigidBodies` | the host set, the shared buffer-ref cells, the dual-path field read, whole-session invariants |
| `math3.dfy`, `math2.dfy` | `Math3`, `Math2` | `VectorOps`/`RotationOps` over stores of host objects and native copies, `SdpMatrix3` |
| `body_reads.dfy` | `BodyReads` | `fromBuffer` applied at a field offset rebuilds the packed body state |
| `physics_pipeline.dfy` | `PhysicsPipeline` | the gravity cache over a store of native vectors |
| `baseline.dfy` | `Baseline` | `compareToBaseline`, `hasRegression`, `summarizeComparison` with JavaScript division |
| `wrappers.dfy`, `components.dfy`, `object_store.dfy` | helpers | `Option`/`Result`, vector and quaternion records, an allocation store |

Object identity matters in the source. A wrapper keeps the `TransformBufferRef` it was created with, and a helper returns the very target it was given. The model represents such objects as cells of a store (`ObjectStore`), so a reference is an index into the store:

- allocation appends a cell;
- "returns the same object" means "returns the same index";
- "allocates nothing" means "the store keeps its length";
- a native object (`RawVector`, `RawRotation`) sits in a store of its own, and `free()` turns its cell into `None`, so reading it afterwards is a call no caller can make.

The native rigid-body arena is rapier's generational arena. A lookup succeeds only when the slot is live and its generation matches the handle. The host `Coarena` ignores the generation. `RigidBodies.LookupMatchesNative` states exactly how the two agree.

Physics is a parameter: a step applies an arbitrary function to every live body's state, provided it keeps the body's dimension, and then repacks the buffer. The native arena's choice of handle for a new body is also a parameter. The model only requires that the handle's slot be free (`RigidBodies.FreshSlot`).

## Model

| member | source | states |
|---|---|---|
| Handles.Decode | packages/rapier-3d/src/coarena.ts:5-11 | the decoded index and generation recombine to the original 64-bit word |
| Handles.Encode | packages/rapier-3d/src/coarena.ts:5-11 | the generation is the high 32-bit word of the packed handle |
| Handles.DecodeEncode | packages/rapier-3d/src/coarena.ts:5-11 | decoding a packed handle gives back both halves |
| Handles.EncodeDecode | packages/rapier-3d/src/coarena.ts:5-11 | every 64-bit word is the packing of its decoded halves |
| Handles.HandleToIndex | packages/rapier-3d/src/coarena.ts:8-11 | the slot index is the low 32-bit word of the handle, hence below 2^32 |
| Handles.IndexIgnoresGeneration | packages/rapier-3d/src/dynamics/transform_buffer.ts:19-25 | handles with the same low word map to the same index; if they are distinct, they differ in generation |
| TransformLayout.Stride | packages/rapier-3d/src/dynamics/transform_buffer.ts:2-5 | the host stride is the sum of the field widths (3+4+3+3 = 13 in 3D, 2+1+2+1 = 6 in 2D) and equals both native declarations |
| TransformLayout.NativeStride | src/dynamics/transform_buffer.rs:1-7 | the native `BODY_STRIDE` (13 in dim3, 6 in dim2) is the sum of the field widths of its dimension |
| TransformLayout.SetStride | src/dynamics/rigid_body_set.rs:9-13 | the stride redeclared in the native set is the sum of the field widths |
| TransformLayout.FieldAt | src/dynamics/rigid_body_set.rs:98-129 | each offset inside a record belongs to the field whose range contains it |
| TransformLayout.FieldsDisjoint | src/dynamics/rigid_body_set.rs:98-129 | no offset of a record belongs to two fields |
| TransformLayout.FieldsTileRecord | src/dynamics/rigid_body_set.rs:98-129 | the fields follow each other without gaps and end exactly at the stride |
| TransformLayout.BufferIndex | packages/rapier-3d/src/dynamics/transform_buffer.ts:19-25 | the buffer's index decoding agrees with the arena's, so arena slot i and record i are addressed alike |
| TransformLayout.BufferIndexIgnoresGeneration | packages/rapier-2d/src/dynamics/transform_buffer.ts:19-25 | handles differing only in generation address the same record |
| TransformLayout.RecordOwner | packages/rapier-3d/src/dynamics/transform_buffer.ts:5 | cell c lies in the record [i*stride, i*stride+stride) exactly when c / stride == i |
| TransformLayout.RecordsDisjoint | packages/rapier-2d/src/dynamics/transform_buffer.ts:5 | records of distinct indices do not overlap |
| TransformLayout.RecordsAscend | src/dynamics/rigid_body_set.rs:91-93 | a record ends no later than the record of any higher index begins |
| Coarena.New | packages/rapier-3d/src/coarena.ts:17-20 | a new arena is valid and finds nothing |
| Coarena.Grow | packages/rapier-3d/src/coarena.ts:24-26 | growing pads with nulls up to length index+1, never shrinks and keeps the prefix |
| Coarena.Set | packages/rapier-3d/src/coarena.ts:22-30 | `get(h)` then finds the value, other slots are unchanged, and the counter rises only on empty to occupied |
| Coarena.Get | packages/rapier-3d/src/coarena.ts:48-55 | null for an index at or past the end; a found value is one of the stored values |
| Coarena.Delete | packages/rapier-3d/src/coarena.ts:36-42 | `get(h)` is then null, an index past the end changes nothing, other slots are unchanged, and the counter drops only on occupied to empty |
| Coarena.Clear | packages/rapier-3d/src/coarena.ts:44-46 | every lookup is then null while the counter is kept, as written |
| Coarena.Len | packages/rapier-3d/src/coarena.ts:32-34 | on a valid arena the counter equals the number of stored values |
| Coarena.GetAll | packages/rapier-3d/src/coarena.ts:63-65 | exactly the non-null slots: every stored value is listed and every listed value is stored |
| Coarena.GetAllOrdered | packages/rapier-3d/src/coarena.ts:63-65 | the listing is in ascending slot order: it splits at any slot boundary |
| Coarena.ForEach | packages/rapier-3d/src/coarena.ts:57-61 | the loop visits exactly the sequence `getAll` returns |
| Coarena.SetPreservesValid | packages/rapier-3d/src/coarena.ts:22-30 | `set` keeps the counter equal to the occupied count |
| Coarena.DeletePreservesValid | packages/rapier-3d/src/coarena.ts:36-42 | `delete` keeps the counter equal to the occupied count |
| Coarena.RunPreservesValid | packages/rapier-3d/src/coarena.ts:22-42 | across any sequence of sets and deletes, `len()` equals the number of values `getAll` returns |
| Coarena.RunGrowsMonotonically | packages/rapier-3d/src/coarena.ts:24-26 | storage never shrinks under sets and deletes |
| Coarena.GetAfterSet | packages/rapier-3d/src/coarena.ts:22-30 | a lookup after `set` finds the new value at that index and the old answer elsewhere |
| Coarena.GetAfterDelete | packages/rapier-3d/src/coarena.ts:36-42 | a lookup after `delete` finds null at that index and the old answer elsewhere |
| Coarena.ClearValidity | packages/rapier-3d/src/coarena.ts:44-46 | after `clear` the counter matches the contents only if the arena was empty |
| Coarena.ClearLeavesStaleLen | packages/rapier-3d/src/coarena.ts:44-46 | one `set` then `clear`: `len()` is 1 while `getAll()` is empty |
| Coarena.Reset | packages/rapier-3d/src/coarena.ts:44-46 | a clear that also resets the counter leaves a valid, empty arena |
| Coarena.ResetActsAsNew | packages/rapier-3d/src/coarena.ts:44-46 | after a reset, any sequence of sets and deletes behaves as on a new arena |
| NativeBodySet.IntoRigidBodyType | src/dynamics/rigid_body_set.rs:23-32 | the conversion keeps the variant (ordinal) |
| NativeBodySet.IntoRawRigidBodyType | src/dynamics/rigid_body_set.rs:34-43 | the reverse conversion keeps the variant (ordinal) |
| NativeBodySet.RawTypeRoundTrip | src/dynamics/rigid_body_set.rs:23-43 | raw type to engine type and back is the identity |
| NativeBodySet.TypeRoundTrip | src/dynamics/rigid_body_set.rs:23-43 | engine type to raw type and back is the identity |
| NativeBodySet.Record | src/dynamics/rigid_body_set.rs:95-129 | a record has stride length and each field's values sit at that field's offset |
| NativeBodySet.NewSet | src/dynamics/rigid_body_set.rs:137-142 | a new native set contains no handle and has an empty buffer |
| NativeBodySet.Get | src/dynamics/rigid_body_set.rs:307-309 | a lookup succeeds exactly when the slot is live with the handle's generation |
| NativeBodySet.Map | src/dynamics/rigid_body_set.rs:52-57 | succeeds iff the set contains the handle, with `f` of its body; otherwise fails with the invalid-body message |
| NativeBodySet.MapMut | src/dynamics/rigid_body_set.rs:59-68 | succeeds iff the set contains the handle, replacing only that body and returning `f`'s result |
| NativeBodySet.Insert | src/dynamics/rigid_body_set.rs:222 | the inserted body is found under its handle and every other index is unchanged |
| NativeBodySet.Remove | src/dynamics/rigid_body_set.rs:282-299 | the handle is no longer contained, other indices and the buffer are unchanged, and an absent handle changes nothing |
| NativeBodySet.LiveHandles | src/dynamics/rigid_body_set.rs:311-320 | exactly the contained handles, in strictly ascending index order, one per live body |
| NativeBodySet.TransformBufferInfo | src/dynamics/rigid_body_set.rs:144-150 | the low word is the pointer and the high word is the length, each truncated to 32 bits |
| NativeBodySet.InfoRoundTrip | src/dynamics/rigid_body_set.rs:144-150 | unpacking the info word recovers the truncated pointer and length |
| NativeBodySet.UnpackPack | src/dynamics/rigid_body_set.rs:144-150 | packing two words and unpacking gives them back |
| NativeBodySet.PackUnpack | src/dynamics/rigid_body_set.rs:144-150 | every 64-bit info word is the packing of its two halves |
| NativeBodySet.TransformBufferStride | src/dynamics/rigid_body_set.rs:152-155 | the reported stride is the host stride, where the last field ends |
| TransformSync.HighestLive | src/dynamics/rigid_body_set.rs:75-79 | the largest live index, absent exactly when no body is live |
| TransformSync.RequiredLen | src/dynamics/rigid_body_set.rs:81-85 | 0 for an empty set, otherwise the end of the highest live record, so every live record fits |
| TransformSync.SyncTransformData | src/dynamics/rigid_body_set.rs:74-131 | the loop produces the reference packing: grown with zeros only when shorter than required, never shrunk |
| TransformSync.MaxLiveIndex | src/dynamics/rigid_body_set.rs:75-79 | the first loop finds the highest live index, or 0 when no body is live |
| TransformSync.WriteRecords | src/dynamics/rigid_body_set.rs:91-130 | the second loop leaves every cell as the reference packing defines it |
| TransformSync.PackedRecord | src/dynamics/rigid_body_set.rs:91-116 | each live body's record lies at index*stride |
| TransformSync.PackedField | src/dynamics/rigid_body_set.rs:98-129 | each field of a live body reads back from its offset inside the record, in 3D and in 2D |
| TransformSync.PackedUnowned | src/dynamics/rigid_body_set.rs:91-93 | a cell outside every live record keeps its old value, or 0.0 if newly grown |
| TransformSync.PackedIsCurrent | src/dynamics/rigid_body_set.rs:74-131 | after packing, the buffer holds the current record of every live body |
| TransformSync.Step | src/dynamics/rigid_body_set.rs:70-74 | a step moves every live body, keeps the handles, never shrinks the buffer and leaves it current |
| TransformSync.RemoveKeepsBufferCurrent | src/dynamics/rigid_body_set.rs:282-299 | removing a body keeps the buffer current for the remaining bodies |
| BodyReads.Decode3 | packages/rapier-3d/src/math.ts:54-60 | `fromBuffer` at each field offset of a 3D record rebuilds the packed translation, rotation and velocities |
| BodyReads.Decode2 | packages/rapier-2d/src/math.ts:79-81 | in 2D, `fromBuffer` rebuilds the packed vectors and `RotationOps.fromBuffer` yields the packed angle |
| BodyReads.ViewStartsWithField | src/dynamics/rigid_body_set.rs:98-129 | a view starting at a field's offset begins with that field's values |
| RigidBodies.New | packages/rapier-3d/src/dynamics/rigid_body_set.ts:39-47 | a new set is consistent, empty and holds a null ref |
| RigidBodies.FromRaw | packages/rapier-3d/src/dynamics/rigid_body_set.ts:39-47 | wrapping a native set puts exactly one wrapper per enumerated handle and makes `len()` the native count |
| RigidBodies.WrapHandles | packages/rapier-3d/src/dynamics/rigid_body_set.ts:43-46 | the constructor loop stores one wrapper per handle, each found under its handle, with the counter exact |
| RigidBodies.WrappedConsistent | packages/rapier-3d/src/dynamics/rigid_body_set.ts:39-47 | the constructed arena mirrors the native set |
| RigidBodies.Free | packages/rapier-3d/src/dynamics/rigid_body_set.ts:26-37 | the native set and the arena are dropped, and the set gets a fresh null ref while older refs are kept |
| RigidBodies.FreeKeepsOldRefs | packages/rapier-3d/src/dynamics/rigid_body_set.ts:26-37 | bodies created before `free` keep their ref object and its contents, and it is never the new ref |
| RigidBodies.SyncTransformBuffer | packages/rapier-3d/src/dynamics/rigid_body_set.ts:68-70 | the shared ref now views the native buffer, and no other ref object changes |
| RigidBodies.SyncSharedByAll | packages/rapier-3d/src/dynamics/rigid_body_set.ts:68-70 | every wrapper of a consistent set sees the new view through the shared ref |
| RigidBodies.CreateRigidBody | packages/rapier-3d/src/dynamics/rigid_body_set.ts:77-134 | the shared ref becomes null, `get(h)` is the new wrapper carrying `desc.userData`, and the native set holds the descriptor's body |
| RigidBodies.ReadAfterCreate | packages/rapier-3d/src/dynamics/rigid_body_set.ts:125-133 | a body read before any step returns the descriptor's values through the native accessor |
| RigidBodies.CreateInvalidatesView | packages/rapier-3d/src/dynamics/rigid_body_set.ts:125-126 | after a creation, every wrapper sharing the ref reads through the native accessor |
| RigidBodies.CreatePreservesConsistent | packages/rapier-3d/src/dynamics/rigid_body_set.ts:77-134 | creating under a free slot keeps the host arena mirroring the native set, keeps the view coherent and adds one to `len()` |
| RigidBodies.Get | packages/rapier-3d/src/dynamics/rigid_body_set.ts:191-193 | a found wrapper is among those `getAll` returns |
| RigidBodies.ContainsBody | packages/rapier-3d/src/dynamics/rigid_body_set.ts:182-184 | `contains(h)` iff `get(h)` is not null |
| RigidBodies.Len | packages/rapier-3d/src/dynamics/rigid_body_set.ts:173-175 | on a valid arena, `len()` is the number of wrappers `getAll` returns |
| RigidBodies.LenMatchesNative | packages/rapier-3d/src/dynamics/rigid_body_set.ts:173-175 | on a consistent set, `len()` is the native body count |
| RigidBodies.GetAll | packages/rapier-3d/src/dynamics/rigid_body_set.ts:222-224 | every wrapper `get` can find is listed |
| RigidBodies.ForEach | packages/rapier-3d/src/dynamics/rigid_body_set.ts:200-202 | visits exactly what `getAll` returns, in the same order |
| RigidBodies.LookupMatchesNative | packages/rapier-3d/src/coarena.ts:48-55 | on a consistent set, a live handle finds its own wrapper, a found wrapper belongs to the live body at that index, and the host and native lookups agree on the full handle |
| RigidBodies.UnmapAll | packages/rapier-3d/src/dynamics/rigid_body_set.ts:153-163 | every listed handle is unmapped, every other index is untouched, and validity is kept |
| RigidBodies.Remove | packages/rapier-3d/src/dynamics/rigid_body_set.ts:146-168 | fails iff the native lookup fails; otherwise colliders and attached joints are unmapped, the body is gone natively and `get(h)` is null |
| RigidBodies.RemovePreservesConsistent | packages/rapier-3d/src/dynamics/rigid_body_set.ts:146-168 | a successful removal keeps the mirror and the view coherent and drops one from `len()` |
| RigidBodies.DroppedConsistent | packages/rapier-3d/src/dynamics/rigid_body_set.ts:165-167 | native removal plus arena deletion keeps the mirror |
| RigidBodies.ReadField | packages/rapier-3d/src/dynamics/transform_buffer.ts:7-13 | a null ref reads through the native accessor; a non-null ref reads the field's cells of the record at index*stride |
| RigidBodies.StepWorld | packages/rapier-3d/src/dynamics/rigid_body_set.ts:58-70 | after a native step and a re-borrow, the shared ref views a buffer that is current |
| RigidBodies.StepPreservesConsistent | packages/rapier-3d/src/dynamics/rigid_body_set.ts:58-70 | a world step keeps the mirror and `len()`, and makes the view coherent |
| RigidBodies.ReadsAgreeWithNative | packages/rapier-3d/src/dynamics/transform_buffer.ts:7-13 | on a consistent, coherent set, both read paths return the native body's current field values |
| RigidBodies.ApplyHost | packages/rapier-3d/src/dynamics/rigid_body_set.ts:68-167 | each host call keeps the set consistent and coherent |
| RigidBodies.RunHost | packages/rapier-3d/src/dynamics/rigid_body_set.ts:68-167 | any sequence of creations, removals and steps keeps the set consistent and coherent |
| RigidBodies.ReachableReadsAgree | packages/rapier-3d/src/dynamics/rigid_body_set.ts:68-167 | over any sequence of creations, removals and steps from a new set, every wrapper reads its native body's current values |
| Math3.NewVector | packages/rapier-3d/src/math.ts:25-27 | one fresh object holding the components |
| Math3.Zeros | packages/rapier-3d/src/math.ts:33-35 | one fresh (0, 0, 0) vector, other objects unchanged |
| Math3.VectorFromRaw | packages/rapier-3d/src/math.ts:37-46 | null iff raw is absent; otherwise the given target itself, or one fresh vector, holding raw's components, and the raw vector is freed so it cannot be read again |
| Math3.VectorRawRoundTrip | packages/rapier-3d/src/math.ts:29-46 | `intoRaw` then `fromRaw` yields the original components and leaves no native vector alive |
| Math3.CopyVector | packages/rapier-3d/src/math.ts:48-52 | `out` takes `input`'s components; `input` and every other object are unchanged |
| Math3.VectorFromBuffer | packages/rapier-3d/src/math.ts:54-60 | the target itself, or one fresh vector, holding `buffer[0..2]` |
| Math3.ReuseAllocatesNothing | packages/rapier-3d/src/math.ts:54-60 | repeated reads into one target allocate nothing, and the last read wins |
| Math3.Identity | packages/rapier-3d/src/math.ts:88-90 | one fresh (0, 0, 0, 1) quaternion |
| Math3.RotationFromRaw | packages/rapier-3d/src/math.ts:92-102 | null iff raw is absent; otherwise the given target, or one fresh quaternion, holding raw's components, and the raw rotation is freed |
| Math3.RotationRawRoundTrip | packages/rapier-3d/src/math.ts:92-106 | `intoRaw` then `fromRaw` yields the original quaternion and leaves no native rotation alive |
| Math3.CopyRotation | packages/rapier-3d/src/math.ts:108-113 | `out` takes `input`'s components; `input` and every other object are unchanged |
| Math3.RotationFromBuffer | packages/rapier-3d/src/math.ts:115-122 | the target itself, or one fresh quaternion, holding `buffer[0..3]` |
| Math3.SdpSymmetric | packages/rapier-3d/src/math.ts:137-195 | entry (r, c) equals entry (c, r), and the upper triangle is read row-major from `elements[0..5]` |
| Math2.NewVector | packages/rapier-2d/src/math.ts:22-24 | one fresh object holding the components |
| Math2.Zeros | packages/rapier-2d/src/math.ts:26-28 | one fresh (0, 0) vector, other objects unchanged |
| Math2.VectorFromRaw | packages/rapier-2d/src/math.ts:30-38 | null iff raw is absent; otherwise the given target itself, or one fresh vector, holding raw's components, and the raw vector is freed |
| Math2.VectorRawRoundTrip | packages/rapier-2d/src/math.ts:30-42 | `intoRaw` then `fromRaw` yields the original components and leaves no native vector alive |
| Math2.CopyVector | packages/rapier-2d/src/math.ts:44-47 | `out` takes `input`'s components; every other object is unchanged |
| Math2.VectorFromBuffer | packages/rapier-2d/src/math.ts:49-54 | the target itself, or one fresh vector, holding `buffer[0..1]` |
| Math2.RotationFromRaw | packages/rapier-2d/src/math.ts:67-73 | null iff raw is absent, otherwise raw's angle; the raw rotation is freed |
| Math2.IDENTITY_ANGLE | packages/rapier-2d/src/math.ts:63-65 | the identity rotation is the angle 0 |
| PhysicsPipeline.New | packages/rapier-3d/src/pipeline/physics_pipeline.ts:34-36 | a new pipeline has no cached gravity |
| PhysicsPipeline.Step | packages/rapier-3d/src/pipeline/physics_pipeline.ts:38-96 | the cache is rebuilt iff absent or the gravity changed, the old vector is freed first, the last gravity is recorded, and exactly one native call passes the cached vector, `stepWithEvents` iff an event queue is given |
| PhysicsPipeline.StepPreservesInvariant | packages/rapier-3d/src/pipeline/physics_pipeline.ts:52-63 | the cache remains the only live native vector and holds the last gravity |
| PhysicsPipeline.Free | packages/rapier-3d/src/pipeline/physics_pipeline.ts:23-32 | the cache is freed and null, and the native pipeline is released |
| PhysicsPipeline.FreeReleasesAll | packages/rapier-3d/src/pipeline/physics_pipeline.ts:23-32 | after `free` no native gravity vector is left alive |
| PhysicsPipeline.AtMostOneGravity | packages/rapier-3d/src/pipeline/physics_pipeline.ts:52-63 | over any sequence of steps at most one native gravity is alive, and one is allocated per gravity change |
| Baseline.Divide | packages/benchmarks/src/baseline.ts:120 | JavaScript division: finite iff the divisor is nonzero, NaN iff 0/0 |
| Baseline.EffectiveThresholds | packages/benchmarks/src/baseline.ts:31-34 | missing thresholds default to warning 0.15 and regression 0.30 |
| Baseline.Classify | packages/benchmarks/src/baseline.ts:123-130 | regression iff above the tolerance; warning iff not that but above the warning threshold; pass otherwise |
| Baseline.CompareOne | packages/benchmarks/src/baseline.ts:107-139 | new iff the name has no entry, with null baseline and change; otherwise the entry mean, the change, regression iff the change exceeds `tolerance ?? regression`, warning iff it does not but exceeds `thresholds.warning`, and pass iff it exceeds neither |
| Baseline.CompareToBaseline | packages/benchmarks/src/baseline.ts:99-140 | one comparison per result, in order, with the same name and mean |
| Baseline.HasRegression | packages/benchmarks/src/baseline.ts:142-144 | true iff some comparison is a regression |
| Baseline.SummarizeComparison | packages/benchmarks/src/baseline.ts:146-162 | the loop counts warnings, regressions and new benchmarks exactly; they sum to the input length minus the passes |
| Baseline.CountsPartition | packages/benchmarks/src/baseline.ts:146-162 | the four statuses partition the comparisons |
| Baseline.HasRegressionIffCounted | packages/benchmarks/src/baseline.ts:142-162 | the gate fails iff the summary counts a regression |
| Baseline.ClassifyMonotone | packages/benchmarks/src/baseline.ts:123-130 | a larger change is never classified as less severe |
| Baseline.SlowerNeverBetter | packages/benchmarks/src/baseline.ts:120-130 | against a positive baseline mean, a slower run is never judged better than a faster one |
| Baseline.ZeroBaseline | packages/benchmarks/src/baseline.ts:120-130 | with a zero baseline mean, any slowdown is a regression and an unchanged zero passes |

## Left out

- Bit reinterpretation is not modelled: the f64 handle through `Float64Array`/`Uint32Array`, and `f64::from_bits` in `transformBufferInfo`. Handles are index/generation pairs, and the info word is a natural number. WebAssembly memory and the raw bindings are not part of this model. `transformBufferView` is modelled by `RigidBodies.SyncTransformBuffer` as a copy of the packed buffer taken at that call, not as a view aliasing native memory.
- f32/f64 arithmetic and rounding are not modelled. Positions and velocities are reals copied unchanged.
- Native physics is not modelled: solver, integration, `RigidBodyBuilder`, mass properties, islands, collider propagation (`propagateModifiedBodyPositionsToColliders`). A step is an arbitrary dimension-preserving function of each body state.
- The native arena's choice of handle for a new body is a parameter, required only to name a free slot. Rapier's free list and generation bumping are not modelled.
- `createRigidBody` keeps only the translation, rotation, velocities, status and user data of the descriptor. Enabled flags, damping, sleeping, CCD, dominance and mass parameters are not modelled.
- The `RigidBody` accessor class (rigid_body.ts) is not part of this model. `RigidBodies.ReadField` stands for its getters: read the record at `index * stride` when the shared ref is non-null, otherwise use the native accessor. Setters are not modelled.
- `rbCollider` and `forEachJointHandleAttachedToRigidBody` are not part of this model. The attached joint handles are parameters of `RigidBodies.Remove`, and the colliders are the list the native body stores.
- `forEachActiveRigidBody` (it depends on the island manager) and `finalizeDeserialization` (it depends on the collider set) are not modelled.
- Math3.VectorFromBuffer: requires at least three scalars. Reading past the end of a typed array yields `undefined` in JavaScript and is not modelled. The same applies to the other `fromBuffer` helpers (four scalars for rotations, two and one in 2D).
- RigidBodies.ReadField: a buffer read past the end of the shared buffer is a `Failure(UNDEFINED_READ)`. In JavaScript it yields `undefined` values; the model does not carry `undefined` through the accessors. On a consistent, coherent set this branch cannot be reached (`RigidBodies.ReadsAgreeWithNative`).
- RigidBodies.UnmapAll: the collider and joint sets' `unmap` is not among the modelled sources. It is assumed to delete the handle from that set's `Coarena`, which is what `RigidBodies.UnmapAll` does for each listed handle.
- RigidBodies.Remove: the native `rbNumColliders` is not among the modelled sources. It is assumed to fail like `map`, so an unknown handle fails before anything is unmapped. The native `remove` itself (src/dynamics/rigid_body_set.rs:282-299) ignores an unknown handle, and `NativeBodySet.Remove` models it that way.
- RigidBodies.ReachableReadsAgree: covers only creations, removals and steps. Three things are outside it. Native writes through `map_mut` (`NativeBodySet.MapMut`, the `RigidBody` setters) are not host operations here; after such a write the buffer path returns the value packed by the last step, while the native path returns the new one. A call on another set that grows WebAssembly memory without nulling this set's ref is not modelled. And the shared ref holds a copy of the packed buffer taken at `syncTransformBuffer`, not a view aliasing native memory.
- Math2.RotationFromBuffer: its contract is given by `BodyReads.Decode2`. A bare `ensures` would only repeat its one-line body.
- `RotationOps.intoRaw` in 2D (`RawRotation.fromAngle`) is a native call and is not modelled: the native `angle` getter normalises the angle, which the model cannot state without trigonometry. `Math2.RotationFromRaw` reads whatever angle the getter reports. `SdpMatrix3Ops.fromRaw` only wraps the native elements array, which is the `SdpMatrix3` datatype itself.
- PhysicsPipeline.Step: gravity components are reals, so JavaScript's `NaN !== NaN` (a NaN component rebuilds the cache every step) and `-0 === 0` are not modelled. The other native arguments (integration parameters, broad and narrow phase, hooks) are not modelled.
- Baseline.CompareOne: a benchmark name that is an inherited JavaScript object property (such as `constructor`) would find a non-entry object; the model's entries are a plain map. Benchmark means are reals, not doubles.
- Not modelled at all: loading and saving the baseline file, the benchmark runner and scenarios, the testbeds, the PID controllers, the point-projection wrappers, initialisation and build configuration. These are I/O, rendering, or forwarding to native code.

## Findings

`clear()` (packages/rapier-3d/src/coarena.ts:44-46) replaces `data` but leaves `size`, so `len()` stops counting the stored values; every other operation keeps `size` equal to the number of non-null slots (`Coarena.RunPreservesValid`). `RigidBodySet.free` (packages/rapier-3d/src/dynamics/rigid_body_set.ts:33-36) discards the arena right after clearing it, so the stale counter cannot be observed there. `RigidBodies.Free` therefore models the arena as dropped.

| source | as written | input that shows it | evidently intended | confidence | as-written member | corrected member |
|---|---|---|---|---|---|---|
| packages/rapier-3d/src/coarena.ts:44-46 | `clear()` replaces `data` but leaves `size` | `set(h, v)` then `clear()`: `len()` is 1 while `getAll()` is empty | `clear()` also sets `size` to 0, so `len()` stays the number of stored values | low: not executed, and not reachable through `RigidBodySet.free` | Coarena.ClearLeavesStaleLen | Coarena.Reset |

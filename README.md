# Rive Android runtime: reference-counted native objects

This project models the memory discipline of the Rive Android runtime. Its memory tests
(`RiveMemoryTests`) exercise that discipline, and those tests are the only source of this model.

Every Kotlin wrapper of a native Rive object works the same way:
- It is created holding one reference.
- `acquire()` adds a reference.
- `release()` removes one. At count 0 it throws `IllegalArgumentException`.
- When the last reference goes, the wrapper marks its native object gone (`hasCppObject`
  becomes false), releases every object it spawned (its `dependencies`) and empties that list.
- Examples of wrappers are a file, an artboard, a state machine, a linear animation and a layer
  state.

Accessors that create objects register the new object as a dependency of the object that
created it:
- `firstArtboard` under the file;
- `stateMachine(i)` and `animation(i)` under the artboard;
- the layer states a state machine reports under that state machine.

Reading a property of a freed object throws `RiveException`.

The file controller a view drives works as follows:
- It takes over a file, shows its first artboard and plays a named state machine.
- `reset()` frees nothing.
- `release()` drops one of its users. When the last user goes, it releases the file, and the
  release cascades.

Modules:
- `RiveErrors` (errors.dfy): the exceptions, plus `Result` and `Option`.
- `NativeStore` (native_store.dfy): the state of all wrappers as a value. It holds the pure
  specification of `release()` (`ReleaseSpec`), the registration of a dependency
  (`AddDependency`), the shape every operation keeps (`Valid`) and the ownership discipline
  (`Owned`).
- `Cascade` (cascade.dfy): the exact effect of a release. The objects in `Touched(s, r)` each
  lose one reference, and nothing else changes.
- `Ownership` (ownership.dfy): what the ownership discipline buys. A release throws exactly at
  count 0, and releasing one's own reference keeps the discipline.
- `Arena` (arena.dfy): the class `NativeArena`. Its field `objects` is changed in place by
  `acquire`, `release` (a loop over the dependencies) and the spawning accessors. `Release` and
  its loop are proved equal to `ReleaseSpec` and `ReleaseDeps`, and the spawning accessors to
  `AddDependency`. `NewFile` and `Acquire` state the new store outright in terms of the old one.
- `Controllers` (controller.dfy): the class `RiveFileController`.
- `MemoryTests` (memory_tests.dfy): one method per test. Each performs the test's calls and
  returns what the test observes, and its postcondition is the test's assertions.
  - The content of the `.riv` resource a test loads is a parameter. It is constrained only by the
    values the test reads back.

A wrapper is addressed by its position in the arena (`Ref`). A spawned object always gets a
position after the object that spawned it, so every cascade terminates.

`resetDoesNotReleaseNatives` (RiveMemoryTests.kt:207-208) reads the controller's artboard and
a state machine fetched from it after `reset()`, and `resetDoesNotResetManualArtboards` (RiveMemoryTests.kt:240)
reads a hand-fetched artboard after it. Both are freed only by the controller's `release()`
(RiveMemoryTests.kt:211-217, :246-248). So `Reset` does not touch the arena.

## Model

| member | source | states |
|---|---|---|
| NativeStore.ReleaseSpec | kotlin/src/androidTest/java/app/rive/runtime/kotlin/core/RiveMemoryTests.kt:62-73 | `release()` as a function on the whole store: a release at count 0 throws `IllegalArgumentException` and changes nothing; otherwise no count rises, no native object changes, every dependency list is kept or emptied, and objects stay in step with their counts |
| NativeStore.AddDependency | kotlin/src/androidTest/java/app/rive/runtime/kotlin/core/RiveMemoryTests.kt:83-86 | a spawned object is new, live, holds one reference and has no dependencies; it is appended to its owner's dependencies, and every other object is unchanged |
| NativeStore.ArtboardNames | kotlin/src/androidTest/java/app/rive/runtime/kotlin/core/RiveMemoryTests.kt:26 | `artboardNames` lists one name per artboard, in file order |
| NativeStore.IndexOf | kotlin/src/androidTest/java/app/rive/runtime/kotlin/core/RiveMemoryTests.kt:168-171 | a state machine looked up by name is the first one with that name; none is found exactly when no state machine has that name |
| Cascade.Touched | kotlin/src/androidTest/java/app/rive/runtime/kotlin/core/RiveMemoryTests.kt:87-92 | the objects a release reaches always include the released object and lie within its subtree |
| Cascade.TouchedClosed | kotlin/src/androidTest/java/app/rive/runtime/kotlin/core/RiveMemoryTests.kt:138-148 | when a reached object loses its last reference, each of its dependencies is reached too, at any depth |
| Cascade.TouchedParent | kotlin/src/androidTest/java/app/rive/runtime/kotlin/core/RiveMemoryTests.kt:96-121 | an object reached below the released one was reached through an owner that lost its last reference |
| Cascade.SiblingsDisjoint | kotlin/src/androidTest/java/app/rive/runtime/kotlin/core/RiveMemoryTests.kt:76-93 | two dependencies of one owner have disjoint subtrees, so a cascade never reaches an object twice |
| Cascade.ClearingKeepsValid | kotlin/src/androidTest/java/app/rive/runtime/kotlin/core/RiveMemoryTests.kt:76-93 | changing counts and emptying dependency lists keeps the store's shape: one owner per object and no file below another object |
| Cascade.ReleaseExact | kotlin/src/androidTest/java/app/rive/runtime/kotlin/core/RiveMemoryTests.kt:76-121 | a release whose subtree is live does not throw; each reached object loses exactly one reference, and every other object is unchanged |
| Cascade.ReleaseDepsExact | kotlin/src/androidTest/java/app/rive/runtime/kotlin/core/RiveMemoryTests.kt:87-92 | releasing the disjoint live subtrees of a dependency list, one after another, takes one reference from each object reached and changes nothing else |
| Ownership.OwnedLiveTree | kotlin/src/androidTest/java/app/rive/runtime/kotlin/core/RiveMemoryTests.kt:76-93 | under the ownership discipline, everything below a live object is live |
| Ownership.ReleaseEffect | kotlin/src/androidTest/java/app/rive/runtime/kotlin/core/RiveMemoryTests.kt:62-121 | under the discipline, a release succeeds exactly when the count is positive; a failed release throws `IllegalArgumentException` and changes nothing; a successful one has the exact effect of `Cascade.ReleaseExact` |
| Ownership.ReleaseKeepsOwned | kotlin/src/androidTest/java/app/rive/runtime/kotlin/core/RiveMemoryTests.kt:109-120 | releasing a reference the caller holds itself keeps the shape and the discipline; this covers a file, or an artboard the user acquired |
| Ownership.AddDependencyKeepsOwned | kotlin/src/androidTest/java/app/rive/runtime/kotlin/core/RiveMemoryTests.kt:82-83 | spawning a dependency of a live owner keeps the shape and the discipline |
| Ownership.TouchedLastFreed | kotlin/src/androidTest/java/app/rive/runtime/kotlin/core/RiveMemoryTests.kt:211-217 | a reached object that held one reference is freed by the release and lets go of its dependencies |
| Arena.NativeArena.NewFile | kotlin/src/androidTest/java/app/rive/runtime/kotlin/core/RiveMemoryTests.kt:22-24 | a new file is appended, live, with one reference and no dependencies |
| Arena.NativeArena.Acquire | kotlin/src/androidTest/java/app/rive/runtime/kotlin/core/RiveMemoryTests.kt:50 | `acquire()` adds one to the count of the live object and changes nothing else |
| Arena.NativeArena.Release | kotlin/src/androidTest/java/app/rive/runtime/kotlin/core/RiveMemoryTests.kt:36-41 | the in-place `release()` ends in exactly the outcome and store `ReleaseSpec` gives, and keeps the shape |
| Arena.NativeArena.ReleaseDependencies | kotlin/src/androidTest/java/app/rive/runtime/kotlin/core/RiveMemoryTests.kt:87-92 | the loop over the dependencies ends where `ReleaseDeps` does: the first throw ends the loop and propagates |
| Arena.NativeArena.FirstArtboard | kotlin/src/androidTest/java/app/rive/runtime/kotlin/core/RiveMemoryTests.kt:83 | `firstArtboard` succeeds exactly on a live file with an artboard and registers the new artboard as the file's dependency; on a freed file it throws `RiveException` and changes nothing |
| Arena.NativeArena.StateMachineAt | kotlin/src/androidTest/java/app/rive/runtime/kotlin/core/RiveMemoryTests.kt:142 | `stateMachine(i)` succeeds exactly on a live artboard with an `i`-th state machine and registers it under the artboard; otherwise it throws and changes nothing |
| Arena.NativeArena.StateMachineNamed | kotlin/src/androidTest/java/app/rive/runtime/kotlin/core/RiveMemoryTests.kt:168-171 | a state machine looked up by name is found exactly on a live artboard that has one of that name, and is registered under the artboard |
| Arena.NativeArena.AnimationAt | kotlin/src/androidTest/java/app/rive/runtime/kotlin/core/RiveMemoryTests.kt:155 | `animation(i)` succeeds exactly on a live artboard with an `i`-th animation and registers it under the artboard |
| Arena.NativeArena.StateChanged | kotlin/src/androidTest/java/app/rive/runtime/kotlin/core/RiveMemoryTests.kt:176-177 | a layer state reported by a live state machine is registered under it; a freed state machine reports nothing and throws |
| Arena.NativeArena.ArtboardNamesOf | kotlin/src/androidTest/java/app/rive/runtime/kotlin/core/RiveMemoryTests.kt:26-30 | `artboardNames` is readable exactly while the file holds a reference; otherwise it throws `RiveException` |
| Arena.NativeArena.NameOf | kotlin/src/androidTest/java/app/rive/runtime/kotlin/core/RiveMemoryTests.kt:128-134 | `name` of an artboard, state machine or animation is readable exactly while it holds a reference; otherwise it throws `RiveException` |
| Arena.NativeArena.IsAnimationStateOf | kotlin/src/androidTest/java/app/rive/runtime/kotlin/core/RiveMemoryTests.kt:177-184 | `isAnimationState` is readable exactly while the layer state holds a reference; otherwise it throws `RiveException` |
| Controllers.RiveFileController.SetFile | kotlin/src/androidTest/java/app/rive/runtime/kotlin/core/RiveMemoryTests.kt:168-171 | attaching a file succeeds exactly when the file is live and its first artboard has the named state machine; the artboard and state machine are registered under the file, the file's own count is unchanged, and the discipline is kept; a freed file throws `RiveException` and a file without an artboard throws `NotFound`, both changing nothing; a missing state machine throws `NotFound` after the artboard was registered and shown |
| Controllers.RiveFileController.Reset | kotlin/src/androidTest/java/app/rive/runtime/kotlin/core/RiveMemoryTests.kt:205-208 | `reset()` touches no native object: every object keeps its count and native object |
| Controllers.RiveFileController.Release | kotlin/src/androidTest/java/app/rive/runtime/kotlin/core/RiveMemoryTests.kt:180-184 | `release()` drops one user; when it drops the last, the file is released exactly as `ReleaseSpec` says and the controller forgets everything; with no user left it does nothing |
| MemoryTests.FilesAccess | kotlin/src/androidTest/java/app/rive/runtime/kotlin/core/RiveMemoryTests.kt:21-31 | the artboard names read `["New Artboard"]` before the release and throw `RiveException` after it |
| MemoryTests.DisposeNativeObject | kotlin/src/androidTest/java/app/rive/runtime/kotlin/core/RiveMemoryTests.kt:34-42 | a new file is live; one release leaves count 0 and no native object |
| MemoryTests.MultiRefDisposeNativeObject | kotlin/src/androidTest/java/app/rive/runtime/kotlin/core/RiveMemoryTests.kt:45-59 | after `acquire()`, the first release leaves count 1 and the object live; the second leaves count 0 and frees it |
| MemoryTests.DisposeTooMany | kotlin/src/androidTest/java/app/rive/runtime/kotlin/core/RiveMemoryTests.kt:62-73 | after one release the count is 0, and a second release throws `IllegalArgumentException` |
| MemoryTests.DisposeWithDependencies | kotlin/src/androidTest/java/app/rive/runtime/kotlin/core/RiveMemoryTests.kt:76-93 | a new file has no dependencies and `firstArtboard` gives it one; the release frees the file and the artboard and empties the file's dependencies |
| MemoryTests.DisposeWithReferencedDependencies | kotlin/src/androidTest/java/app/rive/runtime/kotlin/core/RiveMemoryTests.kt:96-121 | a new file is live; an acquired artboard survives its file's release with count 1 and stays live, while the file is freed and emptied; the artboard's own release then frees it |
| MemoryTests.ArtboardAccess | kotlin/src/androidTest/java/app/rive/runtime/kotlin/core/RiveMemoryTests.kt:124-135 | the artboard's name reads "New Artboard"; after the file's release the file's count is 0 and the name throws `RiveException` |
| MemoryTests.StateMachineAccess | kotlin/src/androidTest/java/app/rive/runtime/kotlin/core/RiveMemoryTests.kt:138-148 | the state machine's name reads "mixed" and throws `RiveException` once the file is released |
| MemoryTests.LinearAnimationAccess | kotlin/src/androidTest/java/app/rive/runtime/kotlin/core/RiveMemoryTests.kt:151-161 | the animation's name reads "artboard2animation1" and throws `RiveException` once the file is released |
| MemoryTests.LayerStateAccess | kotlin/src/androidTest/java/app/rive/runtime/kotlin/core/RiveMemoryTests.kt:164-185 | the reported layer state is an animation state, and reading it throws `RiveException` once the controller is released |
| MemoryTests.ResetDoesNotReleaseNatives | kotlin/src/androidTest/java/app/rive/runtime/kotlin/core/RiveMemoryTests.kt:188-220 | after `reset()` the controller's artboard and a state machine fetched from it still read "New Artboard" and "State Machine 1"; after the controller's release both throw `RiveException` |
| MemoryTests.ResetDoesNotResetManualArtboards | kotlin/src/androidTest/java/app/rive/runtime/kotlin/core/RiveMemoryTests.kt:224-249 | an artboard fetched by hand reads "New Artboard" before and after `reset()`; once the detached controller has no user left, its count of users is 0 and the artboard throws `RiveException` |

## Left out

- Parsing a `.riv` file is the native engine's work. The file's artboards, state machines and
  animations are a parameter of `NewFile`.
- The native side (JNI) is not modelled. Destroying a native object is the flag `hasCppObject`
  turning false, and native teardown happens at once, with no background disposal thread.
- Advancing a state machine (`advance`) is not modelled. The layer state the engine reports is a
  parameter of `StateChanged`.
- The UI thread and the view are not modelled (`runOnUiThread`, `artboardRenderer`, `stop`).
  The view's `setRiveResource` is a file creation followed by `SetFile`. `mockDetach` is the
  controller's `Release`. The view's `reset()` is the controller's `Reset`.
- Polling (`waitUntil`) is not modelled, because a cascade here completes within the call.
- A freed object does not remove itself from its owner's dependency list. The tests never observe
  that list after a dependency was released on its own.
- `firstArtboard` registers a new artboard on every call, so a second fetch spawns a second
  artboard. Any de-duplication the runtime may do is not modelled.
- Arena.NativeArena.Acquire: requires a live object. Acquiring a freed object is never exercised
  by the tests.
- A release at count 0 leaves the store unchanged. A throw from a dependency's release during a
  cascade propagates and leaves the store as changed so far: the released object is freed but
  keeps its dependency list. The tests check nothing after a throw.
- Several lookup failures are modelled as one error, `NotFound`: a missing artboard, a state
  machine index or name that does not exist, and an animation index that does not exist.
- The controller's own `acquire`, replacing its file, and autoplay are not modelled.
- Controllers.RiveFileController.Reset: the tests pin only that no native object is freed. Its
  effect on the controller's own fields (the file, the artboard and the users are kept, the
  state machines are forgotten) is a modelling choice the tests do not check.

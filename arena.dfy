/**
 * The mutable side of the runtime: every wrapper's `refCount`, `hasCppObject` and
 * `dependencies`, changed in place by `acquire()`, `release()` and the accessors that spawn
 * dependencies (`firstArtboard`, `stateMachine(i)`, `animation(i)`, ...).
 */
module Arena {
  import opened RiveErrors
  import opened NativeStore
  import Cascade
  import Ownership

  class NativeArena {
    /** Every wrapper created so far, addressed by position. */
    var objects: Store

    ghost predicate Valid()
      reads this
    {
      NativeStore.Valid(objects)
    }

    ghost predicate Owned()
      reads this
    {
      NativeStore.Owned(objects)
    }

    constructor ()
      ensures Valid() && Owned() && objects == []
    {
      objects := [];
    }

    /** `File(bytes)`: a live file with one reference and no dependencies. Parsing the bytes
        is the native engine's work; its result is the `artboards` parameter. */
    method NewFile(artboards: seq<ArtboardDef>) returns (file: Ref)
      requires Valid()
      modifies this
      ensures Valid() && (old(Owned()) ==> Owned())
      ensures file == |old(objects)|
      ensures objects == old(objects) + [NativeObject(FileNative(artboards), 1, true, [])]
    {
      file := |objects|;
      objects := objects + [NativeObject(FileNative(artboards), 1, true, [])];
      forall i, k, j, l |
        0 <= i < |objects| && 0 <= k < |objects[i].dependencies| &&
        0 <= j < |objects| && 0 <= l < |objects[j].dependencies| && SameDependency(objects, i, k, j, l)
        ensures i == j && k == l
      {
        assert SameDependency(old(objects), i, k, j, l);
      }
    }

    /** `acquire()`: one more reference. */
    method Acquire(r: Ref)
      requires Valid() && r < |objects| && objects[r].hasCppObject
      modifies this
      ensures Valid() && (old(Owned()) ==> Owned())
      ensures objects == old(objects)[r := old(objects)[r].(refCount := old(objects)[r].refCount + 1)]
    {
      var o := objects[r];
      objects := objects[r := o.(refCount := o.refCount + 1)];
      assert forall i | 0 <= i < |objects| :: objects[i].dependencies == old(objects)[i].dependencies;
      Cascade.ClearingKeepsValid(old(objects), objects);
    }

    /** `release()`: throws IllegalArgumentException at count 0; otherwise drops one
        reference, and on the last one marks the native object gone, releases every
        dependency and clears the dependency list. */
    method Release(r: Ref) returns (outcome: Outcome)
      requires Valid() && r < |objects|
      modifies this
      ensures Valid()
      ensures Step(outcome, objects) == ReleaseSpec(old(objects), r)
      decreases |objects| - r, 1
    {
      var o := objects[r];
      if o.refCount == 0 {
        return Fail(IllegalArgumentException);
      }
      if o.refCount > 1 {
        objects := objects[r := o.(refCount := o.refCount - 1)];
        Cascade.ClearingKeepsValid(old(objects), objects);
        return Pass;
      }
      objects := objects[r := o.(refCount := 0, hasCppObject := false)];
      Cascade.ClearingKeepsValid(old(objects), objects);
      outcome := ReleaseDependencies(o.dependencies, r);
      if outcome.Pass? {
        objects := objects[r := objects[r].(dependencies := [])];
      }
      Cascade.ClearingKeepsValid(old(objects), objects);
    }

    /** Releases the dependencies `ds` of `owner` one after the other; the first throw ends
        the loop and propagates. */
    method ReleaseDependencies(ds: seq<Ref>, owner: Ref) returns (outcome: Outcome)
      requires Valid() && owner < |objects|
      requires forall k | 0 <= k < |ds| :: owner < ds[k] < |objects|
      modifies this
      ensures Valid()
      ensures Step(outcome, objects) == ReleaseDeps(old(objects), ds, owner)
      decreases |objects| - owner, 0
    {
      var i := 0;
      while i < |ds|
        invariant 0 <= i <= |ds| && |objects| == |old(objects)| && Valid()
        invariant ReleaseDeps(old(objects), ds, owner) == ReleaseDeps(objects, ds[i..], owner)
      {
        assert ds[i..][1..] == ds[i + 1..];
        var step := Release(ds[i]);
        if step.Fail? {
          return step;
        }
        i := i + 1;
      }
      return Pass;
    }

    /** Registers a fresh object as a dependency of the live `owner`. */
    method Spawn(owner: Ref, native: Native) returns (child: Ref)
      requires Valid() && owner < |objects| && objects[owner].hasCppObject && !native.FileNative?
      modifies this
      ensures Valid() && (old(Owned()) ==> Owned())
      ensures child == |old(objects)| && objects == AddDependency(old(objects), owner, native)
    {
      Ownership.AddDependencyKeepsOwned(objects, owner, native);
      child := |objects|;
      objects := AddDependency(objects, owner, native);
    }

    /** `file.firstArtboard`: a new artboard registered as a dependency of the file. */
    method FirstArtboard(file: Ref) returns (res: Result<Ref>)
      requires Valid() && file < |objects| && objects[file].native.FileNative?
      modifies this
      ensures Valid() && (old(Owned()) ==> Owned())
      ensures res.Ok? <==> old(objects)[file].refCount > 0 && old(objects)[file].native.artboards != []
      ensures res.Err? ==> objects == old(objects)
      ensures res.Err? && old(objects)[file].refCount == 0 ==> res.error == RiveException
      ensures res.Err? && old(objects)[file].refCount > 0 ==> res.error == NotFound
      ensures res.Ok? ==> res.value == |old(objects)|
      ensures res.Ok? ==> objects == AddDependency(old(objects), file, ArtboardNative(old(objects)[file].native.artboards[0]))
    {
      if !objects[file].hasCppObject {
        return Err(RiveException);
      }
      var artboards := objects[file].native.artboards;
      if artboards == [] {
        return Err(NotFound);
      }
      var a := Spawn(file, ArtboardNative(artboards[0]));
      return Ok(a);
    }

    /** `artboard.stateMachine(index)`: a new state machine registered under the artboard. */
    method StateMachineAt(artboard: Ref, index: nat) returns (res: Result<Ref>)
      requires Valid() && artboard < |objects| && objects[artboard].native.ArtboardNative?
      modifies this
      ensures Valid() && (old(Owned()) ==> Owned())
      ensures res.Ok? <==>
        old(objects)[artboard].refCount > 0 && index < |old(objects)[artboard].native.artboard.stateMachines|
      ensures res.Err? ==> objects == old(objects)
      ensures res.Err? && old(objects)[artboard].refCount == 0 ==> res.error == RiveException
      ensures res.Err? && old(objects)[artboard].refCount > 0 ==> res.error == NotFound
      ensures res.Ok? ==> res.value == |old(objects)|
      ensures res.Ok? ==> objects == AddDependency(old(objects), artboard,
          StateMachineNative(old(objects)[artboard].native.artboard.stateMachines[index]))
    {
      if !objects[artboard].hasCppObject {
        return Err(RiveException);
      }
      var names := objects[artboard].native.artboard.stateMachines;
      if index >= |names| {
        return Err(NotFound);
      }
      var m := Spawn(artboard, StateMachineNative(names[index]));
      return Ok(m);
    }

    /** `artboard.stateMachine(name)`: the first state machine of that name, registered under
        the artboard. */
    method StateMachineNamed(artboard: Ref, name: string) returns (res: Result<Ref>)
      requires Valid() && artboard < |objects| && objects[artboard].native.ArtboardNative?
      modifies this
      ensures Valid() && (old(Owned()) ==> Owned())
      ensures res.Ok? <==>
        old(objects)[artboard].refCount > 0 && name in old(objects)[artboard].native.artboard.stateMachines
      ensures res.Err? ==> objects == old(objects)
      ensures res.Err? && old(objects)[artboard].refCount == 0 ==> res.error == RiveException
      ensures res.Err? && old(objects)[artboard].refCount > 0 ==> res.error == NotFound
      ensures res.Ok? ==> res.value == |old(objects)|
      ensures res.Ok? ==> objects == AddDependency(old(objects), artboard, StateMachineNative(name))
    {
      if !objects[artboard].hasCppObject {
        return Err(RiveException);
      }
      var names := objects[artboard].native.artboard.stateMachines;
      var index := IndexOf(names, name);
      if index.None? {
        return Err(NotFound);
      }
      var m := Spawn(artboard, StateMachineNative(names[index.value]));
      return Ok(m);
    }

    /** `artboard.animation(index)`: a new linear animation registered under the artboard. */
    method AnimationAt(artboard: Ref, index: nat) returns (res: Result<Ref>)
      requires Valid() && artboard < |objects| && objects[artboard].native.ArtboardNative?
      modifies this
      ensures Valid() && (old(Owned()) ==> Owned())
      ensures res.Ok? <==>
        old(objects)[artboard].refCount > 0 && index < |old(objects)[artboard].native.artboard.animations|
      ensures res.Err? ==> objects == old(objects)
      ensures res.Err? && old(objects)[artboard].refCount == 0 ==> res.error == RiveException
      ensures res.Err? && old(objects)[artboard].refCount > 0 ==> res.error == NotFound
      ensures res.Ok? ==> res.value == |old(objects)|
      ensures res.Ok? ==> objects == AddDependency(old(objects), artboard,
          AnimationNative(old(objects)[artboard].native.artboard.animations[index]))
    {
      if !objects[artboard].hasCppObject {
        return Err(RiveException);
      }
      var names := objects[artboard].native.artboard.animations;
      if index >= |names| {
        return Err(NotFound);
      }
      var a := Spawn(artboard, AnimationNative(names[index]));
      return Ok(a);
    }

    /** A layer state the live state machine reports among its `statesChanged`, registered
        under that state machine. Which state the engine reached is the parameter. */
    method StateChanged(stateMachine: Ref, isAnimationState: bool) returns (res: Result<Ref>)
      requires Valid() && stateMachine < |objects| && objects[stateMachine].native.StateMachineNative?
      modifies this
      ensures Valid() && (old(Owned()) ==> Owned())
      ensures res.Ok? <==> old(objects)[stateMachine].refCount > 0
      ensures res.Err? ==> objects == old(objects) && res.error == RiveException
      ensures res.Ok? ==> res.value == |old(objects)|
      ensures res.Ok? ==> objects == AddDependency(old(objects), stateMachine, LayerStateNative(isAnimationState))
    {
      if !objects[stateMachine].hasCppObject {
        return Err(RiveException);
      }
      var l := Spawn(stateMachine, LayerStateNative(isAnimationState));
      return Ok(l);
    }

    /** `file.artboardNames`: readable exactly while the file holds a reference. */
    function ArtboardNamesOf(file: Ref): (res: Result<seq<string>>)
      reads this
      requires Valid() && file < |objects| && objects[file].native.FileNative?
      ensures res.Ok? <==> objects[file].refCount > 0
      ensures res.Ok? ==> res.value == ArtboardNames(objects[file].native.artboards)
      ensures res.Err? ==> res.error == RiveException
    {
      Guarded(objects[file], ArtboardNames(objects[file].native.artboards))
    }

    /** `name` of an artboard, state machine or linear animation: readable exactly while the
        object holds a reference. */
    function NameOf(r: Ref): (res: Result<string>)
      reads this
      requires Valid() && r < |objects|
      requires objects[r].native.ArtboardNative? || objects[r].native.StateMachineNative? ||
               objects[r].native.AnimationNative?
      ensures res.Ok? <==> objects[r].refCount > 0
      ensures res.Ok? && objects[r].native.ArtboardNative? ==> res.value == objects[r].native.artboard.name
      ensures res.Ok? && !objects[r].native.ArtboardNative? ==> res.value == objects[r].native.name
      ensures res.Err? ==> res.error == RiveException
    {
      var n := objects[r].native;
      Guarded(objects[r], if n.ArtboardNative? then n.artboard.name else n.name)
    }

    /** `isAnimationState` of a layer state: readable exactly while it holds a reference. */
    function IsAnimationStateOf(r: Ref): (res: Result<bool>)
      reads this
      requires Valid() && r < |objects| && objects[r].native.LayerStateNative?
      ensures res.Ok? <==> objects[r].refCount > 0
      ensures res.Ok? ==> res.value == objects[r].native.isAnimationState
      ensures res.Err? ==> res.error == RiveException
    {
      Guarded(objects[r], objects[r].native.isAnimationState)
    }
  }
}

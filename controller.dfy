/**
 * The file controller a view drives: it holds a file on the view's behalf, the artboard it
 * shows and the state machines it plays, and its own count of users, `refs`.
 */
module Controllers {
  import opened RiveErrors
  import opened NativeStore
  import opened Arena

  class RiveFileController {
    var refs: nat
    var file: Option<Ref>
    var activeArtboard: Option<Ref>
    var stateMachines: seq<Ref>

    /** A controller without users holds nothing, and everything it points at exists in
        `arena` and has the expected kind. */
    ghost predicate Valid(arena: NativeArena)
      reads this, arena
    {
      arena.Valid() &&
      (refs == 0 ==> file.None? && activeArtboard.None? && stateMachines == []) &&
      (file.Some? ==> file.value < |arena.objects| && arena.objects[file.value].native.FileNative?) &&
      (activeArtboard.Some? ==>
        activeArtboard.value < |arena.objects| && arena.objects[activeArtboard.value].native.ArtboardNative?) &&
      (forall k | 0 <= k < |stateMachines| ::
        stateMachines[k] < |arena.objects| && arena.objects[stateMachines[k]].native.StateMachineNative?)
    }

    constructor ()
      ensures refs == 1 && file == None && activeArtboard == None && stateMachines == []
    {
      refs := 1;
      file := None;
      activeArtboard := None;
      stateMachines := [];
    }

    /** Attaches file `f`, taking over the caller's reference on it, shows its first artboard
        and plays that artboard's state machine called `stateMachineName`. */
    method SetFile(arena: NativeArena, f: Ref, stateMachineName: string) returns (outcome: Outcome)
      requires Valid(arena) && file.None? && refs > 0
      requires f < |arena.objects| && arena.objects[f].native.FileNative?
      modifies this, arena
      ensures Valid(arena) && (old(arena.Owned()) ==> arena.Owned())
      ensures refs == old(refs) && file == Some(f)
      ensures outcome.Pass? <==>
        old(arena.objects)[f].refCount > 0 && old(arena.objects)[f].native.artboards != [] &&
        stateMachineName in old(arena.objects)[f].native.artboards[0].stateMachines
      ensures outcome.Pass? ==>
        activeArtboard == Some(|old(arena.objects)|) && stateMachines == [|old(arena.objects)| + 1] &&
        arena.objects == AddDependency(
          AddDependency(old(arena.objects), f, ArtboardNative(old(arena.objects)[f].native.artboards[0])),
          |old(arena.objects)|, StateMachineNative(stateMachineName))
      ensures outcome.Fail? && old(arena.objects)[f].refCount == 0 ==>
        outcome.error == RiveException
      ensures outcome.Fail? && old(arena.objects)[f].refCount > 0 ==> outcome.error == NotFound
      ensures outcome.Fail? && (old(arena.objects)[f].refCount == 0 || old(arena.objects)[f].native.artboards == []) ==>
        arena.objects == old(arena.objects) &&
        activeArtboard == old(activeArtboard) && stateMachines == old(stateMachines)
      ensures outcome.Fail? && old(arena.objects)[f].refCount > 0 && old(arena.objects)[f].native.artboards != [] ==>
        arena.objects == AddDependency(old(arena.objects), f, ArtboardNative(old(arena.objects)[f].native.artboards[0])) &&
        activeArtboard == Some(|old(arena.objects)|) && stateMachines == old(stateMachines)
    {
      file := Some(f);
      var artboard := arena.FirstArtboard(f);
      if artboard.Err? {
        return Fail(artboard.error);
      }
      activeArtboard := Some(artboard.value);
      var machine := arena.StateMachineNamed(artboard.value, stateMachineName);
      if machine.Err? {
        return Fail(machine.error);
      }
      stateMachines := [machine.value];
      return Pass;
    }

    /** `reset()`: frees no native object, so the arena is not touched. What it does to the
        controller's own fields is a modelling choice: it keeps the file, the artboard and the
        users and forgets the state machines it played. */
    method Reset(arena: NativeArena)
      requires Valid(arena)
      modifies this
      ensures Valid(arena)
      ensures refs == old(refs) && file == old(file) && activeArtboard == old(activeArtboard)
      ensures stateMachines == []
    {
      stateMachines := [];
    }

    /** `release()`: one user fewer. When the last user goes, the controller gives up its file,
        which releases the file (and cascades) and forgets the artboard and state machines. A
        release with no user left does nothing. */
    method Release(arena: NativeArena) returns (outcome: Outcome)
      requires Valid(arena)
      modifies this, arena
      ensures Valid(arena)
      ensures refs == if old(refs) == 0 then 0 else old(refs) - 1
      ensures old(refs) == 1 && old(file).Some? ==>
        Step(outcome, arena.objects) == ReleaseSpec(old(arena.objects), old(file).value)
      ensures !(old(refs) == 1 && old(file).Some?) ==>
        outcome == Pass && arena.objects == old(arena.objects)
      ensures refs == 0 ==> file == None && activeArtboard == None && stateMachines == []
      ensures refs > 0 ==>
        file == old(file) && activeArtboard == old(activeArtboard) && stateMachines == old(stateMachines)
    {
      outcome := Pass;
      if refs == 0 {
        return;
      }
      refs := refs - 1;
      if refs == 0 {
        if file.Some? {
          outcome := arena.Release(file.value);
        }
        file := None;
        activeArtboard := None;
        stateMachines := [];
      }
    }
  }
}

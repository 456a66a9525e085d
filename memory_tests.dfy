/**
 * The memory tests of the runtime as scenarios: each method performs the calls of one test
 * and returns what that test observes; its postcondition is the test's assertions. The
 * content of the `.riv` resource a test loads is a parameter, constrained only by the values
 * the test itself reads back.
 */
module MemoryTests {
  import opened RiveErrors
  import opened NativeStore
  import opened Arena
  import opened Controllers
  import Cascade
  import Ownership

  /** `filesAccess`: the artboard names are readable until the file is released. */
  method FilesAccess(artboards: seq<ArtboardDef>) returns (before: Result<seq<string>>, after: Result<seq<string>>)
    requires ArtboardNames(artboards) == ["New Artboard"]
    ensures before == Ok(["New Artboard"])
    ensures after == Err(RiveException)
  {
    var arena := new NativeArena();
    var file := arena.NewFile(artboards);
    before := arena.ArtboardNamesOf(file);
    var released := arena.Release(file);
    after := arena.ArtboardNamesOf(file);
  }

  /** `disposeNativeObject`: one release of a fresh file frees its native object. */
  method DisposeNativeObject(artboards: seq<ArtboardDef>) returns (liveBefore: bool, countAfter: nat, liveAfter: bool)
    ensures liveBefore && countAfter == 0 && !liveAfter
  {
    var arena := new NativeArena();
    var file := arena.NewFile(artboards);
    liveBefore := arena.objects[file].hasCppObject;
    var released := arena.Release(file);
    countAfter := arena.objects[file].refCount;
    liveAfter := arena.objects[file].hasCppObject;
  }

  /** `multiRefDisposeNativeObject`: after an `acquire()` the first release keeps the native
      object, the second frees it. */
  method MultiRefDisposeNativeObject(artboards: seq<ArtboardDef>)
    returns (liveBefore: bool, countMid: nat, liveMid: bool, countAfter: nat, liveAfter: bool)
    ensures liveBefore && countMid == 1 && liveMid
    ensures countAfter == 0 && !liveAfter
  {
    var arena := new NativeArena();
    var file := arena.NewFile(artboards);
    liveBefore := arena.objects[file].hasCppObject;
    arena.Acquire(file);
    var first := arena.Release(file);
    countMid, liveMid := arena.objects[file].refCount, arena.objects[file].hasCppObject;
    var second := arena.Release(file);
    countAfter, liveAfter := arena.objects[file].refCount, arena.objects[file].hasCppObject;
  }

  /** `disposeTooMany`: a second release of a freed file throws IllegalArgumentException. */
  method DisposeTooMany(artboards: seq<ArtboardDef>) returns (liveBefore: bool, countAfter: nat, second: Outcome)
    ensures liveBefore && countAfter == 0
    ensures second == Fail(IllegalArgumentException)
  {
    var arena := new NativeArena();
    var file := arena.NewFile(artboards);
    liveBefore := arena.objects[file].hasCppObject;
    var first := arena.Release(file);
    countAfter := arena.objects[file].refCount;
    second := arena.Release(file);
  }

  /** `disposeWithDependencies`: `firstArtboard` registers one dependency; releasing the file
      frees the file and the artboard and empties the file's dependencies. */
  method DisposeWithDependencies(artboards: seq<ArtboardDef>)
    returns (liveBefore: bool, depsBefore: nat, depsAfterFetch: nat, artboardLive: bool,
             countAfter: nat, liveAfter: bool, artboardLiveAfter: bool, depsAfter: nat)
    requires artboards != []
    ensures liveBefore && depsBefore == 0
    ensures depsAfterFetch == 1 && artboardLive
    ensures countAfter == 0 && !liveAfter && !artboardLiveAfter && depsAfter == 0
  {
    var arena := new NativeArena();
    var file := arena.NewFile(artboards);
    liveBefore, depsBefore := arena.objects[file].hasCppObject, |arena.objects[file].dependencies|;
    var artboard := arena.FirstArtboard(file);
    var a := artboard.value;
    depsAfterFetch, artboardLive := |arena.objects[file].dependencies|, arena.objects[a].hasCppObject;
    ghost var s := arena.objects;
    var released := arena.Release(file);
    Ownership.ReleaseEffect(s, file);
    Cascade.TouchedClosed(s, file, file, 0);
    countAfter, liveAfter := arena.objects[file].refCount, arena.objects[file].hasCppObject;
    artboardLiveAfter, depsAfter := arena.objects[a].hasCppObject, |arena.objects[file].dependencies|;
  }

  /** `disposeWithReferencedDependencies`: an artboard acquired by its user survives the
      release of its file with one reference, and its own release then frees it. */
  method DisposeWithReferencedDependencies(artboards: seq<ArtboardDef>)
    returns (liveBefore: bool, depsBefore: nat, depsAfterFetch: nat, artboardLive: bool,
             fileCount: nat, fileLive: bool, fileDeps: nat,
             artboardCount: nat, artboardLiveMid: bool, artboardCountAfter: nat, artboardLiveAfter: bool)
    requires artboards != []
    ensures liveBefore && depsBefore == 0 && depsAfterFetch > 0 && artboardLive
    ensures fileCount == 0 && !fileLive && fileDeps == 0
    ensures artboardCount == 1 && artboardLiveMid
    ensures artboardCountAfter == 0 && !artboardLiveAfter
  {
    var arena := new NativeArena();
    var file := arena.NewFile(artboards);
    liveBefore, depsBefore := arena.objects[file].hasCppObject, |arena.objects[file].dependencies|;
    var artboard := arena.FirstArtboard(file);
    var a := artboard.value;
    arena.Acquire(a);
    depsAfterFetch, artboardLive := |arena.objects[file].dependencies|, arena.objects[a].hasCppObject;
    ghost var s := arena.objects;
    var released := arena.Release(file);
    Ownership.ReleaseEffect(s, file);
    Cascade.TouchedClosed(s, file, file, 0);
    fileCount, fileLive, fileDeps := arena.objects[file].refCount, arena.objects[file].hasCppObject,
      |arena.objects[file].dependencies|;
    artboardCount, artboardLiveMid := arena.objects[a].refCount, arena.objects[a].hasCppObject;
    ghost var s2 := arena.objects;
    var own := arena.Release(a);
    Ownership.ReleaseKeepsOwned(s, file);
    Ownership.ReleaseEffect(s2, a);
    artboardCountAfter, artboardLiveAfter := arena.objects[a].refCount, arena.objects[a].hasCppObject;
  }

  /** `artboardAccess`: the artboard's name is unreadable once its file is released. */
  method ArtboardAccess(artboards: seq<ArtboardDef>) returns (before: Result<string>, fileCount: nat, after: Result<string>)
    requires artboards != [] && artboards[0].name == "New Artboard"
    ensures before == Ok("New Artboard") && fileCount == 0
    ensures after == Err(RiveException)
  {
    var arena := new NativeArena();
    var file := arena.NewFile(artboards);
    var artboard := arena.FirstArtboard(file);
    var a := artboard.value;
    before := arena.NameOf(a);
    ghost var s := arena.objects;
    var released := arena.Release(file);
    Ownership.ReleaseEffect(s, file);
    Cascade.TouchedClosed(s, file, file, 0);
    fileCount := arena.objects[file].refCount;
    after := arena.NameOf(a);
  }

  /** `stateMachineAccess`: a state machine two levels below the file is unreadable once the
      file is released. */
  method StateMachineAccess(artboards: seq<ArtboardDef>) returns (before: Result<string>, after: Result<string>)
    requires artboards != [] && artboards[0].stateMachines != [] && artboards[0].stateMachines[0] == "mixed"
    ensures before == Ok("mixed")
    ensures after == Err(RiveException)
  {
    var arena := new NativeArena();
    var file := arena.NewFile(artboards);
    var artboard := arena.FirstArtboard(file);
    var a := artboard.value;
    var machine := arena.StateMachineAt(a, 0);
    var m := machine.value;
    before := arena.NameOf(m);
    ghost var s := arena.objects;
    var released := arena.Release(file);
    Ownership.ReleaseEffect(s, file);
    Cascade.TouchedClosed(s, file, file, 0);
    Cascade.TouchedClosed(s, file, a, 0);
    after := arena.NameOf(m);
  }

  /** `linearAnimationAccess`: an animation two levels below the file is unreadable once the
      file is released. */
  method LinearAnimationAccess(artboards: seq<ArtboardDef>) returns (before: Result<string>, after: Result<string>)
    requires artboards != [] && artboards[0].animations != []
    requires artboards[0].animations[0] == "artboard2animation1"
    ensures before == Ok("artboard2animation1")
    ensures after == Err(RiveException)
  {
    var arena := new NativeArena();
    var file := arena.NewFile(artboards);
    var artboard := arena.FirstArtboard(file);
    var a := artboard.value;
    var animation := arena.AnimationAt(a, 0);
    var n := animation.value;
    before := arena.NameOf(n);
    ghost var s := arena.objects;
    var released := arena.Release(file);
    Ownership.ReleaseEffect(s, file);
    Cascade.TouchedClosed(s, file, file, 0);
    Cascade.TouchedClosed(s, file, a, 0);
    after := arena.NameOf(n);
  }

  /** `layerStateAccess`: a layer state reported by the state machine a controller plays is
      unreadable once the controller is released. The state change the engine reports while
      advancing is an animation state. */
  method LayerStateAccess(artboards: seq<ArtboardDef>) returns (before: Result<bool>, after: Result<bool>)
    requires artboards != [] && "State Machine 1" in artboards[0].stateMachines
    ensures before == Ok(true)
    ensures after == Err(RiveException)
  {
    var arena := new NativeArena();
    var file := arena.NewFile(artboards);
    var controller := new RiveFileController();
    var attached := controller.SetFile(arena, file, "State Machine 1");
    var a := controller.activeArtboard.value;
    var m := controller.stateMachines[0];
    var state := arena.StateChanged(m, true);
    var l := state.value;
    before := arena.IsAnimationStateOf(l);
    ghost var s := arena.objects;
    var released := controller.Release(arena);
    Cascade.TouchedClosed(s, file, file, 0);
    Cascade.TouchedClosed(s, file, a, 0);
    Cascade.TouchedClosed(s, file, m, 0);
    Ownership.TouchedLastFreed(s, file, l);
    after := arena.IsAnimationStateOf(l);
  }

  /** `resetDoesNotReleaseNatives`: after a controller reset its artboard and a state machine
      of it are still readable; releasing the controller frees both. */
  method ResetDoesNotReleaseNatives(artboards: seq<ArtboardDef>)
    returns (artboardName: Result<string>, machineName: Result<string>,
             artboardAfter: Result<string>, machineAfter: Result<string>)
    requires artboards != [] && artboards[0].name == "New Artboard"
    requires artboards[0].stateMachines != [] && artboards[0].stateMachines[0] == "State Machine 1"
    ensures artboardName == Ok("New Artboard") && machineName == Ok("State Machine 1")
    ensures artboardAfter == Err(RiveException) && machineAfter == Err(RiveException)
  {
    var arena := new NativeArena();
    var file := arena.NewFile(artboards);
    var controller := new RiveFileController();
    var attached := controller.SetFile(arena, file, "State Machine 1");
    var a := controller.activeArtboard.value;
    var machine := arena.StateMachineAt(a, 0);
    var m := machine.value;
    controller.Reset(arena);
    artboardName, machineName := arena.NameOf(a), arena.NameOf(m);
    ghost var s := arena.objects;
    var released := controller.Release(arena);
    Cascade.TouchedClosed(s, file, file, 0);
    Cascade.TouchedClosed(s, file, a, 1);
    Ownership.TouchedLastFreed(s, file, a);
    Ownership.TouchedLastFreed(s, file, m);
    artboardAfter, machineAfter := arena.NameOf(a), arena.NameOf(m);
  }

  /** `resetDoesNotResetManualArtboards`: an artboard fetched from the controller's file by
      hand survives a reset, and is freed once the detached controller has no user left. */
  method ResetDoesNotResetManualArtboards(artboards: seq<ArtboardDef>)
    returns (before: Result<string>, afterReset: Result<string>, refs: nat, afterDetach: Result<string>)
    requires artboards != [] && artboards[0].name == "New Artboard"
    requires "State Machine 1" in artboards[0].stateMachines
    ensures before == Ok("New Artboard") && afterReset == Ok("New Artboard")
    ensures refs == 0 && afterDetach == Err(RiveException)
  {
    var arena := new NativeArena();
    var file := arena.NewFile(artboards);
    var controller := new RiveFileController();
    var attached := controller.SetFile(arena, file, "State Machine 1");
    var manual := arena.FirstArtboard(file);
    var a := manual.value;
    before := arena.NameOf(a);
    controller.Reset(arena);
    afterReset := arena.NameOf(a);
    ghost var s := arena.objects;
    var detached := controller.Release(arena);
    refs := controller.refs;
    Cascade.TouchedClosed(s, file, file, 1);
    Ownership.TouchedLastFreed(s, file, a);
    afterDetach := arena.NameOf(a);
  }
}

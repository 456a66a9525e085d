/**
 * The state of every native-backed object of the runtime (files, artboards, state machines,
 * linear animations and layer states) as one store, and the pure specification of what
 * `release()` does to that store.
 *
 * An object is addressed by its position in the store. A dependency is always created after
 * the object that spawns it, so it sits at a higher position: the ownership graph is a forest
 * that can be walked by increasing position.
 */
module NativeStore {
  import opened RiveErrors

  type Ref = nat

  /** What a `.riv` file holds for one artboard, as far as the memory layer exposes it. */
  datatype ArtboardDef = ArtboardDef(name: string, stateMachines: seq<string>, animations: seq<string>)

  /** The native object behind a wrapper, one alternative per wrapper class. */
  datatype Native =
    | FileNative(artboards: seq<ArtboardDef>)
    | ArtboardNative(artboard: ArtboardDef)
    | StateMachineNative(name: string)
    | AnimationNative(name: string)
    | LayerStateNative(isAnimationState: bool)

  /** A reference-counted wrapper: its native object, its count, whether the native object is
      still allocated, and the objects it spawned and holds one reference on. */
  datatype NativeObject = NativeObject(native: Native, refCount: nat, hasCppObject: bool, dependencies: seq<Ref>)

  type Store = seq<NativeObject>

  /** The result of a release: whether it threw, and the store afterwards. */
  datatype Step = Step(outcome: Outcome, store: Store)

  /** Every dependency sits after its owner and inside the store. */
  ghost predicate WellFormed(s: Store)
  {
    forall i, k | 0 <= i < |s| && 0 <= k < |s[i].dependencies| :: i < s[i].dependencies[k] < |s|
  }

  /** An object holds its native object exactly while its count is positive. */
  ghost predicate Synced(s: Store)
  {
    forall i | 0 <= i < |s| :: s[i].hasCppObject <==> s[i].refCount > 0
  }

  /** Every object is registered at most once, under at most one owner. */
  ghost predicate SingleOwner(s: Store)
  {
    forall i, k, j, l |
      0 <= i < |s| && 0 <= k < |s[i].dependencies| && 0 <= j < |s| && 0 <= l < |s[j].dependencies| &&
      SameDependency(s, i, k, j, l)
      :: i == j && k == l
  }

  /** Entry `k` of `i`'s dependencies and entry `l` of `j`'s are the same object. */
  ghost predicate SameDependency(s: Store, i: nat, k: nat, j: nat, l: nat)
    requires i < |s| && k < |s[i].dependencies| && j < |s| && l < |s[j].dependencies|
  {
    s[i].dependencies[k] == s[j].dependencies[l]
  }

  /** Files are never registered as anybody's dependency. */
  ghost predicate FilesAreRoots(s: Store)
  {
    forall i, k | 0 <= i < |s| && 0 <= k < |s[i].dependencies| && s[i].dependencies[k] < |s| ::
      !s[s[i].dependencies[k]].native.FileNative?
  }

  /** The shape every operation of the runtime keeps. */
  ghost predicate Valid(s: Store)
  {
    WellFormed(s) && Synced(s) && SingleOwner(s) && FilesAreRoots(s)
  }

  /** The ownership discipline: a freed object owns nothing, and every registered dependency
      still carries the reference its owner holds on it. Callers that only release references
      they acquired themselves keep it. */
  ghost predicate Owned(s: Store)
  {
    forall i | 0 <= i < |s| ::
      (s[i].refCount == 0 ==> s[i].dependencies == []) &&
      forall k | 0 <= k < |s[i].dependencies| ::
        s[i].dependencies[k] < |s| && s[s[i].dependencies[k]].refCount >= 1
  }

  /** `x` is registered as the dependency of some object. */
  ghost predicate Dependent(s: Store, x: Ref)
  {
    exists i, k | 0 <= i < |s| && 0 <= k < |s[i].dependencies| :: s[i].dependencies[k] == x
  }

  /** The new state of an object that loses one reference: freed, with its dependency list
      emptied, when that was its last reference. */
  function Dec(o: NativeObject): (d: NativeObject)
    ensures d.native == o.native && d.refCount + 1 >= o.refCount && d.refCount <= o.refCount
    ensures (o.hasCppObject <==> o.refCount > 0) ==> (d.hasCppObject <==> d.refCount > 0)
  {
    if o.refCount <= 1 then o.(refCount := 0, hasCppObject := false, dependencies := [])
    else o.(refCount := o.refCount - 1)
  }

  /** `release()` on object `r`: a release at count 0 throws; otherwise the count drops, and
      when it reaches 0 the native object is marked gone at once, every dependency is released
      in registration order (a throw there propagates), and the dependency list is cleared. */
  function ReleaseSpec(s: Store, r: Ref): (st: Step)
    requires WellFormed(s) && r < |s|
    ensures |st.store| == |s| && WellFormed(st.store)
    ensures forall i | 0 <= i < |s| ::
      st.store[i].native == s[i].native && st.store[i].refCount <= s[i].refCount &&
      (st.store[i].dependencies == s[i].dependencies || st.store[i].dependencies == [])
    ensures Synced(s) ==> Synced(st.store)
    ensures s[r].refCount == 0 ==> st == Step(Fail(IllegalArgumentException), s)
    decreases |s| - r, 1
  {
    var o := s[r];
    if o.refCount == 0 then Step(Fail(IllegalArgumentException), s)
    else if o.refCount > 1 then Step(Pass, s[r := o.(refCount := o.refCount - 1)])
    else
      var freed := s[r := o.(refCount := 0, hasCppObject := false)];
      var st := ReleaseDeps(freed, o.dependencies, r);
      if st.outcome.Fail? then st
      else Step(Pass, st.store[r := st.store[r].(dependencies := [])])
  }

  /** Releases each of `ds`, the dependencies of `owner`, in order; stops at the first throw. */
  function ReleaseDeps(s: Store, ds: seq<Ref>, owner: Ref): (st: Step)
    requires WellFormed(s) && owner < |s|
    requires forall k | 0 <= k < |ds| :: owner < ds[k] < |s|
    ensures |st.store| == |s| && WellFormed(st.store)
    ensures forall i | 0 <= i < |s| ::
      st.store[i].native == s[i].native && st.store[i].refCount <= s[i].refCount &&
      (st.store[i].dependencies == s[i].dependencies || st.store[i].dependencies == [])
    ensures Synced(s) ==> Synced(st.store)
    decreases |s| - owner, 0, |ds|
  {
    if ds == [] then Step(Pass, s)
    else
      var first := ReleaseSpec(s, ds[0]);
      if first.outcome.Fail? then first
      else ReleaseDeps(first.store, ds[1..], owner)
  }

  /** Registers a fresh object wrapping `native` as a dependency of `owner`: it is appended
      live with one reference, the one `owner` holds. */
  function AddDependency(s: Store, owner: Ref, native: Native): (t: Store)
    requires owner < |s|
    ensures |t| == |s| + 1
    ensures t[|s|] == NativeObject(native, 1, true, [])
    ensures t[owner].dependencies == s[owner].dependencies + [|s|]
    ensures t[owner].native == s[owner].native && t[owner].refCount == s[owner].refCount
    ensures t[owner].hasCppObject == s[owner].hasCppObject
    ensures forall i | 0 <= i < |s| && i != owner :: t[i] == s[i]
  {
    var o := s[owner];
    s[owner := o.(dependencies := o.dependencies + [|s|])] + [NativeObject(native, 1, true, [])]
  }

  /** The names of the artboards of a file, in file order. */
  function ArtboardNames(artboards: seq<ArtboardDef>): (names: seq<string>)
    ensures |names| == |artboards|
    ensures forall i | 0 <= i < |artboards| :: names[i] == artboards[i].name
  {
    if artboards == [] then [] else [artboards[0].name] + ArtboardNames(artboards[1..])
  }

  /** The position of the first occurrence of `name` in `names`, if any. */
  function IndexOf(names: seq<string>, name: string): (r: Option<nat>)
    ensures r.Some? ==> r.value < |names| && names[r.value] == name
    ensures r.Some? ==> forall j | 0 <= j < r.value :: names[j] != name
    ensures r.None? ==> forall j | 0 <= j < |names| :: names[j] != name
  {
    if names == [] then None
    else if names[0] == name then Some(0)
    else match IndexOf(names[1..], name)
      case None => None
      case Some(j) => Some(j + 1)
  }

  /** The guarded read every property accessor goes through: the value while the native
      object exists, a RiveException once it is gone. */
  function Guarded<T>(o: NativeObject, value: T): Result<T>
  {
    if o.hasCppObject then Ok(value) else Err(RiveException)
  }
}

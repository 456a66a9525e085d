/**
 * The ownership discipline (`Owned`): which operations keep it, and what it buys — a release
 * throws exactly when the count is already 0, and otherwise has the exact effect of
 * `Cascade.ReleaseExact`.
 */
module Ownership {
  import opened RiveErrors
  import opened NativeStore
  import opened Cascade

  /** Under the discipline, everything below a live object is live. */
  lemma OwnedLiveTree(s: Store, r: Ref)
    requires Valid(s) && Owned(s) && r < |s| && s[r].refCount >= 1
    ensures LiveTree(s, r)
  {
    forall x | x in Desc(s, r)
      ensures s[x].refCount >= 1
    {
      if x != r {
        var p, k := DescParent(s, r, x);
      }
    }
  }

  /** A release throws IllegalArgumentException, changing nothing, exactly when the count is
      already 0; otherwise it takes one reference from each touched object and nothing else. */
  lemma ReleaseEffect(s: Store, r: Ref)
    requires Valid(s) && Owned(s) && r < |s|
    ensures ReleaseSpec(s, r).outcome.Pass? <==> s[r].refCount >= 1
    ensures ReleaseSpec(s, r).outcome.Fail? ==>
      ReleaseSpec(s, r).outcome.error == IllegalArgumentException && ReleaseSpec(s, r).store == s
    ensures s[r].refCount >= 1 ==> forall x | 0 <= x < |s| ::
      ReleaseSpec(s, r).store[x] == if x in Touched(s, r) then Dec(s[x]) else s[x]
  {
    if s[r].refCount >= 1 {
      OwnedLiveTree(s, r);
      ReleaseExact(s, r);
    }
  }

  /** Releasing a reference the caller holds itself (the object is nobody's dependency, or
      has a reference besides its owner's) keeps the shape and the discipline. */
  lemma ReleaseKeepsOwned(s: Store, r: Ref)
    requires Valid(s) && Owned(s) && r < |s|
    requires s[r].refCount >= 2 || !Dependent(s, r)
    ensures Valid(ReleaseSpec(s, r).store) && Owned(ReleaseSpec(s, r).store)
  {
    var t := ReleaseSpec(s, r).store;
    ClearingKeepsValid(s, t);
    if s[r].refCount >= 1 {
      ReleaseEffect(s, r);
      forall i | 0 <= i < |t|
        ensures t[i].refCount == 0 ==> t[i].dependencies == []
        ensures forall k | 0 <= k < |t[i].dependencies| ::
          t[i].dependencies[k] < |t| && t[t[i].dependencies[k]].refCount >= 1
      {
        forall k | 0 <= k < |t[i].dependencies|
          ensures t[i].dependencies[k] < |t| && t[t[i].dependencies[k]].refCount >= 1
        {
          OwnedChildSurvives(s, r, i, k);
        }
      }
    }
  }

  /** The step of `ReleaseKeepsOwned` for one registered dependency that is still listed. */
  lemma OwnedChildSurvives(s: Store, r: Ref, i: Ref, k: nat)
    requires Valid(s) && Owned(s) && r < |s| && s[r].refCount >= 1
    requires s[r].refCount >= 2 || !Dependent(s, r)
    requires i < |s| && k < |ReleaseSpec(s, r).store[i].dependencies|
    ensures ReleaseSpec(s, r).store[i].dependencies[k] < |s|
    ensures ReleaseSpec(s, r).store[ReleaseSpec(s, r).store[i].dependencies[k]].refCount >= 1
  {
    var t := ReleaseSpec(s, r).store;
    ReleaseEffect(s, r);
    assert t[i].dependencies == s[i].dependencies;
    var c := s[i].dependencies[k];
    TouchedOwner(s, r, i, k);
    assert c == r ==> Dependent(s, r);
  }

  /** A touched dependency other than `r` is touched because its one owner lost its last
      reference. */
  lemma TouchedOwner(s: Store, r: Ref, i: Ref, k: nat)
    requires Valid(s) && r < |s| && i < |s| && k < |s[i].dependencies|
    ensures s[i].dependencies[k] in Touched(s, r) && s[i].dependencies[k] != r ==>
      i in Touched(s, r) && s[i].refCount == 1
  {
    var c := s[i].dependencies[k];
    if c in Touched(s, r) && c != r {
      var p, m := TouchedParent(s, r, c);
      assert SameDependency(s, p, m, i, k);
    }
  }

  /** Registering a new non-file dependency of a live owner keeps the shape and the
      discipline, and the new object is registered under that owner only. */
  lemma AddDependencyKeepsOwned(s: Store, owner: Ref, native: Native)
    requires Valid(s) && owner < |s| && s[owner].hasCppObject && !native.FileNative?
    ensures Valid(AddDependency(s, owner, native))
    ensures Owned(s) ==> Owned(AddDependency(s, owner, native))
  {
    var t := AddDependency(s, owner, native);
    assert WellFormed(t) by {
      forall i, k | 0 <= i < |t| && 0 <= k < |t[i].dependencies|
        ensures i < t[i].dependencies[k] < |t|
      {
        if i == owner && k == |s[owner].dependencies| {
        } else {
          assert t[i].dependencies[k] == s[i].dependencies[k];
        }
      }
    }
    assert SingleOwner(t) by {
      forall i, k, j, l |
        0 <= i < |t| && 0 <= k < |t[i].dependencies| && 0 <= j < |t| && 0 <= l < |t[j].dependencies| &&
        SameDependency(t, i, k, j, l)
        ensures i == j && k == l
      {
        var fresh1 := i == owner && k == |s[owner].dependencies|;
        var fresh2 := j == owner && l == |s[owner].dependencies|;
        if !fresh1 {
          assert i < |s| && t[i].dependencies[k] == s[i].dependencies[k] < |s|;
        }
        if !fresh2 {
          assert j < |s| && t[j].dependencies[l] == s[j].dependencies[l] < |s|;
        }
        if !fresh1 && !fresh2 {
          assert SameDependency(s, i, k, j, l);
        }
      }
    }
    assert FilesAreRoots(t) by {
      forall i, k | 0 <= i < |t| && 0 <= k < |t[i].dependencies| && t[i].dependencies[k] < |t|
        ensures !t[t[i].dependencies[k]].native.FileNative?
      {
        if !(i == owner && k == |s[owner].dependencies|) {
          assert t[i].dependencies[k] == s[i].dependencies[k];
        }
      }
    }
    if Owned(s) {
      forall i | 0 <= i < |t|
        ensures t[i].refCount == 0 ==> t[i].dependencies == []
        ensures forall k | 0 <= k < |t[i].dependencies| ::
          t[i].dependencies[k] < |t| && t[t[i].dependencies[k]].refCount >= 1
      {
        forall k | 0 <= k < |t[i].dependencies|
          ensures t[i].dependencies[k] < |t| && t[t[i].dependencies[k]].refCount >= 1
        {
          if !(i == owner && k == |s[owner].dependencies|) {
            assert t[i].dependencies[k] == s[i].dependencies[k];
          }
        }
      }
    }
  }

  /** A touched object whose last reference goes is freed and lets go of its dependencies. */
  lemma TouchedLastFreed(s: Store, r: Ref, x: Ref)
    requires Valid(s) && Owned(s) && r < |s| && s[r].refCount >= 1
    requires x < |s| && x in Touched(s, r) && s[x].refCount == 1
    ensures ReleaseSpec(s, r).store[x].refCount == 0 && !ReleaseSpec(s, r).store[x].hasCppObject
    ensures ReleaseSpec(s, r).store[x].dependencies == []
  {
    ReleaseEffect(s, r);
  }
}

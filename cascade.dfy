/**
 * What a release does to the whole store: exactly the objects in `Touched(s, r)` lose one
 * reference each, and nothing else changes.
 */
module Cascade {
  import opened RiveErrors
  import opened NativeStore

  /** `r` together with everything it spawned, transitively. */
  ghost function Desc(s: Store, r: Ref): (d: set<Ref>)
    requires WellFormed(s) && r < |s|
    ensures r in d
    ensures forall x | x in d :: r <= x < |s|
    decreases |s| - r, 1
  {
    {r} + DescSeq(s, s[r].dependencies, r)
  }

  ghost function DescSeq(s: Store, ds: seq<Ref>, owner: Ref): (d: set<Ref>)
    requires WellFormed(s) && owner < |s|
    requires forall k | 0 <= k < |ds| :: owner < ds[k] < |s|
    ensures forall x | x in d :: owner < x < |s|
    decreases |s| - owner, 0, |ds|
  {
    if ds == [] then {} else Desc(s, ds[0]) + DescSeq(s, ds[1..], owner)
  }

  /** The objects a release of `r` takes one reference from: `r` itself, and, when that was
      the last reference of an object, each of its dependencies in turn. */
  ghost function Touched(s: Store, r: Ref): (t: set<Ref>)
    requires WellFormed(s) && r < |s|
    ensures r in t && t <= Desc(s, r)
    decreases |s| - r, 1
  {
    if s[r].refCount == 1 then {r} + TouchedSeq(s, s[r].dependencies, r) else {r}
  }

  ghost function TouchedSeq(s: Store, ds: seq<Ref>, owner: Ref): (t: set<Ref>)
    requires WellFormed(s) && owner < |s|
    requires forall k | 0 <= k < |ds| :: owner < ds[k] < |s|
    ensures t <= DescSeq(s, ds, owner)
    decreases |s| - owner, 0, |ds|
  {
    if ds == [] then {} else Touched(s, ds[0]) + TouchedSeq(s, ds[1..], owner)
  }

  /** Every object under `r` still holds a reference, so no release in the cascade throws. */
  ghost predicate LiveTree(s: Store, r: Ref)
    requires WellFormed(s) && r < |s|
  {
    forall x | x in Desc(s, r) :: s[x].refCount >= 1
  }

  /** `s` and `t` hold the same objects at every position in `xs`. */
  ghost predicate Agree(s: Store, t: Store, xs: set<Ref>)
  {
    forall x | x in xs :: x < |s| && x < |t| && s[x] == t[x]
  }

  // ---------------------------------------------------------------------------------------
  // Membership in the sequence unions

  lemma {:induction false} DescSeqContains(s: Store, ds: seq<Ref>, owner: Ref, m: nat)
    requires WellFormed(s) && owner < |s|
    requires forall k | 0 <= k < |ds| :: owner < ds[k] < |s|
    requires m < |ds|
    ensures Desc(s, ds[m]) <= DescSeq(s, ds, owner)
    ensures Touched(s, ds[m]) <= TouchedSeq(s, ds, owner)
    decreases m
  {
    if m > 0 {
      DescSeqContains(s, ds[1..], owner, m - 1);
    }
  }

  lemma {:induction false} DescSeqMember(s: Store, ds: seq<Ref>, owner: Ref, x: Ref) returns (m: nat)
    requires WellFormed(s) && owner < |s|
    requires forall k | 0 <= k < |ds| :: owner < ds[k] < |s|
    requires x in DescSeq(s, ds, owner)
    ensures m < |ds| && x in Desc(s, ds[m])
    decreases |ds|
  {
    if x in Desc(s, ds[0]) {
      m := 0;
    } else {
      var m' := DescSeqMember(s, ds[1..], owner, x);
      m := m' + 1;
    }
  }

  lemma {:induction false} TouchedSeqMember(s: Store, ds: seq<Ref>, owner: Ref, x: Ref) returns (m: nat)
    requires WellFormed(s) && owner < |s|
    requires forall k | 0 <= k < |ds| :: owner < ds[k] < |s|
    requires x in TouchedSeq(s, ds, owner)
    ensures m < |ds| && x in Touched(s, ds[m])
    decreases |ds|
  {
    if x in Touched(s, ds[0]) {
      m := 0;
    } else {
      var m' := TouchedSeqMember(s, ds[1..], owner, x);
      m := m' + 1;
    }
  }

  // ---------------------------------------------------------------------------------------
  // The ownership forest

  /** Every object strictly under `r` was registered by an object under `r`. */
  lemma {:induction false} DescParent(s: Store, r: Ref, x: Ref) returns (p: Ref, k: nat)
    requires WellFormed(s) && r < |s|
    requires x in Desc(s, r) && x != r
    ensures p in Desc(s, r) && k < |s[p].dependencies| && s[p].dependencies[k] == x
    decreases |s| - r
  {
    var m := DescSeqMember(s, s[r].dependencies, r, x);
    var c := s[r].dependencies[m];
    DescSeqContains(s, s[r].dependencies, r, m);
    if x == c {
      p, k := r, m;
    } else {
      p, k := DescParent(s, c, x);
    }
  }

  /** A touched object other than `r` was registered by a touched object that lost its last
      reference. */
  lemma {:induction false} TouchedParent(s: Store, r: Ref, x: Ref) returns (p: Ref, k: nat)
    requires WellFormed(s) && r < |s|
    requires x in Touched(s, r) && x != r
    ensures p in Touched(s, r) && s[p].refCount == 1
    ensures k < |s[p].dependencies| && s[p].dependencies[k] == x
    decreases |s| - r
  {
    var m := TouchedSeqMember(s, s[r].dependencies, r, x);
    var c := s[r].dependencies[m];
    DescSeqContains(s, s[r].dependencies, r, m);
    if x == c {
      p, k := r, m;
    } else {
      p, k := TouchedParent(s, c, x);
    }
  }

  /** The touched set is closed under the dependencies of every object that dies. */
  lemma {:induction false} TouchedClosed(s: Store, r: Ref, x: Ref, k: nat)
    requires WellFormed(s) && r < |s|
    requires x in Touched(s, r) && s[x].refCount == 1 && k < |s[x].dependencies|
    ensures s[x].dependencies[k] in Touched(s, r)
    decreases |s| - r
  {
    if x == r {
      DescSeqContains(s, s[r].dependencies, r, k);
    } else {
      var m := TouchedSeqMember(s, s[r].dependencies, r, x);
      DescSeqContains(s, s[r].dependencies, r, m);
      TouchedClosed(s, s[r].dependencies[m], x, k);
    }
  }

  lemma {:induction false} NotShared(s: Store, a: Ref, b: Ref, x: Ref)
    requires Valid(s) && a < |s| && b < |s|
    requires a !in Desc(s, b) && b !in Desc(s, a)
    ensures !(x in Desc(s, a) && x in Desc(s, b))
    decreases x
  {
    if x in Desc(s, a) && x in Desc(s, b) {
      var p1, k1 := DescParent(s, a, x);
      var p2, k2 := DescParent(s, b, x);
      assert SameDependency(s, p1, k1, p2, k2);
      NotShared(s, a, b, p1);
    }
  }

  /** Two objects neither of which lies under the other have disjoint subtrees. */
  lemma DescDisjoint(s: Store, a: Ref, b: Ref)
    requires Valid(s) && a < |s| && b < |s|
    requires a !in Desc(s, b) && b !in Desc(s, a)
    ensures Desc(s, a) !! Desc(s, b)
  {
    forall x | x in Desc(s, a)
      ensures x !in Desc(s, b)
    {
      NotShared(s, a, b, x);
    }
  }

  /** Two different dependencies of one owner have disjoint subtrees. */
  lemma SiblingsDisjoint(s: Store, p: Ref, k: nat, l: nat)
    requires Valid(s) && p < |s|
    requires k < |s[p].dependencies| && l < |s[p].dependencies| && k != l
    ensures Desc(s, s[p].dependencies[k]) !! Desc(s, s[p].dependencies[l])
  {
    var a, b := s[p].dependencies[k], s[p].dependencies[l];
    assert SameDependency(s, p, k, p, l) ==> k == l;
    if a in Desc(s, b) {
      var q, m := DescParent(s, b, a);
      assert SameDependency(s, q, m, p, k);
    }
    if b in Desc(s, a) {
      var q, m := DescParent(s, a, b);
      assert SameDependency(s, q, m, p, l);
    }
    DescDisjoint(s, a, b);
  }

  /** Two stores that agree under `r` have the same subtree and touched set at `r`. */
  lemma {:induction false} DescFrame(s: Store, t: Store, r: Ref)
    requires WellFormed(s) && WellFormed(t) && r < |s| && |s| == |t|
    requires Agree(s, t, Desc(s, r))
    ensures Desc(t, r) == Desc(s, r) && Touched(t, r) == Touched(s, r)
    decreases |s| - r, 1
  {
    DescSeqFrame(s, t, s[r].dependencies, r);
  }

  lemma {:induction false} DescSeqFrame(s: Store, t: Store, ds: seq<Ref>, owner: Ref)
    requires WellFormed(s) && WellFormed(t) && owner < |s| && |s| == |t|
    requires forall k | 0 <= k < |ds| :: owner < ds[k] < |s|
    requires Agree(s, t, DescSeq(s, ds, owner))
    ensures DescSeq(t, ds, owner) == DescSeq(s, ds, owner)
    ensures TouchedSeq(t, ds, owner) == TouchedSeq(s, ds, owner)
    decreases |s| - owner, 0, |ds|
  {
    if ds != [] {
      DescFrame(s, t, ds[0]);
      DescSeqFrame(s, t, ds[1..], owner);
    }
  }

  /** Changing nothing but clearing dependency lists and lowering counts in step keeps the
      shape of the store. */
  lemma ClearingKeepsValid(s: Store, t: Store)
    requires Valid(s) && |t| == |s| && WellFormed(t) && Synced(t)
    requires forall i | 0 <= i < |s| ::
      t[i].native == s[i].native && (t[i].dependencies == s[i].dependencies || t[i].dependencies == [])
    ensures Valid(t)
  {
    forall i, k, j, l |
      0 <= i < |t| && 0 <= k < |t[i].dependencies| && 0 <= j < |t| && 0 <= l < |t[j].dependencies| &&
      SameDependency(t, i, k, j, l)
      ensures i == j && k == l
    {
      assert t[i].dependencies == s[i].dependencies && t[j].dependencies == s[j].dependencies;
      assert SameDependency(s, i, k, j, l);
    }
    forall i, k | 0 <= i < |t| && 0 <= k < |t[i].dependencies| && t[i].dependencies[k] < |t|
      ensures !t[t[i].dependencies[k]].native.FileNative?
    {
      assert t[i].dependencies == s[i].dependencies;
    }
  }

  // ---------------------------------------------------------------------------------------
  // The exact effect of a release

  /** A release that reaches only live objects does not throw, takes one reference from each
      touched object and leaves every other object as it was. */
  lemma {:induction false} ReleaseExact(s: Store, r: Ref)
    requires Valid(s) && r < |s| && LiveTree(s, r)
    ensures ReleaseSpec(s, r).outcome == Pass
    ensures forall x | 0 <= x < |s| ::
      ReleaseSpec(s, r).store[x] == if x in Touched(s, r) then Dec(s[x]) else s[x]
    decreases |s| - r, 2
  {
    if s[r].refCount == 1 {
      ReleaseLastExact(s, r);
    }
  }

  /** The case where `r` loses its last reference: its dependencies are released in turn. */
  lemma {:induction false} ReleaseLastExact(s: Store, r: Ref)
    requires Valid(s) && r < |s| && LiveTree(s, r) && s[r].refCount == 1
    ensures ReleaseSpec(s, r).outcome == Pass
    ensures forall x | 0 <= x < |s| ::
      ReleaseSpec(s, r).store[x] == if x in Touched(s, r) then Dec(s[x]) else s[x]
    decreases |s| - r, 1
  {
    var o := s[r];
    var ds := o.dependencies;
    var freed := s[r := o.(refCount := 0, hasCppObject := false)];
    FreedOwnerKeepsSubtrees(s, r);
    ReleaseDepsExact(freed, ds, r);
    DescSeqFrame(s, freed, ds, r);
    var st := ReleaseDeps(freed, ds, r);
    var result := st.store[r := st.store[r].(dependencies := [])];
    assert ReleaseSpec(s, r) == Step(Pass, result);
    assert Touched(s, r) == {r} + TouchedSeq(freed, ds, r);
    forall x | 0 <= x < |s|
      ensures result[x] == if x in Touched(s, r) then Dec(s[x]) else s[x]
    {
      if x == r {
        assert r !in TouchedSeq(freed, ds, r);
      }
    }
  }

  /** Marking `r` freed leaves the subtrees of its dependencies as they were: live and
      pairwise disjoint. */
  lemma FreedOwnerKeepsSubtrees(s: Store, r: Ref)
    requires Valid(s) && r < |s| && LiveTree(s, r) && s[r].refCount == 1
    ensures Valid(s[r := s[r].(refCount := 0, hasCppObject := false)])
    ensures forall k | 0 <= k < |s[r].dependencies| ::
      LiveTree(s[r := s[r].(refCount := 0, hasCppObject := false)], s[r].dependencies[k])
    ensures forall k, l | 0 <= k < |s[r].dependencies| && 0 <= l < |s[r].dependencies| && k != l ::
      Desc(s[r := s[r].(refCount := 0, hasCppObject := false)], s[r].dependencies[k]) !!
      Desc(s[r := s[r].(refCount := 0, hasCppObject := false)], s[r].dependencies[l])
  {
    var ds := s[r].dependencies;
    var freed := s[r := s[r].(refCount := 0, hasCppObject := false)];
    ClearingKeepsValid(s, freed);
    forall k | 0 <= k < |ds|
      ensures Desc(freed, ds[k]) == Desc(s, ds[k]) && LiveTree(freed, ds[k])
    {
      DescSeqContains(s, ds, r, k);
      DescFrame(s, freed, ds[k]);
    }
    forall k, l | 0 <= k < |ds| && 0 <= l < |ds| && k != l
      ensures Desc(freed, ds[k]) !! Desc(freed, ds[l])
    {
      SiblingsDisjoint(s, r, k, l);
    }
  }

  lemma {:induction false} ReleaseDepsExact(s: Store, ds: seq<Ref>, owner: Ref)
    requires Valid(s) && owner < |s|
    requires forall k | 0 <= k < |ds| :: owner < ds[k] < |s| && LiveTree(s, ds[k])
    requires forall k, l | 0 <= k < |ds| && 0 <= l < |ds| && k != l :: Desc(s, ds[k]) !! Desc(s, ds[l])
    ensures ReleaseDeps(s, ds, owner).outcome == Pass
    ensures forall x | 0 <= x < |s| ::
      ReleaseDeps(s, ds, owner).store[x] == if x in TouchedSeq(s, ds, owner) then Dec(s[x]) else s[x]
    decreases |s| - owner, 0, |ds|
  {
    if ds != [] {
      ReleaseExact(s, ds[0]);
      var s2 := ReleaseSpec(s, ds[0]).store;
      var rest := ds[1..];
      ClearingKeepsValid(s, s2);
      forall k | 0 <= k < |rest|
        ensures Desc(s2, rest[k]) == Desc(s, rest[k]) && Touched(s2, rest[k]) == Touched(s, rest[k])
        ensures LiveTree(s2, rest[k])
      {
        assert Desc(s, ds[0]) !! Desc(s, ds[k + 1]);
        DescFrame(s, s2, rest[k]);
      }
      assert Agree(s, s2, DescSeq(s, rest, owner)) by {
        forall x | x in DescSeq(s, rest, owner)
          ensures x < |s| && x < |s2| && s[x] == s2[x]
        {
          var m := DescSeqMember(s, rest, owner, x);
          assert Desc(s, ds[0]) !! Desc(s, ds[m + 1]);
        }
      }
      DescSeqFrame(s, s2, rest, owner);
      ReleaseDepsExact(s2, rest, owner);
      forall x | x in TouchedSeq(s, rest, owner)
        ensures x !in Touched(s, ds[0])
      {
        var m := TouchedSeqMember(s, rest, owner, x);
        assert Desc(s, ds[0]) !! Desc(s, ds[m + 1]);
      }
    }
  }
}

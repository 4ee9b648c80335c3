/**
 * `assignConfigDependents`: items that already have an owner pull their
 * unowned dependents into the same package. Ownership is read from a copy
 * of the collection taken when the call starts, so an item that gains an
 * owner during the call does not pass it on: the propagation is one hop.
 */
module DependentAssignment {
  import opened PhpArrays
  import opened Records
  import opened Assignment

  /** An item that had an owner in the snapshot. */
  predicate Owned(snap: Dict<ConfigItem>, n: string) {
    n in snap.vals && !Unset(snap.vals[n].package)
  }

  /** Every owner named in the snapshot is an existing package. */
  ghost predicate OwnersExist(snap: Dict<ConfigItem>, packages: Dict<Package>) {
    forall n :: Owned(snap, n) ==> snap.vals[n].package.value in packages.vals
  }

  /** The items the registry holds include every item of the snapshot. */
  ghost predicate Covers(r: Registry, snap: Dict<ConfigItem>) {
    forall k :: k in snap.vals ==> k in r.items.vals
  }

  /**
   * The inner loop for one owned item: each dependent that is present and
   * unowned in the snapshot is passed to `assignConfigPackage` with the
   * owner's package.
   */
  function PropagateFrom(r: Registry, snap: Dict<ConfigItem>, owner: string, deps: seq<string>): (r': Registry)
    requires Ready(r) && owner in r.packages.vals && Covers(r, snap)
    ensures Ready(r') && r'.items.keys == r.items.keys && r'.packages.keys == r.packages.keys
    decreases |deps|
  {
    if deps == [] then r
    else
      var r0 := PropagateFrom(r, snap, owner, deps[..|deps| - 1]);
      var d := deps[|deps| - 1];
      if d in snap.vals && Unset(snap.vals[d].package) then Assign(r0, owner, [d]) else r0
  }

  /** The outer loop over the requested item names; items unowned in the snapshot are skipped. */
  function PropagateLoop(r: Registry, snap: Dict<ConfigItem>, names: seq<string>): (r': Registry)
    requires Ready(r) && Covers(r, snap) && OwnersExist(snap, r.packages)
    ensures Ready(r') && r'.items.keys == r.items.keys && r'.packages.keys == r.packages.keys
    decreases |names|
  {
    if names == [] then r
    else
      var r0 := PropagateLoop(r, snap, names[..|names| - 1]);
      var n := names[|names| - 1];
      if Owned(snap, n) then PropagateFrom(r0, snap, snap.vals[n].package.value, snap.vals[n].dependents) else r0
  }

  /** The `j`-th pass of the inner loop looks at the `j`-th dependent. */
  lemma PropagateFromPrefixStep(r: Registry, snap: Dict<ConfigItem>, owner: string, deps: seq<string>, j: nat)
    requires Ready(r) && owner in r.packages.vals && Covers(r, snap) && j < |deps|
    ensures var r0 := PropagateFrom(r, snap, owner, deps[..j]);
      owner in r0.packages.vals && (deps[j] in snap.vals ==> deps[j] in r0.items.vals) &&
      PropagateFrom(r, snap, owner, deps[..j + 1]) ==
        if deps[j] in snap.vals && Unset(snap.vals[deps[j]].package) then Assign(r0, owner, [deps[j]]) else r0
  {
    assert deps[..j + 1][..j] == deps[..j];
  }

  /** The `i`-th pass of the outer loop handles the `i`-th name. */
  lemma PropagateLoopPrefixStep(r: Registry, snap: Dict<ConfigItem>, names: seq<string>, i: nat)
    requires Ready(r) && Covers(r, snap) && OwnersExist(snap, r.packages) && i < |names|
    ensures var r0 := PropagateLoop(r, snap, names[..i]);
      PropagateLoop(r, snap, names[..i + 1]) ==
        if Owned(snap, names[i]) then PropagateFrom(r0, snap, snap.vals[names[i]].package.value, snap.vals[names[i]].dependents) else r0
  {
    assert names[..i + 1][..i] == names[..i];
  }

  /** The names the loop visits: those given, or every key in collection order when none are. */
  function Visited(r: Registry, names: seq<string>): seq<string> {
    if names == [] then r.items.keys else names
  }

  /** `assignConfigDependents(names)`; an empty list stands for both `[]` and `NULL`. */
  function AssignDependents(r: Registry, names: seq<string>): (r': Registry)
    requires Ready(r) && OwnersExist(r.items, r.packages)
    ensures Ready(r') && r'.items.keys == r.items.keys && r'.packages.keys == r.packages.keys
  {
    PropagateLoop(r, r.items, Visited(r, names))
  }

  /** Item `n` was owned in the snapshot and lists `d` among its dependents. */
  predicate Feeds(snap: Dict<ConfigItem>, n: string, d: string) {
    Owned(snap, n) && d in snap.vals[n].dependents
  }

  /** The first visited name that feeds `d`. */
  function FirstSource(snap: Dict<ConfigItem>, names: seq<string>, d: string): (s: Option<string>)
    ensures s.None? <==> forall n :: n in names ==> !Feeds(snap, n, d)
    ensures s.Some? ==> s.value in names && Feeds(snap, s.value, d)
  {
    if names == [] then None
    else if Feeds(snap, names[0], d) then Some(names[0])
    else
      assert names == [names[0]] + names[1..];
      FirstSource(snap, names[1..], d)
  }

  lemma {:induction false} FirstSourceSnoc(snap: Dict<ConfigItem>, names: seq<string>, n: string, d: string)
    ensures FirstSource(snap, names + [n], d) ==
      if FirstSource(snap, names, d).Some? then FirstSource(snap, names, d)
      else if Feeds(snap, n, d) then Some(n) else None
  {
    if names != [] {
      assert (names + [n])[0] == names[0];
      assert (names + [n])[1..] == names[1..] + [n];
      FirstSourceSnoc(snap, names[1..], n, d);
    } else {
      assert [n][1..] == [];
    }
  }

  lemma {:induction false} PropagateFromConsistent(r: Registry, snap: Dict<ConfigItem>, owner: string, deps: seq<string>)
    requires Consistent(r) && owner in r.packages.vals && Covers(r, snap)
    ensures Consistent(PropagateFrom(r, snap, owner, deps))
    decreases |deps|
  {
    if deps != [] {
      var r0 := PropagateFrom(r, snap, owner, deps[..|deps| - 1]);
      var d := deps[|deps| - 1];
      PropagateFromConsistent(r, snap, owner, deps[..|deps| - 1]);
      if d in snap.vals && Unset(snap.vals[d].package) {
        AssignOne(r0, owner, d);
        AssignItemConsistent(r0, owner, d);
      }
    }
  }

  /** One owned item hands its package to each of its dependents unowned both in the snapshot and now. */
  lemma {:induction false} PropagateFromOwner(r: Registry, snap: Dict<ConfigItem>, owner: string, deps: seq<string>, k: string)
    requires Consistent(r) && owner in r.packages.vals && Covers(r, snap) && k in r.items.vals
    ensures PropagateFrom(r, snap, owner, deps).items.vals[k].package ==
      if k in deps && k in snap.vals && Unset(snap.vals[k].package) && Unset(r.items.vals[k].package)
      then Some(owner) else r.items.vals[k].package
    decreases |deps|
  {
    if deps != [] {
      var p := deps[..|deps| - 1];
      var d := deps[|deps| - 1];
      var r0 := PropagateFrom(r, snap, owner, p);
      PropagateFromOwner(r, snap, owner, p, k);
      assert k in deps <==> k in p || k == d;
      if d in snap.vals && Unset(snap.vals[d].package) {
        PropagateFromConsistent(r, snap, owner, p);
        AssignOne(r0, owner, d);
        AssignItemOwner(r0, owner, d, k);
      } else {
        assert PropagateFrom(r, snap, owner, deps) == r0;
      }
    }
  }

  lemma {:induction false} PropagateLoopConsistent(r: Registry, snap: Dict<ConfigItem>, names: seq<string>)
    requires Consistent(r) && Covers(r, snap) && OwnersExist(snap, r.packages)
    ensures Consistent(PropagateLoop(r, snap, names))
    decreases |names|
  {
    if names != [] {
      var r0 := PropagateLoop(r, snap, names[..|names| - 1]);
      var n := names[|names| - 1];
      PropagateLoopConsistent(r, snap, names[..|names| - 1]);
      if Owned(snap, n) {
        PropagateFromConsistent(r0, snap, snap.vals[n].package.value, snap.vals[n].dependents);
      }
    }
  }

  lemma {:induction false} PropagateLoopOwner(r: Registry, snap: Dict<ConfigItem>, names: seq<string>, k: string)
    requires Consistent(r) && snap == r.items && k in r.items.vals
    ensures PropagateLoop(r, snap, names).items.vals[k].package ==
      if Unset(r.items.vals[k].package) && FirstSource(snap, names, k).Some?
      then snap.vals[FirstSource(snap, names, k).value].package else r.items.vals[k].package
    decreases |names|
  {
    if names != [] {
      var p := names[..|names| - 1];
      var n := names[|names| - 1];
      var r0 := PropagateLoop(r, snap, p);
      PropagateLoopOwner(r, snap, p, k);
      assert names == p + [n];
      FirstSourceSnoc(snap, p, n, k);
      if Owned(snap, n) {
        PropagateLoopConsistent(r, snap, p);
        PropagateFromOwner(r0, snap, snap.vals[n].package.value, snap.vals[n].dependents, k);
      } else {
        assert PropagateLoop(r, snap, names) == r0;
      }
    }
  }

  /**
   * On a consistent registry `assignConfigDependents(names)` keeps the
   * registry consistent, and an unowned item goes to the package of the
   * first visited item that was owned when the call began and lists it as
   * a dependent; every other item keeps its owner.
   */
  lemma DependentsOwner(r: Registry, names: seq<string>, k: string)
    requires Consistent(r) && k in r.items.vals
    ensures Consistent(AssignDependents(r, names))
    ensures AssignDependents(r, names).items.vals[k] ==
      r.items.vals[k].(package :=
        if Unset(r.items.vals[k].package) && FirstSource(r.items, Visited(r, names), k).Some?
        then r.items.vals[FirstSource(r.items, Visited(r, names), k).value].package else r.items.vals[k].package)
    ensures forall q :: q in r.packages.vals ==>
      var p' := AssignDependents(r, names).packages.vals[q];
      p' == r.packages.vals[q].(config := p'.config, dependencies := p'.dependencies)
  {
    PropagateLoopConsistent(r, r.items, Visited(r, names));
    PropagateLoopOwner(r, r.items, Visited(r, names), k);
    PropagateLoopOwnershipOnly(r, r.items, Visited(r, names));
  }

  /** One owner's inner loop keeps every package's dependencies those of its items. */
  lemma {:induction false} PropagateFromDependencies(r: Registry, snap: Dict<ConfigItem>, owner: string, deps: seq<string>)
    requires Consistent(r) && DependenciesFromItems(r) && owner in r.packages.vals && Covers(r, snap)
    ensures DependenciesFromItems(PropagateFrom(r, snap, owner, deps))
    decreases |deps|
  {
    if deps != [] {
      var r0 := PropagateFrom(r, snap, owner, deps[..|deps| - 1]);
      var d := deps[|deps| - 1];
      PropagateFromDependencies(r, snap, owner, deps[..|deps| - 1]);
      if d in snap.vals && Unset(snap.vals[d].package) {
        PropagateFromConsistent(r, snap, owner, deps[..|deps| - 1]);
        AssignOne(r0, owner, d);
        AssignItemDependenciesFromItems(r0, owner, d);
      }
    }
  }

  /** The outer loop keeps every package's dependencies those of its items. */
  lemma {:induction false} PropagateLoopDependencies(r: Registry, snap: Dict<ConfigItem>, names: seq<string>)
    requires Consistent(r) && DependenciesFromItems(r) && Covers(r, snap) && OwnersExist(snap, r.packages)
    ensures DependenciesFromItems(PropagateLoop(r, snap, names))
    decreases |names|
  {
    if names != [] {
      var r0 := PropagateLoop(r, snap, names[..|names| - 1]);
      var n := names[|names| - 1];
      PropagateLoopDependencies(r, snap, names[..|names| - 1]);
      if Owned(snap, n) {
        PropagateLoopConsistent(r, snap, names[..|names| - 1]);
        PropagateFromDependencies(r0, snap, snap.vals[n].package.value, snap.vals[n].dependents);
      }
    }
  }

  /**
   * After `assignConfigDependents` every package's dependencies are still
   * exactly the module dependencies of the items it lists, which
   * `DependentsOwner` determines.
   */
  lemma DependentsDependencies(r: Registry, names: seq<string>)
    requires Consistent(r) && DependenciesFromItems(r)
    ensures DependenciesFromItems(AssignDependents(r, names))
  {
    PropagateLoopDependencies(r, r.items, Visited(r, names));
  }

  /** The inner loop changes nothing but ownership. */
  lemma {:induction false} PropagateFromOwnershipOnly(r: Registry, snap: Dict<ConfigItem>, owner: string, deps: seq<string>)
    requires Ready(r) && owner in r.packages.vals && Covers(r, snap)
    ensures OwnershipOnly(r, PropagateFrom(r, snap, owner, deps))
    decreases |deps|
  {
    if deps != [] {
      var r0 := PropagateFrom(r, snap, owner, deps[..|deps| - 1]);
      var d := deps[|deps| - 1];
      PropagateFromOwnershipOnly(r, snap, owner, deps[..|deps| - 1]);
      if d in snap.vals && Unset(snap.vals[d].package) {
        AssignOne(r0, owner, d);
        AssignItemOwnershipOnly(r0, owner, d);
        OwnershipOnlyTrans(r, r0, PropagateFrom(r, snap, owner, deps));
      }
    }
  }

  /** The outer loop changes nothing but ownership. */
  lemma {:induction false} PropagateLoopOwnershipOnly(r: Registry, snap: Dict<ConfigItem>, names: seq<string>)
    requires Ready(r) && Covers(r, snap) && OwnersExist(snap, r.packages)
    ensures OwnershipOnly(r, PropagateLoop(r, snap, names))
    decreases |names|
  {
    if names != [] {
      var r0 := PropagateLoop(r, snap, names[..|names| - 1]);
      var n := names[|names| - 1];
      PropagateLoopOwnershipOnly(r, snap, names[..|names| - 1]);
      if Owned(snap, n) {
        PropagateFromOwnershipOnly(r0, snap, snap.vals[n].package.value, snap.vals[n].dependents);
        OwnershipOnlyTrans(r, r0, PropagateLoop(r, snap, names));
      }
    }
  }

  /**
   * One hop only: an unowned item none of whose visited sources was owned
   * when the call began stays unowned, even when one of those sources is
   * given an owner during the same call.
   */
  lemma OneHop(r: Registry, names: seq<string>, k: string)
    requires Consistent(r) && k in r.items.vals && Unset(r.items.vals[k].package)
    requires forall n :: n in Visited(r, names) && n in r.items.vals && k in r.items.vals[n].dependents ==>
      Unset(r.items.vals[n].package)
    ensures AssignDependents(r, names).items.vals[k].package == r.items.vals[k].package
  {
    DependentsOwner(r, names, k);
  }

  /**
   * The situation of the dependency test: an item owned by `pkg` lists an
   * unowned dependent, and `assignConfigDependents()` with no names puts
   * the dependent into `pkg` as well.
   */
  lemma DependentJoinsOwner(r: Registry, pkg: string, a: string, b: string)
    requires Consistent(r) && a in r.items.vals && b in r.items.vals
    requires r.items.vals[a].package == Some(pkg) && !PhpEmpty(pkg) && b in r.items.vals[a].dependents
    requires Unset(r.items.vals[b].package)
    requires forall n :: n in r.items.vals && b in r.items.vals[n].dependents ==> n == a
    ensures b in AssignDependents(r, []).packages.vals[pkg].config
  {
    DependentsOwner(r, [], b);
    var s := FirstSource(r.items, r.items.keys, b);
    assert a in r.items.keys && Feeds(r.items, a, b);
    assert s == Some(a);
  }
}

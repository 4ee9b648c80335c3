/**
 * `assignConfigPackage`: the one primitive every assignment rule goes
 * through. An item joins a package only when it has no owner yet and is
 * not already listed; joining marks the item, appends its name to the
 * package's `config` and folds its module dependencies into the package's
 * `dependencies`.
 */
module Assignment {
  import opened PhpArrays
  import opened Records

  /** The two maps the assignment engine works on. */
  datatype Registry = Registry(items: Dict<ConfigItem>, packages: Dict<Package>)

  ghost predicate Ready(r: Registry) {
    r.items.Valid() && r.packages.Valid()
  }

  /**
   * The state assignment keeps: package names are not empty in PHP's sense,
   * each package lists an item at most once and has no duplicate dependency,
   * and an item is listed by package `p` exactly when its owner is `p`.
   */
  ghost predicate Consistent(r: Registry) {
    Ready(r) && PackagesSound(r) && ListedOwned(r) && OwnedListed(r)
  }

  /** Package names are not empty and lists hold no duplicates. */
  ghost predicate PackagesSound(r: Registry) {
    forall p :: p in r.packages.vals ==>
      !PhpEmpty(p) && Distinct(r.packages.vals[p].config) && Distinct(r.packages.vals[p].dependencies)
  }

  /** Every listed item exists and is owned by the package listing it. */
  ghost predicate ListedOwned(r: Registry) {
    forall p, n :: p in r.packages.vals && n in r.packages.vals[p].config ==>
      n in r.items.vals && r.items.vals[n].package == Some(p)
  }

  /** Every owned item names an existing package that lists it. */
  ghost predicate OwnedListed(r: Registry) {
    forall n :: n in r.items.vals && !Unset(r.items.vals[n].package) ==>
      r.items.vals[n].package.value in r.packages.vals &&
      n in r.packages.vals[r.items.vals[n].package.value].config
  }

  /** The module dependencies an item brings along; none when the key is unset. */
  function ModuleDependencies(item: ConfigItem): seq<string> {
    if item.data.moduleDependencies.Some? then item.data.moduleDependencies.value else []
  }

  /** One iteration of the loop in `assignConfigPackage`. */
  function AssignItem(r: Registry, pkg: string, n: string): (r': Registry)
    requires Ready(r) && pkg in r.packages.vals && n in r.items.vals
    ensures Ready(r') && r'.items.keys == r.items.keys && r'.packages.keys == r.packages.keys
  {
    var item := r.items.vals[n];
    var p := r.packages.vals[pkg];
    if Unset(item.package) && n !in p.config then
      var deps := if item.data.moduleDependencies.Some? then Unique(p.dependencies + item.data.moduleDependencies.value) else p.dependencies;
      Registry(r.items.Put(n, item.(package := Some(pkg))), r.packages.Put(pkg, p.(config := p.config + [n], dependencies := deps)))
    else r
  }

  /** `assignConfigPackage(pkg, names)`: the items in the order given. */
  function Assign(r: Registry, pkg: string, names: seq<string>): (r': Registry)
    requires Ready(r) && pkg in r.packages.vals && forall n :: n in names ==> n in r.items.vals
    ensures Ready(r') && r'.items.keys == r.items.keys && r'.packages.keys == r.packages.keys
    decreases |names|
  {
    if names == [] then r
    else AssignItem(Assign(r, pkg, names[..|names| - 1]), pkg, names[|names| - 1])
  }

  /** `assignConfigPackage(pkg, [n])` is one step. */
  lemma AssignOne(r: Registry, pkg: string, n: string)
    requires Ready(r) && pkg in r.packages.vals && n in r.items.vals
    ensures Assign(r, pkg, [n]) == AssignItem(r, pkg, n)
  {
    assert [n][..0] == [];
  }

  /** The `i`-th pass of the loop in `assignConfigPackage` assigns the `i`-th name. */
  lemma AssignPrefixStep(r: Registry, pkg: string, names: seq<string>, i: nat)
    requires Ready(r) && pkg in r.packages.vals && forall n :: n in names ==> n in r.items.vals
    requires i < |names|
    ensures names[i] in Assign(r, pkg, names[..i]).items.vals && pkg in Assign(r, pkg, names[..i]).packages.vals
    ensures Assign(r, pkg, names[..i + 1]) == AssignItem(Assign(r, pkg, names[..i]), pkg, names[i])
  {
    assert names[..i + 1][..i] == names[..i];
  }

  /** An item that is owned or already listed by `pkg`: assigning it to `pkg` does nothing. */
  ghost predicate Settled(r: Registry, pkg: string, n: string)
    requires Ready(r) && pkg in r.packages.vals && n in r.items.vals
  {
    !Unset(r.items.vals[n].package) || n in r.packages.vals[pkg].config
  }

  /**
   * On a consistent registry the guard is exactly "the item has no owner":
   * such an item is taken by `pkg`, which lists it last, and the package's
   * dependencies become the duplicate-free union of the old ones (kept in
   * front) and the item's module dependencies; an owned item is left alone.
   */
  lemma AssignItemEffect(r: Registry, pkg: string, n: string)
    requires Consistent(r) && pkg in r.packages.vals && n in r.items.vals
    ensures var r' := AssignItem(r, pkg, n);
      Unset(r.items.vals[n].package) ==>
        r'.items.vals[n] == r.items.vals[n].(package := Some(pkg)) &&
        r'.packages.vals[pkg].config == r.packages.vals[pkg].config + [n] &&
        r'.packages.vals[pkg] == r.packages.vals[pkg].(config := r'.packages.vals[pkg].config, dependencies := r'.packages.vals[pkg].dependencies)
    ensures var r' := AssignItem(r, pkg, n);
      Unset(r.items.vals[n].package) ==>
        Distinct(r'.packages.vals[pkg].dependencies) &&
        |r.packages.vals[pkg].dependencies| <= |r'.packages.vals[pkg].dependencies| &&
        r'.packages.vals[pkg].dependencies[..|r.packages.vals[pkg].dependencies|] == r.packages.vals[pkg].dependencies &&
        forall x :: x in r'.packages.vals[pkg].dependencies <==>
          x in r.packages.vals[pkg].dependencies || x in ModuleDependencies(r.items.vals[n])
    ensures !Unset(r.items.vals[n].package) ==> AssignItem(r, pkg, n) == r
  {
    var p := r.packages.vals[pkg];
    var item := r.items.vals[n];
    if Unset(item.package) {
      if n in p.config {
        assert false;
      }
      if item.data.moduleDependencies.Some? {
        UniqueKeepsDistinctPrefix(p.dependencies, item.data.moduleDependencies.value);
      } else {
        assert p.dependencies[..|p.dependencies|] == p.dependencies;
      }
    }
  }

  /** Only the item being assigned and the target package can change. */
  lemma AssignItemFrame(r: Registry, pkg: string, n: string)
    requires Ready(r) && pkg in r.packages.vals && n in r.items.vals
    ensures forall k :: k in r.items.vals && k != n ==> AssignItem(r, pkg, n).items.vals[k] == r.items.vals[k]
    ensures forall q :: q in r.packages.vals && q != pkg ==> AssignItem(r, pkg, n).packages.vals[q] == r.packages.vals[q]
    ensures AssignItem(r, pkg, n).items.vals[n].package in {r.items.vals[n].package, Some(pkg)}
    ensures AssignItem(r, pkg, n).items.vals[n] == r.items.vals[n].(package := AssignItem(r, pkg, n).items.vals[n].package)
    ensures var p' := AssignItem(r, pkg, n).packages.vals[pkg];
      p' == r.packages.vals[pkg].(config := p'.config, dependencies := p'.dependencies)
  {
  }

  /**
   * `r'` differs from `r` at most in the owners of items and in the item
   * lists and dependencies of packages: no key is added or removed and every
   * other field of every item and package is as it was.
   */
  ghost predicate OwnershipOnly(r: Registry, r': Registry) {
    Ready(r) && Ready(r') && r'.items.keys == r.items.keys && r'.packages.keys == r.packages.keys &&
    (forall k :: k in r.items.vals ==>
      k in r'.items.vals && r'.items.vals[k] == r.items.vals[k].(package := r'.items.vals[k].package)) &&
    (forall q :: q in r.packages.vals ==>
      q in r'.packages.vals &&
      r'.packages.vals[q] == r.packages.vals[q].(config := r'.packages.vals[q].config, dependencies := r'.packages.vals[q].dependencies))
  }

  lemma OwnershipOnlyTrans(a: Registry, b: Registry, c: Registry)
    requires OwnershipOnly(a, b) && OwnershipOnly(b, c)
    ensures OwnershipOnly(a, c)
  {
  }

  /** One step changes nothing but ownership. */
  lemma AssignItemOwnershipOnly(r: Registry, pkg: string, n: string)
    requires Ready(r) && pkg in r.packages.vals && n in r.items.vals
    ensures OwnershipOnly(r, AssignItem(r, pkg, n))
  {
    AssignItemFrame(r, pkg, n);
  }

  /** The owner of any item after one step on a consistent registry. */
  lemma AssignItemOwner(r: Registry, pkg: string, n: string, k: string)
    requires Consistent(r) && pkg in r.packages.vals && n in r.items.vals && k in r.items.vals
    ensures AssignItem(r, pkg, n).items.vals[k].package ==
      if k == n && Unset(r.items.vals[n].package) then Some(pkg) else r.items.vals[k].package
  {
    if Unset(r.items.vals[n].package) {
      assert n !in r.packages.vals[pkg].config;
    }
  }

  /** A single step keeps the registry consistent when the target's name is not empty. */
  lemma AssignItemConsistent(r: Registry, pkg: string, n: string)
    requires Consistent(r) && pkg in r.packages.vals && n in r.items.vals
    ensures Consistent(AssignItem(r, pkg, n))
  {
    if Unset(r.items.vals[n].package) {
      AssignItemPackagesSound(r, pkg, n);
      AssignItemListedOwned(r, pkg, n);
      AssignItemOwnedListed(r, pkg, n);
    } else {
      AssignItemEffect(r, pkg, n);
    }
  }

  lemma AssignItemPackagesSound(r: Registry, pkg: string, n: string)
    requires Consistent(r) && pkg in r.packages.vals && n in r.items.vals && Unset(r.items.vals[n].package)
    ensures PackagesSound(AssignItem(r, pkg, n))
  {
    var r' := AssignItem(r, pkg, n);
    AssignItemEffect(r, pkg, n);
    AssignItemFrame(r, pkg, n);
    assert n !in r.packages.vals[pkg].config;
    forall p | p in r'.packages.vals
      ensures !PhpEmpty(p) && Distinct(r'.packages.vals[p].config) && Distinct(r'.packages.vals[p].dependencies)
    {
      assert p in r.packages.vals;
    }
  }

  lemma AssignItemListedOwned(r: Registry, pkg: string, n: string)
    requires Consistent(r) && pkg in r.packages.vals && n in r.items.vals && Unset(r.items.vals[n].package)
    ensures ListedOwned(AssignItem(r, pkg, n))
  {
    var r' := AssignItem(r, pkg, n);
    forall q, m | q in r'.packages.vals && m in r'.packages.vals[q].config
      ensures m in r'.items.vals && r'.items.vals[m].package == Some(q)
    {
      AssignItemListedOwnedAt(r, pkg, n, q, m);
    }
  }

  lemma AssignItemListedOwnedAt(r: Registry, pkg: string, n: string, q: string, m: string)
    requires Consistent(r) && pkg in r.packages.vals && n in r.items.vals && Unset(r.items.vals[n].package)
    requires q in AssignItem(r, pkg, n).packages.vals && m in AssignItem(r, pkg, n).packages.vals[q].config
    ensures m in AssignItem(r, pkg, n).items.vals && AssignItem(r, pkg, n).items.vals[m].package == Some(q)
  {
    AssignItemEffect(r, pkg, n);
    AssignItemFrame(r, pkg, n);
    if q == pkg {
      if m != n {
        assert m in r.packages.vals[pkg].config;
      }
    } else {
      assert m in r.packages.vals[q].config;
      assert m != n;
    }
  }

  lemma AssignItemOwnedListed(r: Registry, pkg: string, n: string)
    requires Consistent(r) && pkg in r.packages.vals && n in r.items.vals && Unset(r.items.vals[n].package)
    ensures OwnedListed(AssignItem(r, pkg, n))
  {
    var r' := AssignItem(r, pkg, n);
    AssignItemEffect(r, pkg, n);
    AssignItemFrame(r, pkg, n);
    forall m | m in r'.items.vals && !Unset(r'.items.vals[m].package)
      ensures r'.items.vals[m].package.value in r'.packages.vals
      ensures m in r'.packages.vals[r'.items.vals[m].package.value].config
    {
      if m != n {
        var q := r.items.vals[m].package.value;
        assert q in r.packages.vals && m in r.packages.vals[q].config;
      }
    }
  }

  /** Settled items stay settled while more items are assigned to the same package. */
  lemma SettledStable(r: Registry, pkg: string, n: string, m: string)
    requires Ready(r) && pkg in r.packages.vals && n in r.items.vals && m in r.items.vals
    requires Settled(r, pkg, n)
    ensures Settled(AssignItem(r, pkg, m), pkg, n)
  {
  }

  lemma {:induction false} AssignSettledStable(r: Registry, pkg: string, names: seq<string>, n: string)
    requires Ready(r) && pkg in r.packages.vals && (forall k :: k in names ==> k in r.items.vals) && n in r.items.vals
    requires Settled(r, pkg, n)
    ensures Settled(Assign(r, pkg, names), pkg, n)
    decreases |names|
  {
    if names != [] {
      AssignSettledStable(r, pkg, names[..|names| - 1], n);
      SettledStable(Assign(r, pkg, names[..|names| - 1]), pkg, n, names[|names| - 1]);
    }
  }

  /** After `assignConfigPackage(pkg, names)` every listed item is settled for `pkg`. */
  lemma {:induction false} AssignSettles(r: Registry, pkg: string, names: seq<string>)
    requires Ready(r) && pkg in r.packages.vals && forall k :: k in names ==> k in r.items.vals
    ensures forall n :: n in names ==> Settled(Assign(r, pkg, names), pkg, n)
    decreases |names|
  {
    if names != [] {
      var p := names[..|names| - 1];
      var last := names[|names| - 1];
      var mid := Assign(r, pkg, p);
      AssignSettles(r, pkg, p);
      forall n | n in names ensures Settled(Assign(r, pkg, names), pkg, n) {
        if n in p {
          SettledStable(mid, pkg, n, last);
        } else {
          assert n == last;
        }
      }
    }
  }

  /** Assigning only settled items changes nothing. */
  lemma {:induction false} AssignSettledIdentity(r: Registry, pkg: string, names: seq<string>)
    requires Ready(r) && pkg in r.packages.vals && forall k :: k in names ==> k in r.items.vals
    requires forall n :: n in names ==> Settled(r, pkg, n)
    ensures Assign(r, pkg, names) == r
    decreases |names|
  {
    if names != [] {
      var p := names[..|names| - 1];
      var last := names[|names| - 1];
      assert forall n :: n in p ==> n in names;
      AssignSettledIdentity(r, pkg, p);
      assert last in names;
      assert Settled(r, pkg, last);
    }
  }

  /** Calling `assignConfigPackage` twice with the same arguments is the same as calling it once. */
  lemma AssignIdempotent(r: Registry, pkg: string, names: seq<string>)
    requires Ready(r) && pkg in r.packages.vals && forall k :: k in names ==> k in r.items.vals
    ensures Assign(Assign(r, pkg, names), pkg, names) == Assign(r, pkg, names)
  {
    AssignSettles(r, pkg, names);
    AssignSettledIdentity(Assign(r, pkg, names), pkg, names);
  }

  lemma {:induction false} AssignConsistent(r: Registry, pkg: string, names: seq<string>)
    requires Consistent(r) && pkg in r.packages.vals && forall k :: k in names ==> k in r.items.vals
    ensures Consistent(Assign(r, pkg, names))
    decreases |names|
  {
    if names != [] {
      AssignConsistent(r, pkg, names[..|names| - 1]);
      AssignItemConsistent(Assign(r, pkg, names[..|names| - 1]), pkg, names[|names| - 1]);
    }
  }

  /** The listed names that have no owner in `items`, in the order given. */
  function Unowned(items: Dict<ConfigItem>, names: seq<string>): (u: seq<string>)
    requires forall k :: k in names ==> k in items.vals
    ensures forall x :: x in u <==> x in names && Unset(items.vals[x].package)
    decreases |names|
  {
    if names == [] then []
    else
      var last := names[|names| - 1];
      assert names == names[..|names| - 1] + [last];
      Unowned(items, names[..|names| - 1]) + (if Unset(items.vals[last].package) then [last] else [])
  }

  /**
   * On a consistent registry `assignConfigPackage(pkg, names)` gives `pkg`
   * exactly the listed items that had no owner, and no other item changes.
   */
  lemma {:induction false} AssignOwners(r: Registry, pkg: string, names: seq<string>)
    requires Consistent(r) && pkg in r.packages.vals && forall k :: k in names ==> k in r.items.vals
    ensures forall k :: k in r.items.vals ==>
      Assign(r, pkg, names).items.vals[k] ==
        if k in names && Unset(r.items.vals[k].package) then r.items.vals[k].(package := Some(pkg)) else r.items.vals[k]
    decreases |names|
  {
    if names != [] {
      var p := names[..|names| - 1];
      var last := names[|names| - 1];
      var mid := Assign(r, pkg, p);
      AssignOwners(r, pkg, p);
      AssignConsistent(r, pkg, p);
      AssignItemEffect(mid, pkg, last);
      AssignItemFrame(mid, pkg, last);
      forall k | k in r.items.vals
        ensures Assign(r, pkg, names).items.vals[k] ==
          if k in names && Unset(r.items.vals[k].package) then r.items.vals[k].(package := Some(pkg)) else r.items.vals[k]
      {
        assert k in names <==> k in p || k == last;
      }
    }
  }

  /**
   * `assignConfigPackage(pkg, ..)` leaves every other package as it was,
   * and of `pkg` changes only the item list and the dependencies.
   */
  lemma {:induction false} AssignOtherPackages(r: Registry, pkg: string, names: seq<string>)
    requires Ready(r) && pkg in r.packages.vals && forall k :: k in names ==> k in r.items.vals
    ensures forall q :: q in r.packages.vals && q != pkg ==> Assign(r, pkg, names).packages.vals[q] == r.packages.vals[q]
    ensures var p' := Assign(r, pkg, names).packages.vals[pkg];
      p' == r.packages.vals[pkg].(config := p'.config, dependencies := p'.dependencies)
    decreases |names|
  {
    if names != [] {
      AssignOtherPackages(r, pkg, names[..|names| - 1]);
      AssignItemFrame(Assign(r, pkg, names[..|names| - 1]), pkg, names[|names| - 1]);
    }
  }

  /**
   * The items `pkg` gains are the unowned listed ones, once each, in the
   * order first listed, behind the items it already had.
   */
  lemma {:induction false} AssignAppends(r: Registry, pkg: string, names: seq<string>)
    requires Consistent(r) && pkg in r.packages.vals && forall k :: k in names ==> k in r.items.vals
    ensures Assign(r, pkg, names).packages.vals[pkg].config == r.packages.vals[pkg].config + Unique(Unowned(r.items, names))
    decreases |names|
  {
    if names != [] {
      var p := names[..|names| - 1];
      var last := names[|names| - 1];
      var mid := Assign(r, pkg, p);
      var u := Unowned(r.items, p);
      AssignAppends(r, pkg, p);
      AssignConsistent(r, pkg, p);
      AssignItemEffect(mid, pkg, last);
      OwnerBeforeLast(r, pkg, names);
      UnownedSnoc(r.items, names);
      UniqueSnoc(u, last);
      assert Assign(r, pkg, names) == AssignItem(mid, pkg, last);
      if Unset(r.items.vals[last].package) && last !in p {
        assert last !in u;
        assert Unique(Unowned(r.items, names)) == Unique(u) + [last];
        assert Assign(r, pkg, names).packages.vals[pkg].config == mid.packages.vals[pkg].config + [last];
        AppendAssociative(r.packages.vals[pkg].config, Unique(u), [last]);
      } else if Unset(r.items.vals[last].package) {
        assert last in u;
        assert Unique(Unowned(r.items, names)) == Unique(u);
        assert Assign(r, pkg, names) == mid;
      } else {
        assert Unowned(r.items, names) == u + [] == u;
        assert Assign(r, pkg, names) == mid;
      }
    }
  }

  /**
   * The dependencies `pkg` ends with: its old list, still in front, merged
   * with the module dependencies of every listed item that had no owner,
   * and no other module; none is listed twice.
   */
  lemma {:induction false} AssignDependencies(r: Registry, pkg: string, names: seq<string>, x: string)
    requires Consistent(r) && pkg in r.packages.vals && forall k :: k in names ==> k in r.items.vals
    ensures var d := Assign(r, pkg, names).packages.vals[pkg].dependencies;
      var d0 := r.packages.vals[pkg].dependencies;
      Distinct(d) && |d0| <= |d| && d[..|d0|] == d0 &&
      (x in d <==> x in d0 || exists n :: n in Unowned(r.items, names) && x in ModuleDependencies(r.items.vals[n]))
    decreases |names|
  {
    if names != [] {
      var p := names[..|names| - 1];
      var last := names[|names| - 1];
      AssignDependencies(r, pkg, p, x);
      AssignDependenciesStep(r, pkg, names);
      UnownedSnoc(r.items, names);
      var d0 := r.packages.vals[pkg].dependencies;
      var dm := Assign(r, pkg, p).packages.vals[pkg].dependencies;
      var d := Assign(r, pkg, names).packages.vals[pkg].dependencies;
      assert d[..|d0|] == d0 by {
        assert d[..|d0|] == d[..|dm|][..|d0|];
      }
      if Unset(r.items.vals[last].package) && last in p {
        assert last in Unowned(r.items, p);
      }
    }
  }

  /** The last step of a call merges the last item's modules exactly when it is still unowned. */
  lemma AssignDependenciesStep(r: Registry, pkg: string, names: seq<string>)
    requires Consistent(r) && pkg in r.packages.vals && forall k :: k in names ==> k in r.items.vals
    requires names != []
    ensures var last := names[|names| - 1];
      var dm := Assign(r, pkg, names[..|names| - 1]).packages.vals[pkg].dependencies;
      var d := Assign(r, pkg, names).packages.vals[pkg].dependencies;
      Distinct(d) && |dm| <= |d| && d[..|dm|] == dm &&
      forall x :: x in d <==>
        (x in dm || (Unset(r.items.vals[last].package) && last !in names[..|names| - 1] && x in ModuleDependencies(r.items.vals[last])))
  {
    var p := names[..|names| - 1];
    var last := names[|names| - 1];
    var mid := Assign(r, pkg, p);
    AssignConsistent(r, pkg, p);
    AssignItemEffect(mid, pkg, last);
    OwnerBeforeLast(r, pkg, names);
    AssignOwnershipOnly(r, pkg, p);
    assert Assign(r, pkg, names) == AssignItem(mid, pkg, last);
    assert ModuleDependencies(mid.items.vals[last]) == ModuleDependencies(r.items.vals[last]);
    if !Unset(mid.items.vals[last].package) {
      assert Assign(r, pkg, names) == mid;
      assert mid.packages.vals[pkg].dependencies[..|mid.packages.vals[pkg].dependencies|] == mid.packages.vals[pkg].dependencies;
    }
  }

  /** A whole call changes nothing but ownership. */
  lemma {:induction false} AssignOwnershipOnly(r: Registry, pkg: string, names: seq<string>)
    requires Ready(r) && pkg in r.packages.vals && forall k :: k in names ==> k in r.items.vals
    ensures OwnershipOnly(r, Assign(r, pkg, names))
    decreases |names|
  {
    if names != [] {
      var mid := Assign(r, pkg, names[..|names| - 1]);
      AssignOwnershipOnly(r, pkg, names[..|names| - 1]);
      AssignItemOwnershipOnly(mid, pkg, names[|names| - 1]);
      OwnershipOnlyTrans(r, mid, Assign(r, pkg, names));
    }
  }

  /**
   * A package's dependencies are exactly the module dependencies of the
   * items it lists.
   */
  ghost predicate DependenciesFromItems(r: Registry) {
    forall q, x :: q in r.packages.vals ==>
      (x in r.packages.vals[q].dependencies <==>
        exists n :: n in r.packages.vals[q].config && n in r.items.vals && x in ModuleDependencies(r.items.vals[n]))
  }

  /** One step keeps every package's dependencies those of its items. */
  lemma AssignItemDependenciesFromItems(r: Registry, pkg: string, n: string)
    requires Consistent(r) && DependenciesFromItems(r) && pkg in r.packages.vals && n in r.items.vals
    ensures DependenciesFromItems(AssignItem(r, pkg, n))
  {
    var r' := AssignItem(r, pkg, n);
    if Unset(r.items.vals[n].package) {
      forall q, x | q in r'.packages.vals
        ensures x in r'.packages.vals[q].dependencies <==>
          exists m :: m in r'.packages.vals[q].config && m in r'.items.vals && x in ModuleDependencies(r'.items.vals[m])
      {
        AssignItemDependenciesAt(r, pkg, n, q, x);
      }
    } else {
      AssignItemEffect(r, pkg, n);
    }
  }

  lemma AssignItemDependenciesAt(r: Registry, pkg: string, n: string, q: string, x: string)
    requires Consistent(r) && DependenciesFromItems(r) && pkg in r.packages.vals && n in r.items.vals
    requires Unset(r.items.vals[n].package) && q in r.packages.vals
    ensures var r' := AssignItem(r, pkg, n);
      x in r'.packages.vals[q].dependencies <==>
        exists m :: m in r'.packages.vals[q].config && m in r'.items.vals && x in ModuleDependencies(r'.items.vals[m])
  {
    var r' := AssignItem(r, pkg, n);
    AssignItemEffect(r, pkg, n);
    AssignItemFrame(r, pkg, n);
    assert forall m :: m in r.items.vals ==> ModuleDependencies(r'.items.vals[m]) == ModuleDependencies(r.items.vals[m]);
    var c := r.packages.vals[q].config;
    var c' := r'.packages.vals[q].config;
    if q == pkg {
      assert c' == c + [n];
      if x in ModuleDependencies(r.items.vals[n]) {
        assert n in c' && x in ModuleDependencies(r'.items.vals[n]);
      }
      if exists m :: m in c' && m in r'.items.vals && x in ModuleDependencies(r'.items.vals[m]) {
        var m :| m in c' && m in r'.items.vals && x in ModuleDependencies(r'.items.vals[m]);
        if m != n {
          assert m in c && x in ModuleDependencies(r.items.vals[m]);
        }
      }
    } else {
      assert c' == c;
    }
  }

  /** The whole call keeps every package's dependencies those of its items. */
  lemma {:induction false} AssignDependenciesFromItems(r: Registry, pkg: string, names: seq<string>)
    requires Consistent(r) && DependenciesFromItems(r) && pkg in r.packages.vals && forall k :: k in names ==> k in r.items.vals
    ensures DependenciesFromItems(Assign(r, pkg, names))
    decreases |names|
  {
    if names != [] {
      var p := names[..|names| - 1];
      AssignDependenciesFromItems(r, pkg, p);
      AssignConsistent(r, pkg, p);
      AssignItemDependenciesFromItems(Assign(r, pkg, p), pkg, names[|names| - 1]);
    }
  }

  /** The last name is still unowned before its own step exactly when it was unowned and not listed earlier. */
  lemma OwnerBeforeLast(r: Registry, pkg: string, names: seq<string>)
    requires Consistent(r) && pkg in r.packages.vals && forall k :: k in names ==> k in r.items.vals
    requires names != []
    ensures var last := names[|names| - 1];
      Unset(Assign(r, pkg, names[..|names| - 1]).items.vals[last].package) <==>
        Unset(r.items.vals[last].package) && last !in names[..|names| - 1]
  {
    AssignOwners(r, pkg, names[..|names| - 1]);
  }

  /** The unowned names of a list are those of its front followed, when unowned, by its last name. */
  lemma UnownedSnoc(items: Dict<ConfigItem>, names: seq<string>)
    requires forall k :: k in names ==> k in items.vals
    requires names != []
    ensures var last := names[|names| - 1];
      Unowned(items, names) == Unowned(items, names[..|names| - 1]) + (if Unset(items.vals[last].package) then [last] else [])
  {
  }

  /** No item is listed by two packages. */
  lemma Exclusive(r: Registry, p: string, q: string, n: string)
    requires Consistent(r) && p in r.packages.vals && q in r.packages.vals
    requires n in r.packages.vals[p].config && n in r.packages.vals[q].config
    ensures p == q
  {
    assert r.items.vals[n].package == Some(p);
    assert r.items.vals[n].package == Some(q);
  }
}

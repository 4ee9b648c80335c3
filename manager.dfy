/**
 * The packager object: the configuration collection, the packages and the
 * profile live in fields that its methods update in place. Every method is
 * proved against the function of the same name that the other modules
 * specify and reason about.
 */
module Manager {
  import opened PhpArrays
  import opened Records
  import opened DependencyGraph
  import opened Assignment
  import opened PatternAssignment
  import opened DependentAssignment
  import PackageRegistry
  import opened Rendering
  import opened ListFilters

  /** Every package's file list is a well-formed ordered map. */
  ghost predicate FilesValid(packages: Dict<Package>) {
    forall k :: k in packages.vals ==> packages.vals[k].files.Valid()
  }

  /** The inner loop of `initConfigCollection`: `from` becomes a dependent of each present target. */
  method AddDependent(m: Dict<ConfigItem>, from: string, targets: seq<string>) returns (r: Dict<ConfigItem>)
    requires m.Valid()
    ensures r == AddReverseEdges(m, from, targets)
  {
    r := m;
    var j := 0;
    while j < |targets|
      invariant 0 <= j <= |targets|
      invariant r == AddReverseEdges(m, from, targets[..j])
    {
      var name := targets[j];
      AddReverseEdgesPrefixStep(m, from, targets, j);
      if name in r.vals {
        r := r.Put(name, r.vals[name].(dependents := r.vals[name].dependents + [from]));
      }
      assert r == AddReverseEdges(m, from, targets[..j + 1]);
      j := j + 1;
    }
    assert targets[..j] == targets;
  }

  /** The outer loop of `initConfigCollection`, over the records as loaded. */
  method LinkDependents(loaded: Dict<ConfigItem>) returns (r: Dict<ConfigItem>)
    requires loaded.Valid()
    ensures r == BuildDependents(loaded, loaded.keys)
  {
    r := loaded;
    var keys := loaded.keys;
    var i := 0;
    while i < |keys|
      invariant 0 <= i <= |keys|
      invariant r == BuildDependents(loaded, keys[..i])
    {
      var config := loaded.vals[keys[i]];
      BuildDependentsPrefixStep(loaded, keys, i);
      if config.data.configDependencies.Some? {
        r := AddDependent(r, config.name, config.data.configDependencies.value);
      }
      assert r == BuildDependents(loaded, keys[..i + 1]);
      i := i + 1;
    }
    assert keys[..i] == keys;
  }

  /**
   * The loop of `assignConfigPackage`: each name still unowned, and not yet
   * listed by `pkg`, is listed, given `pkg` as owner, and its module
   * dependencies are merged into the package's.
   */
  method AssignNames(r0: Registry, pkg: string, names: seq<string>) returns (r: Registry)
    requires Ready(r0) && pkg in r0.packages.vals && forall n :: n in names ==> n in r0.items.vals
    ensures r == Assign(r0, pkg, names)
  {
    r := r0;
    var i := 0;
    while i < |names|
      invariant 0 <= i <= |names|
      invariant r == Assign(r0, pkg, names[..i])
    {
      var n := names[i];
      AssignPrefixStep(r0, pkg, names, i);
      var item := r.items.vals[n];
      var p := r.packages.vals[pkg];
      if Unset(item.package) && n !in p.config {
        var deps := p.dependencies;
        if item.data.moduleDependencies.Some? {
          deps := Unique(deps + item.data.moduleDependencies.value);
        }
        r := Registry(r.items.Put(n, item.(package := Some(pkg))), r.packages.Put(pkg, p.(config := p.config + [n], dependencies := deps)));
      }
      assert r == Assign(r0, pkg, names[..i + 1]);
      i := i + 1;
    }
    assert names[..i] == names;
  }

  /** The loop of `reset()` over the collection. */
  method ClearOwnerLoop(items: Dict<ConfigItem>) returns (d: Dict<ConfigItem>)
    requires items.Valid()
    ensures d == PackageRegistry.ClearOwners(items)
  {
    ghost var target := PackageRegistry.ClearOwners(items).vals;
    d := items;
    var keys := items.keys;
    var i := 0;
    while i < |keys|
      invariant 0 <= i <= |keys|
      invariant d == Overlay(items, target, keys[..i])
    {
      var k := keys[i];
      OverlayPrefixStep(items, target, i);
      d := d.Put(k, items.vals[k].(package := None));
      i := i + 1;
    }
    assert keys[..i] == keys;
    OverlayAll(items, target);
  }

  /** The inner loop of `addPackageFiles`: one file per listed item. */
  method WriteConfigFiles(pkg: Package, profile: Package, items: Dict<ConfigItem>, isEntity: string -> bool) returns (p: Package)
    requires pkg.files.Valid() && forall n :: n in pkg.config ==> n in items.vals
    ensures p == AddConfigFiles(pkg, profile, items, pkg.config, isEntity)
  {
    p := pkg;
    var names := pkg.config;
    var i := 0;
    while i < |names|
      invariant 0 <= i <= |names|
      invariant p == AddConfigFiles(pkg, profile, items, names[..i], isEntity)
    {
      var name := names[i];
      AddConfigFilesPrefixStep(pkg, profile, items, names, isEntity, i);
      var config := items.vals[name];
      var data := if isEntity(name) then config.data.(uuid := None) else config.data;
      p := p.(files := p.files.Put(name, File(ItemPath(profile.machineName, pkg.machineName, config.name), ConfigYaml(data))));
      i := i + 1;
    }
    assert names[..i] == names;
  }

  /** The body of `addPackageFiles` for one package: a package that lists items gets its manifest, then its item files. */
  method AddFiles(pkg: Package, profile: Package, items: Dict<ConfigItem>, isEntity: string -> bool) returns (p: Package)
    requires pkg.files.Valid() && forall n :: n in pkg.config ==> n in items.vals
    ensures p == RenderPackage(pkg, profile, items, isEntity)
  {
    p := pkg;
    if pkg.config != [] {
      p := AddInfoFile(pkg, profile);
      p := WriteConfigFiles(p, profile, items, isEntity);
    }
  }

  /** The outer loop of `addPackageFiles`, over every package in order. */
  method RenderEach(packages: Dict<Package>, profile: Package, items: Dict<ConfigItem>, isEntity: string -> bool) returns (d: Dict<Package>)
    requires packages.Valid() && FilesValid(packages)
    requires forall k, n :: k in packages.vals && n in packages.vals[k].config ==> n in items.vals
    ensures d == RenderPackages(packages, profile, items, isEntity)
  {
    ghost var target := RenderPackages(packages, profile, items, isEntity).vals;
    d := packages;
    var keys := packages.keys;
    var i := 0;
    while i < |keys|
      invariant 0 <= i <= |keys|
      invariant d == Overlay(packages, target, keys[..i])
    {
      var k := keys[i];
      OverlayPrefixStep(packages, target, i);
      var package := AddFiles(packages.vals[k], profile, items, isEntity);
      assert package == target[k];
      d := d.Put(k, package);
      i := i + 1;
    }
    assert keys[..i] == keys;
    OverlayAll(packages, target);
  }

  /** The inner loop of `addProfileFiles`: prefix every file name of one package. */
  method PrefixFiles(pkg: Package, prefix: string) returns (p: Package)
    requires pkg.files.Valid()
    ensures p == NestFiles(pkg, prefix)
  {
    ghost var target := NestFiles(pkg, prefix).files.vals;
    var files := pkg.files;
    var keys := files.keys;
    var i := 0;
    while i < |keys|
      invariant 0 <= i <= |keys|
      invariant files == Overlay(pkg.files, target, keys[..i])
    {
      var f := keys[i];
      OverlayPrefixStep(pkg.files, target, i);
      var file := pkg.files.vals[f];
      files := files.Put(f, file.(filename := prefix + file.filename));
      i := i + 1;
    }
    assert keys[..i] == keys;
    OverlayAll(pkg.files, target);
    p := pkg.(files := files);
  }

  /** The outer loop of `addProfileFiles` over every package. */
  method PrefixEach(packages: Dict<Package>, prefix: string) returns (d: Dict<Package>)
    requires packages.Valid() && FilesValid(packages)
    ensures d == NestPackages(packages, prefix)
  {
    ghost var target := NestPackages(packages, prefix).vals;
    d := packages;
    var keys := packages.keys;
    var i := 0;
    while i < |keys|
      invariant 0 <= i <= |keys|
      invariant d == Overlay(packages, target, keys[..i])
    {
      var k := keys[i];
      OverlayPrefixStep(packages, target, i);
      var package := PrefixFiles(packages.vals[k], prefix);
      d := d.Put(k, package);
      i := i + 1;
    }
    assert keys[..i] == keys;
    OverlayAll(packages, target);
  }

  /**
   * The inner loop of `assignConfigByPattern` for one rule whose package
   * exists: each key, in the order given, that was unowned in the snapshot
   * and whose short name matches goes through `assignConfigPackage`.
   */
  method ApplyRule(r0: Registry, snap: Dict<ConfigItem>, keys: seq<string>, rule: Rule) returns (r: Registry)
    requires Ready(r0) && rule.machineName in r0.packages.vals && FilesValid(r0.packages)
    requires forall k :: k in keys ==> k in snap.vals && k in r0.items.vals
    ensures r == PatternPass(r0, snap, keys, rule)
    ensures FilesValid(r.packages)
  {
    r := r0;
    var j := 0;
    while j < |keys|
      invariant 0 <= j <= |keys|
      invariant r == PatternPass(r0, snap, keys[..j], rule)
      invariant FilesValid(r.packages)
    {
      var k := keys[j];
      PatternPassPrefixStep(r0, snap, keys, rule, j);
      if k in snap.vals && Unset(snap.vals[k].package) && PatternMatches(rule.pattern, snap.vals[k].shortName) {
        AssignKeepsFiles(r, rule.machineName, [k]);
        r := AssignNames(r, rule.machineName, [k]);
      }
      assert r == PatternPass(r0, snap, keys[..j + 1], rule);
      j := j + 1;
    }
    assert keys[..j] == keys;
  }

  /** The outer loop of `assignConfigByPattern`: the rules in the order given, skipping those whose package is missing. */
  method ApplyRules(r0: Registry, snap: Dict<ConfigItem>, keys: seq<string>, rules: seq<Rule>) returns (r: Registry)
    requires Ready(r0) && FilesValid(r0.packages) && forall k :: k in keys ==> k in snap.vals && k in r0.items.vals
    ensures r == PatternLoop(r0, snap, keys, rules)
    ensures FilesValid(r.packages)
  {
    r := r0;
    var i := 0;
    while i < |rules|
      invariant 0 <= i <= |rules|
      invariant r == PatternLoop(r0, snap, keys, rules[..i])
      invariant r.items.keys == r0.items.keys
      invariant FilesValid(r.packages)
    {
      PatternLoopPrefixStep(r0, snap, keys, rules, i);
      if rules[i].machineName in r.packages.vals {
        assert forall k :: k in keys ==> k in r.items.vals;
        r := ApplyRule(r, snap, keys, rules[i]);
      }
      assert r == PatternLoop(r0, snap, keys, rules[..i + 1]);
      i := i + 1;
    }
    assert rules[..i] == rules;
  }

  /** The inner loop of `assignConfigDependents` for one owned item. */
  method PassToDependents(r0: Registry, snap: Dict<ConfigItem>, owner: string, deps: seq<string>) returns (r: Registry)
    requires Ready(r0) && FilesValid(r0.packages) && owner in r0.packages.vals && Covers(r0, snap)
    ensures r == PropagateFrom(r0, snap, owner, deps)
    ensures FilesValid(r.packages)
  {
    r := r0;
    var j := 0;
    while j < |deps|
      invariant 0 <= j <= |deps|
      invariant r == PropagateFrom(r0, snap, owner, deps[..j])
      invariant FilesValid(r.packages)
    {
      var d := deps[j];
      PropagateFromPrefixStep(r0, snap, owner, deps, j);
      if d in snap.vals && Unset(snap.vals[d].package) {
        AssignKeepsFiles(r, owner, [d]);
        r := AssignNames(r, owner, [d]);
      }
      assert r == PropagateFrom(r0, snap, owner, deps[..j + 1]);
      j := j + 1;
    }
    assert deps[..j] == deps;
  }

  /** The outer loop of `assignConfigDependents`: items owned in the snapshot pass their owner on. */
  method PassOwners(r0: Registry, snap: Dict<ConfigItem>, names: seq<string>) returns (r: Registry)
    requires Ready(r0) && FilesValid(r0.packages) && Covers(r0, snap) && OwnersExist(snap, r0.packages)
    ensures r == PropagateLoop(r0, snap, names)
    ensures FilesValid(r.packages)
  {
    r := r0;
    var i := 0;
    while i < |names|
      invariant 0 <= i <= |names|
      invariant r == PropagateLoop(r0, snap, names[..i])
      invariant r.items.keys == r0.items.keys && r.packages.keys == r0.packages.keys
      invariant FilesValid(r.packages)
    {
      var n := names[i];
      PropagateLoopPrefixStep(r0, snap, names, i);
      if n in snap.vals && !Unset(snap.vals[n].package) {
        var owner := snap.vals[n].package.value;
        assert owner in r0.packages.vals;
        assert owner in r.packages.vals && Covers(r, snap);
        r := PassToDependents(r, snap, owner, snap.vals[n].dependents);
      }
      assert r == PropagateLoop(r0, snap, names[..i + 1]);
      i := i + 1;
    }
    assert names[..i] == names;
  }

  /** Assignment leaves every package's files alone. */
  lemma AssignKeepsFiles(r: Registry, pkg: string, names: seq<string>)
    requires Ready(r) && pkg in r.packages.vals && forall n :: n in names ==> n in r.items.vals
    requires FilesValid(r.packages)
    ensures FilesValid(Assign(r, pkg, names).packages)
  {
    AssignOtherPackages(r, pkg, names);
  }

  /** Changing nothing but the packages' files keeps the registry consistent. */
  lemma FilesOnlyKeepConsistent(r: Registry, packages: Dict<Package>)
    requires Consistent(r) && packages.Valid() && packages.keys == r.packages.keys
    requires forall k :: k in r.packages.vals ==>
      k in packages.vals && packages.vals[k] == r.packages.vals[k].(files := packages.vals[k].files)
    ensures Consistent(Registry(r.items, packages))
    ensures DependenciesFromItems(r) ==> DependenciesFromItems(Registry(r.items, packages))
  {
  }

  /** Rendering changes nothing about a package but its files. */
  lemma RenderKeepsConsistent(r: Registry, profile: Package, isEntity: string -> bool)
    requires Consistent(r) && FilesValid(r.packages)
    requires forall k, n :: k in r.packages.vals && n in r.packages.vals[k].config ==> n in r.items.vals
    ensures Consistent(Registry(r.items, RenderPackages(r.packages, profile, r.items, isEntity)))
    ensures DependenciesFromItems(r) ==> DependenciesFromItems(Registry(r.items, RenderPackages(r.packages, profile, r.items, isEntity)))
  {
    var d := RenderPackages(r.packages, profile, r.items, isEntity);
    forall k | k in r.packages.vals
      ensures d.vals[k] == r.packages.vals[k].(files := d.vals[k].files)
    {
      RenderPackageFiles(r.packages.vals[k], profile, r.items, isEntity);
    }
    FilesOnlyKeepConsistent(r, d);
  }

  /** Nesting changes nothing about a package but its files. */
  lemma NestKeepsConsistent(r: Registry, prefix: string)
    requires Consistent(r)
    ensures Consistent(Registry(r.items, NestPackages(r.packages, prefix)))
    ensures DependenciesFromItems(r) ==> DependenciesFromItems(Registry(r.items, NestPackages(r.packages, prefix)))
  {
    FilesOnlyKeepConsistent(r, NestPackages(r.packages, prefix));
  }

  class ConfigPackagerManager {
    /** Item name to item record, filled from storage on first use. */
    var configCollection: Dict<ConfigItem>
    /** Package machine name to package record. */
    var packages: Dict<Package>
    /** The install profile; its name labels every package. */
    var profile: Package

    const profileSettings: ProfileSettings
    /** The records the site's configuration storage yields, before reverse dependencies are added. */
    const stored: Dict<ConfigItem>
    /** Whether a configuration name belongs to a configuration entity type. */
    const isEntity: string -> bool

    ghost predicate Valid()
      reads this
    {
      configCollection.Valid() && packages.Valid() && profile.files.Valid() && FreshlyLoaded(stored) &&
      FilesValid(packages)
    }

    /** The two maps the assignment engine works on. */
    function Current(): Registry
      reads this
    {
      Registry(configCollection, packages)
    }

    /** The collection `getConfigCollection` hands out: loaded from storage when still empty. */
    function Collection(): Dict<ConfigItem>
      reads this
      requires Valid()
    {
      if configCollection.keys == [] then BuildDependents(stored, stored.keys) else configCollection
    }

    /** The registry the assignment methods start from, once the collection is loaded. */
    function LoadedRegistry(): Registry
      reads this
      requires Valid()
    {
      Registry(Collection(), packages)
    }

    /**
     * The state the object keeps from construction on: the registry the
     * assignment methods start from is consistent, and every package's
     * dependencies are exactly the module dependencies of its items.
     */
    ghost predicate Sound()
      reads this
    {
      Valid() && Consistent(LoadedRegistry()) && DependenciesFromItems(LoadedRegistry())
    }

    /**
     * In a sound state the caller requirements of the methods that read
     * ownership hold by themselves, no item is listed by two packages, and a
     * package depends on exactly the modules its items depend on.
     */
    lemma SoundState()
      requires Sound()
      ensures OwnersExist(Collection(), packages)
      ensures forall k, n :: k in packages.vals && n in packages.vals[k].config ==> n in Collection().vals
      ensures forall p, q, n ::
        p in packages.vals && q in packages.vals && n in packages.vals[p].config && n in packages.vals[q].config ==> p == q
    ensures forall p, x :: p in packages.vals ==>
      (x in packages.vals[p].dependencies <==>
        exists n :: n in packages.vals[p].config && n in Collection().vals && x in ModuleDependencies(Collection().vals[n]))
    {
      forall p, q, n | p in packages.vals && q in packages.vals &&
        n in packages.vals[p].config && n in packages.vals[q].config
        ensures p == q
      {
        Exclusive(LoadedRegistry(), p, q, n);
      }
    }

    constructor (settings: ProfileSettings, stored: Dict<ConfigItem>, isEntity: string -> bool)
      requires FreshlyLoaded(stored)
      ensures Valid() && Sound()
      ensures configCollection.keys == [] && packages.keys == []
      ensures profile == GetProject(settings.machineName, settings.name, settings.description, Profile)
      ensures profileSettings == settings && this.stored == stored && this.isEntity == isEntity
    {
      profileSettings := settings;
      this.stored := stored;
      this.isEntity := isEntity;
      packages := EmptyDict();
      profile := GetProject(settings.machineName, settings.name, settings.description, Profile);
      configCollection := EmptyDict();
      PackageRegistry.LoadedConsistent(stored, EmptyDict());
    }

    /** `initConfigCollection`: on first use, load the records and add reverse dependencies. */
    method LoadCollection()
      requires Valid()
      modifies this
      ensures Valid()
      ensures configCollection == old(Collection()) && Collection() == configCollection
      ensures packages == old(packages) && profile == old(profile)
      ensures old(Sound()) ==> Sound()
    {
      if configCollection.keys == [] {
        configCollection := LinkDependents(stored);
      }
    }

    /** `reset()`: drop every package and clear every item's owner. */
    method Reset()
      requires Valid()
      modifies this
      ensures Valid()
      ensures Current() == PackageRegistry.ResetRegistry(old(Current()))
      ensures profile == old(profile)
      ensures Sound()
    {
      PackageRegistry.ResetEffect(Current());
      packages := EmptyDict();
      configCollection := ClearOwnerLoop(configCollection);
      if configCollection.keys == [] {
        PackageRegistry.LoadedConsistent(stored, packages);
      }
    }

    /** `initPackage(machine_name, name, description)`. */
    method InitPackage(machineName: string, name: Option<string>, description: string)
      requires Valid()
      modifies this
      ensures Valid()
      ensures Current() == PackageRegistry.InitPackage(old(Current()), machineName, name, description)
      ensures profile == old(profile)
      ensures old(Sound()) && !PhpEmpty(machineName) ==> Sound()
    {
      if Sound() {
        PackageRegistry.InitPackageEffect(LoadedRegistry(), machineName, name, description);
      }
      if machineName !in packages.vals {
        packages := packages.Put(machineName, GetProject(machineName, name, description, Module));
      }
    }

    /** `initCorePackage()`. */
    method InitCorePackage()
      requires Valid()
      modifies this
      ensures Valid()
      ensures Current() == PackageRegistry.InitCorePackage(old(Current()))
      ensures profile == old(profile)
      ensures old(Sound()) ==> Sound()
    {
      InitPackage(PackageRegistry.CoreMachineName, Some(PackageRegistry.CoreName), PackageRegistry.CoreDescription);
    }

    /**
     * `assignConfigPackage(package_name, item_names)`: the guard reads the
     * local copy of the collection, which each assignment updates.
     */
    method AssignConfigPackage(pkg: string, names: seq<string>)
      requires Valid() && pkg in packages.vals && forall n :: n in names ==> n in Collection().vals
      modifies this
      ensures Valid()
      ensures Current() == Assign(old(LoadedRegistry()), pkg, names)
      ensures Collection() == configCollection && profile == old(profile)
      ensures old(Sound()) ==> Sound()
    {
      if Sound() {
        AssignConsistent(LoadedRegistry(), pkg, names);
        AssignDependenciesFromItems(LoadedRegistry(), pkg, names);
      }
      LoadCollection();
      var r := AssignNames(Current(), pkg, names);
      AssignKeepsFiles(Current(), pkg, names);
      configCollection, packages := r.items, r.packages;
    }

    /**
     * `assignConfigByPattern(rules)`: the rules in the order given, each
     * over the keys sorted descending; eligibility is read from the
     * collection as it was when the call began.
     */
    method AssignConfigByPattern(rules: seq<Rule>)
      requires Valid()
      modifies this
      ensures Valid()
      ensures Current() == AssignByPattern(old(LoadedRegistry()), rules)
      ensures Collection() == configCollection && profile == old(profile)
      ensures old(Sound()) ==> Sound()
    {
      if Sound() {
        PatternLoopConsistent(LoadedRegistry(), Collection(), KeysDescending(Collection().keys), rules);
        ByPatternDependencies(LoadedRegistry(), rules);
      }
      LoadCollection();
      var snap := configCollection;
      var r := ApplyRules(Current(), snap, KeysDescending(snap.keys), rules);
      configCollection, packages := r.items, r.packages;
    }

    /**
     * `assignConfigDependents(names)`: every item owned when the call began
     * passes its owner to each of its dependents that was then unowned; an
     * empty list visits every item.
     */
    method AssignConfigDependents(names: seq<string>)
      requires Valid() && OwnersExist(Collection(), packages)
      modifies this
      ensures Valid()
      ensures Current() == AssignDependents(old(LoadedRegistry()), names)
      ensures Collection() == configCollection && profile == old(profile)
      ensures old(Sound()) ==> Sound()
    {
      if Sound() {
        PropagateLoopConsistent(LoadedRegistry(), Collection(), Visited(LoadedRegistry(), names));
        DependentsDependencies(LoadedRegistry(), names);
      }
      LoadCollection();
      var snap := configCollection;
      var r := PassOwners(Current(), snap, if names == [] then snap.keys else names);
      configCollection, packages := r.items, r.packages;
    }

    /** `addPackageFiles()`: render the files of every package that lists items. */
    method AddPackageFiles()
      requires Valid()
      requires forall k, n :: k in packages.vals && n in packages.vals[k].config ==> n in Collection().vals
      modifies this
      ensures Valid() && configCollection == old(Collection()) && profile == old(profile)
      ensures packages == RenderPackages(old(packages), profile, configCollection, isEntity)
      ensures old(Sound()) ==> Sound()
    {
      if Sound() {
        RenderKeepsConsistent(LoadedRegistry(), profile, isEntity);
      }
      LoadCollection();
      packages := RenderEach(packages, profile, configCollection, isEntity);
    }

    /** `addProfileFiles()`: nest every package file under the profile and add the profile's manifest. */
    method AddProfileFiles()
      requires Valid()
      modifies this
      ensures Valid() && configCollection == old(configCollection)
      ensures packages == NestPackages(old(packages), NestPrefix(profile.machineName))
      ensures profile == AddInfoFile(old(profile), old(profile))
      ensures old(Sound()) ==> Sound()
    {
      if Sound() {
        NestKeepsConsistent(LoadedRegistry(), NestPrefix(profile.machineName));
      }
      packages := PrefixEach(packages, NestPrefix(profile.machineName));
      profile := AddInfoFile(profile, profile);
    }

    /** `prepareFiles($add_profile)`: package files first, so that nesting reaches them. */
    method PrepareFiles(addProfile: bool)
      requires Valid()
      requires forall k, n :: k in packages.vals && n in packages.vals[k].config ==> n in Collection().vals
      modifies this
      ensures Valid() && configCollection == old(Collection())
      ensures Prepared(packages, profile) == Rendering.PrepareFiles(old(packages), old(profile), configCollection, isEntity, addProfile)
      ensures old(Sound()) ==> Sound()
    {
      AddPackageFiles();
      if addProfile {
        AddProfileFiles();
      }
    }

    /**
     * `generate($method, $add_profile, $package_names)` up to the writers:
     * prepare the files, select the named packages, and hand the writers
     * that selection, or every package when it is empty.
     */
    method Generate(addProfile: bool, names: seq<string>) returns (handed: Dict<Package>)
      requires Valid()
      requires forall k, n :: k in packages.vals && n in packages.vals[k].config ==> n in Collection().vals
      modifies this
      ensures Valid() && configCollection == old(Collection())
      ensures Prepared(packages, profile) == Rendering.PrepareFiles(old(packages), old(profile), configCollection, isEntity, addProfile)
      ensures handed == WriterPackages(packages, RequestedPackages(packages, names))
      ensures old(Sound()) ==> Sound()
    {
      PrepareFiles(addProfile);
      var selected := packages;
      if names != [] {
        selected := Restrict(packages, packages.keys, names);
      }
      handed := selected;
      if handed.keys == [] {
        handed := packages;
      }
    }
  }
}

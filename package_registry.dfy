/**
 * `reset`, `initPackage` and `initCorePackage`: clearing all assignments
 * and creating packages without ever overwriting one.
 */
module PackageRegistry {
  import opened PhpArrays
  import opened Records
  import opened Assignment
  import opened DependencyGraph

  /** Every item with its owner cleared. */
  function ClearOwners(items: Dict<ConfigItem>): (d: Dict<ConfigItem>)
    requires items.Valid()
    ensures d.Valid() && d.keys == items.keys
  {
    Dict(items.keys, map k | k in items.vals :: items.vals[k].(package := None))
  }

  /** `reset()`: no packages, no owners. */
  function ResetRegistry(r: Registry): (r': Registry)
    requires r.items.Valid()
    ensures Ready(r')
  {
    Registry(ClearOwners(r.items), EmptyDict())
  }

  /**
   * After `reset` there are no packages and no item has an owner; names,
   * data and dependents of every item are as they were, and resetting
   * again changes nothing.
   */
  lemma ResetEffect(r: Registry)
    requires r.items.Valid()
    ensures var r' := ResetRegistry(r);
      Consistent(r') && r'.packages.keys == [] &&
      r'.items.keys == r.items.keys &&
      (forall k :: k in r'.items.vals <==> k in r.items.vals) &&
      (forall k :: k in r.items.vals ==>
        r'.items.vals[k].package.None? && r'.items.vals[k] == r.items.vals[k].(package := None))
    ensures ResetRegistry(ResetRegistry(r)) == ResetRegistry(r)
    ensures DependenciesFromItems(ResetRegistry(r))
  {
    var r' := ResetRegistry(r);
    assert ClearOwners(r'.items).vals == r'.items.vals;
  }

  /**
   * The registry right after the collection is loaded is consistent as long
   * as no package lists an item yet: loaded items have no owner, and adding
   * reverse dependencies does not give them one. This is the state every
   * sequence of assignment calls starts from.
   */
  lemma LoadedConsistent(stored: Dict<ConfigItem>, packages: Dict<Package>)
    requires FreshlyLoaded(stored) && packages.Valid()
    requires forall p :: p in packages.vals ==>
      !PhpEmpty(p) && packages.vals[p].config == [] && Distinct(packages.vals[p].dependencies)
    ensures var r := Registry(BuildDependents(stored, stored.keys), packages);
      Consistent(r) && forall k :: k in r.items.vals ==> r.items.vals[k].package.None?
    ensures (forall p :: p in packages.vals ==> packages.vals[p].dependencies == []) ==>
      DependenciesFromItems(Registry(BuildDependents(stored, stored.keys), packages))
  {
  }

  /** `initPackage(machine, name, description)`: a new package unless one of that name exists. */
  function InitPackage(r: Registry, machineName: string, name: Option<string>, description: string): (r': Registry)
    requires Ready(r)
    ensures Ready(r') && r'.items == r.items
  {
    if machineName in r.packages.vals then r
    else Registry(r.items, r.packages.Put(machineName, GetProject(machineName, name, description, Module)))
  }

  /**
   * `initPackage` never overwrites: an existing package is left as it is;
   * otherwise a fresh module package is added at the end, with no items,
   * dependencies, themes or files. No other package changes, and a
   * consistent registry stays consistent when the new name is not empty.
   */
  lemma InitPackageEffect(r: Registry, machineName: string, name: Option<string>, description: string)
    requires Ready(r)
    ensures var r' := InitPackage(r, machineName, name, description);
      machineName in r'.packages.vals &&
      (forall q :: q in r.packages.vals ==> q in r'.packages.vals && r'.packages.vals[q] == r.packages.vals[q]) &&
      (forall q :: q in r'.packages.vals ==> q in r.packages.vals || q == machineName)
    ensures machineName !in r.packages.vals ==>
      var p := InitPackage(r, machineName, name, description).packages.vals[machineName];
      InitPackage(r, machineName, name, description).packages.keys == r.packages.keys + [machineName] &&
      p.machineName == machineName && p.projectType == Module && p.core == CoreCompatibility &&
      p.dependencies == [] && p.themes == [] && p.config == [] && p.files.keys == [] &&
      p.name == GetName(machineName, name) &&
      p.description == (if PhpEmpty(description) then DefaultDescription(name) else description)
    ensures Consistent(r) && !PhpEmpty(machineName) ==> Consistent(InitPackage(r, machineName, name, description))
    ensures DependenciesFromItems(r) ==> DependenciesFromItems(InitPackage(r, machineName, name, description))
  {
  }

  const CoreMachineName: string := "core"
  const CoreName: string := "Core"
  const CoreDescription: string := "Provide core components required by other configuration modules."

  /** `initCorePackage()`. */
  function InitCorePackage(r: Registry): (r': Registry)
    requires Ready(r)
    ensures Ready(r')
  {
    InitPackage(r, CoreMachineName, Some(CoreName), CoreDescription)
  }

  /** After `initCorePackage` a `core` package exists; a new one carries the fixed name and description. */
  lemma InitCorePackageEffect(r: Registry)
    requires Ready(r)
    ensures CoreMachineName in InitCorePackage(r).packages.vals
    ensures CoreMachineName !in r.packages.vals ==>
      InitCorePackage(r).packages.vals[CoreMachineName].name == "Core" &&
      InitCorePackage(r).packages.vals[CoreMachineName].description == "Provide core components required by other configuration modules."
    ensures CoreMachineName in r.packages.vals ==> InitCorePackage(r) == r
    ensures Consistent(r) ==> Consistent(InitCorePackage(r))
  {
    InitPackageEffect(r, CoreMachineName, Some(CoreName), CoreDescription);
  }
}

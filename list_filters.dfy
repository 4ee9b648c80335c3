/**
 * The small list filters: `getModuleList`'s name/namespace selection, the
 * simple-configuration filter of `getConfigByType`, and the package
 * selection of `generate` together with the writers' fallback to all
 * packages.
 */
module ListFilters {
  import opened PhpArrays
  import opened Records

  /** The namespace loop of `getModuleList`: every module whose name starts with `namespace`, in order. */
  function AddPrefixed<V>(acc: Dict<V>, modules: Dict<V>, keys: seq<string>, namespace: string): (r: Dict<V>)
    requires acc.Valid() && forall k :: k in keys ==> k in modules.vals
    ensures r.Valid()
    decreases |keys|
  {
    if keys == [] then acc
    else
      var r0 := AddPrefixed(acc, modules, keys[..|keys| - 1], namespace);
      var k := keys[|keys| - 1];
      if StartsWith(k, namespace) then r0.Put(k, modules.vals[k]) else r0
  }

  lemma {:induction false} AddPrefixedMembers<V>(acc: Dict<V>, modules: Dict<V>, keys: seq<string>, namespace: string)
    requires acc.Valid() && forall k :: k in keys ==> k in modules.vals
    ensures var r := AddPrefixed(acc, modules, keys, namespace);
      (forall k :: k in r.vals <==> k in acc.vals || (k in keys && StartsWith(k, namespace))) &&
      (forall k :: k in r.vals && !(k in keys && StartsWith(k, namespace)) ==> r.vals[k] == acc.vals[k]) &&
      (forall k :: k in keys && StartsWith(k, namespace) ==> r.vals[k] == modules.vals[k]) &&
      |acc.keys| <= |r.keys| && r.keys[..|acc.keys|] == acc.keys
    decreases |keys|
  {
    if keys != [] {
      var p := keys[..|keys| - 1];
      AddPrefixedMembers(acc, modules, p, namespace);
      assert forall k :: k in keys <==> k in p || k == keys[|keys| - 1] by {
        assert keys == p + [keys[|keys| - 1]];
      }
    }
  }

  /**
   * `getModuleList($name, $namespace)`: with neither given (or both empty
   * in PHP's sense), every module; otherwise the module called `name`, if
   * there is one, followed by every module whose name starts with
   * `namespace`.
   */
  function ModuleList<V>(modules: Dict<V>, name: Option<string>, namespace: Option<string>): Dict<V>
    requires modules.Valid()
  {
    if !Unset(name) || !Unset(namespace) then
      var picked: Dict<V> := if !Unset(name) && name.value in modules.vals then EmptyDict<V>().Put(name.value, modules.vals[name.value]) else EmptyDict();
      if !Unset(namespace) then AddPrefixed(picked, modules, modules.keys, namespace.value) else picked
    else modules
  }

  /**
   * The selection `getModuleList` makes: a module is returned exactly when
   * no filter is given, or it is the named module, or its name starts with
   * the namespace; each comes with its own extension, and the named module
   * comes first.
   */
  lemma ModuleListMembers<V>(modules: Dict<V>, name: Option<string>, namespace: Option<string>)
    requires modules.Valid()
    ensures var r := ModuleList(modules, name, namespace);
      r.Valid() &&
      (forall k :: k in r.vals <==>
        (k in modules.vals &&
         ((Unset(name) && Unset(namespace)) ||
          (!Unset(name) && k == name.value) ||
          (!Unset(namespace) && StartsWith(k, namespace.value))))) &&
      (forall k :: k in r.vals ==> r.vals[k] == modules.vals[k])
    ensures !Unset(name) && name.value in modules.vals ==> ModuleList(modules, name, namespace).keys[0] == name.value
  {
    if !Unset(name) || !Unset(namespace) {
      var picked: Dict<V> := if !Unset(name) && name.value in modules.vals then EmptyDict<V>().Put(name.value, modules.vals[name.value]) else EmptyDict();
      if !Unset(namespace) {
        AddPrefixedMembers(picked, modules, modules.keys, namespace.value);
      }
    }
  }

  /** Whether `name` starts with `prefix` followed by a dot, the shape of a configuration entity's name. */
  predicate HasEntityPrefix(name: string, prefixes: seq<string>) {
    exists i :: 0 <= i < |prefixes| && StartsWith(name, prefixes[i] + ".")
  }

  /** The simple-configuration branch of `getConfigByType`: every stored name not under an entity prefix. */
  function SimpleConfigNames(names: seq<string>, prefixes: seq<string>): (r: seq<string>)
    ensures forall n :: n in r <==> n in names && !HasEntityPrefix(n, prefixes)
    ensures |r| <= |names|
    decreases |names|
  {
    if names == [] then []
    else
      var last := names[|names| - 1];
      assert names == names[..|names| - 1] + [last];
      SimpleConfigNames(names[..|names| - 1], prefixes) + (if HasEntityPrefix(last, prefixes) then [] else [last])
  }

  /** The keys that are among `names`, read front to back in their own order. */
  function Selected(keys: seq<string>, names: seq<string>): seq<string> {
    if keys == [] then []
    else (if keys[0] in names then [keys[0]] else []) + Selected(keys[1..], names)
  }

  /** Selecting from a list with one more key adds that key at the end when it is requested. */
  lemma {:induction false} SelectedSnoc(keys: seq<string>, x: string, names: seq<string>)
    ensures Selected(keys + [x], names) == Selected(keys, names) + (if x in names then [x] else [])
  {
    if keys != [] {
      assert (keys + [x])[1..] == keys[1..] + [x];
      SelectedSnoc(keys[1..], x, names);
    } else {
      assert ([] + [x])[1..] == [];
    }
  }

  /**
   * `array_intersect_key($packages, array_fill_keys($names, NULL))`: the
   * packages whose keys are listed, unchanged and in package order.
   */
  function Restrict(packages: Dict<Package>, keys: seq<string>, names: seq<string>): (r: Dict<Package>)
    requires packages.Valid() && Distinct(keys) && forall k :: k in keys ==> k in packages.vals
    ensures r.Valid()
    ensures forall k :: k in r.vals <==> k in keys && k in names
    ensures forall k :: k in r.vals ==> r.vals[k] == packages.vals[k]
    ensures r.keys == Selected(keys, names)
    ensures (forall k :: k in keys ==> k !in names) ==> r.keys == []
    decreases |keys|
  {
    if keys == [] then EmptyDict()
    else
      var k := keys[|keys| - 1];
      var p := keys[..|keys| - 1];
      assert keys == p + [k];
      var r0 := Restrict(packages, p, names);
      SelectedSnoc(p, k, names);
      if k in names then r0.Put(k, packages.vals[k]) else r0
  }

  /** `generate`'s selection: all packages when none are named, else the named ones that exist, in package order. */
  function RequestedPackages(packages: Dict<Package>, names: seq<string>): (r: Dict<Package>)
    requires packages.Valid()
    ensures r.Valid()
    ensures names == [] ==> r == packages
    ensures names != [] ==> forall k :: k in r.vals <==> k in packages.vals && k in names
    ensures names != [] ==> r.keys == Selected(packages.keys, names)
    ensures forall k :: k in r.vals ==> r.vals[k] == packages.vals[k]
  {
    if names == [] then packages else Restrict(packages, packages.keys, names)
  }

  /** The writers' fallback: an empty selection means every package. */
  function WriterPackages(packages: Dict<Package>, selected: Dict<Package>): Dict<Package> {
    if selected.keys == [] then packages else selected
  }

  /**
   * Naming only packages that do not exist selects nothing, and the
   * writers then fall back to every package.
   */
  lemma UnknownRequestSelectsAll(packages: Dict<Package>, names: seq<string>)
    requires packages.Valid() && names != [] && forall n :: n in names ==> n !in packages.vals
    ensures WriterPackages(packages, RequestedPackages(packages, names)) == packages
  {
  }
}

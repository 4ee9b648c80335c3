/**
 * The files a package renders to: its `.info.yml` manifest and one YAML
 * file per configuration item (`addInfoFile`, `addPackageFiles`), the
 * nesting of package files under the profile (`addProfileFiles`), and the
 * order `prepareFiles` runs them in.
 */
module Rendering {
  import opened PhpArrays
  import opened Records

  /** Drupal core's `InstallStorage::CONFIG_INSTALL_DIRECTORY`. */
  const ConfigInstallDirectory: string := "config/install"

  /** The key the manifest is stored under in a package's `files`. */
  const InfoKey: string := "info"

  /** The manifest record before empty values are removed. */
  function RawInfo(pkg: Package, profile: Package): InfoRecord {
    InfoRecord(
      Some(if pkg.projectType == Module then profile.name + " " + pkg.name else pkg.name),
      Some(pkg.description),
      Some(TypeName(pkg.projectType)),
      Some(pkg.core),
      Some(pkg.dependencies),
      Some(pkg.themes),
      Some(profile.name),
      if pkg.config != [] then Some(pkg.config) else None)
  }

  function KeepString(v: Option<string>): Option<string> {
    if v.Some? && !PhpEmpty(v.value) then v else None
  }

  function KeepList(v: Option<seq<string>>): Option<seq<string>> {
    if v.Some? && v.value != [] then v else None
  }

  /**
   * `array_filter($info)`: every value PHP considers empty is removed and
   * every other value is kept as it is.
   */
  function DropEmpty(info: InfoRecord): (r: InfoRecord)
    ensures r.name.Some? <==> info.name.Some? && !PhpEmpty(info.name.value)
    ensures r.description.Some? <==> info.description.Some? && !PhpEmpty(info.description.value)
    ensures r.projectType.Some? <==> info.projectType.Some? && !PhpEmpty(info.projectType.value)
    ensures r.core.Some? <==> info.core.Some? && !PhpEmpty(info.core.value)
    ensures r.dependencies.Some? <==> info.dependencies.Some? && info.dependencies.value != []
    ensures r.themes.Some? <==> info.themes.Some? && info.themes.value != []
    ensures r.package.Some? <==> info.package.Some? && !PhpEmpty(info.package.value)
    ensures r.configDevel.Some? <==> info.configDevel.Some? && info.configDevel.value != []
    ensures r.name.Some? ==> r.name == info.name
    ensures r.description.Some? ==> r.description == info.description
    ensures r.projectType.Some? ==> r.projectType == info.projectType
    ensures r.core.Some? ==> r.core == info.core
    ensures r.dependencies.Some? ==> r.dependencies == info.dependencies
    ensures r.themes.Some? ==> r.themes == info.themes
    ensures r.package.Some? ==> r.package == info.package
    ensures r.configDevel.Some? ==> r.configDevel == info.configDevel
    ensures NoEmptyValue(r)
  {
    InfoRecord(
      KeepString(info.name), KeepString(info.description), KeepString(info.projectType), KeepString(info.core),
      KeepList(info.dependencies), KeepList(info.themes), KeepString(info.package), KeepList(info.configDevel))
  }

  /** No key of the record holds a value PHP considers empty. */
  predicate NoEmptyValue(info: InfoRecord) {
    (info.name.Some? ==> !PhpEmpty(info.name.value)) &&
    (info.description.Some? ==> !PhpEmpty(info.description.value)) &&
    (info.projectType.Some? ==> !PhpEmpty(info.projectType.value)) &&
    (info.core.Some? ==> !PhpEmpty(info.core.value)) &&
    (info.dependencies.Some? ==> info.dependencies.value != []) &&
    (info.themes.Some? ==> info.themes.value != []) &&
    (info.package.Some? ==> !PhpEmpty(info.package.value)) &&
    (info.configDevel.Some? ==> info.configDevel.value != [])
  }

  /** The directory and base name of a project's manifest: modules carry the profile's prefix. */
  function InfoMachineName(pkg: Package, profile: Package): string {
    if pkg.projectType == Module then profile.machineName + "_" + pkg.machineName else pkg.machineName
  }

  /** The manifest `addInfoFile` produces. */
  function InfoFile(pkg: Package, profile: Package): File {
    var m := InfoMachineName(pkg, profile);
    File(m + "/" + m + ".info.yml", InfoYaml(DropEmpty(RawInfo(pkg, profile))))
  }

  /** `addInfoFile($package)`: store the manifest under `info`. */
  function AddInfoFile(pkg: Package, profile: Package): (p: Package)
    requires pkg.files.Valid()
    ensures p.files.Valid()
  {
    pkg.(files := pkg.files.Put(InfoKey, InfoFile(pkg, profile)))
  }

  /**
   * The manifest keeps the six standard keys and adds `package`, set to
   * the profile's name, and `config_devel`, present exactly when the
   * package lists items, holding them; a module's name and directory carry
   * the profile's name and machine name; empty values are dropped.
   */
  lemma InfoFileRendering(pkg: Package, profile: Package)
    ensures var f := InfoFile(pkg, profile); var m := InfoMachineName(pkg, profile);
      f.filename == m + "/" + m + ".info.yml" && f.body.InfoYaml? && NoEmptyValue(f.body.info)
    ensures var info := InfoFile(pkg, profile).body.info;
      info.projectType == Some(TypeName(pkg.projectType)) &&
      info.core == KeepString(Some(pkg.core)) &&
      info.description == KeepString(Some(pkg.description)) &&
      info.package == KeepString(Some(profile.name)) &&
      (info.configDevel.Some? <==> pkg.config != []) &&
      (pkg.config != [] ==> info.configDevel == Some(pkg.config)) &&
      (info.dependencies.Some? <==> pkg.dependencies != []) &&
      (info.dependencies.Some? ==> info.dependencies.value == pkg.dependencies) &&
      (info.themes.Some? <==> pkg.themes != []) &&
      (info.themes.Some? ==> info.themes.value == pkg.themes)
    ensures pkg.projectType == Module ==>
      InfoMachineName(pkg, profile) == profile.machineName + "_" + pkg.machineName &&
      InfoFile(pkg, profile).body.info.name == Some(profile.name + " " + pkg.name)
    ensures pkg.projectType == Profile ==>
      InfoMachineName(pkg, profile) == pkg.machineName &&
      InfoFile(pkg, profile).body.info.name == KeepString(Some(pkg.name))
  {
    assert !PhpEmpty(profile.name + " " + pkg.name) by {
      assert |profile.name + " " + pkg.name| >= 1;
      if |profile.name + " " + pkg.name| == 1 {
        assert (profile.name + " " + pkg.name)[|profile.name|] == ' ';
      }
    }
  }

  /** Where `addPackageFiles` writes an item: `<profile>_<package>/config/install/<name>.yml`. */
  function ItemPath(profileMachineName: string, packageMachineName: string, name: string): string {
    profileMachineName + "_" + packageMachineName + "/" + ConfigInstallDirectory + "/" + name + ".yml"
  }

  /** The file `addPackageFiles` writes for item `n`, whose record is `item`. */
  function ConfigFile(profileMachineName: string, packageMachineName: string, n: string, item: ConfigItem, isEntity: string -> bool): File {
    File(ItemPath(profileMachineName, packageMachineName, item.name),
         ConfigYaml(if isEntity(n) then item.data.(uuid := None) else item.data))
  }

  /**
   * The item file is named after the item's record name under the
   * package's install directory, and holds the item's data, without its
   * UUID exactly when the item is a configuration entity.
   */
  lemma ConfigFileContents(profileMachineName: string, packageMachineName: string, n: string, item: ConfigItem, isEntity: string -> bool)
    ensures var f := ConfigFile(profileMachineName, packageMachineName, n, item, isEntity);
      f.filename == profileMachineName + "_" + packageMachineName + "/config/install/" + item.name + ".yml" &&
      f.body.ConfigYaml? && f.body.data == item.data.(uuid := f.body.data.uuid) &&
      (f.body.data.uuid.None? <==> isEntity(n) || item.data.uuid.None?)
  {
  }

  /** The inner loop of `addPackageFiles`: one file per listed item, stored under the item's name. */
  function AddConfigFiles(pkg: Package, profile: Package, items: Dict<ConfigItem>, names: seq<string>, isEntity: string -> bool): (p: Package)
    requires pkg.files.Valid() && forall n :: n in names ==> n in items.vals
    ensures p.files.Valid()
    decreases |names|
  {
    if names == [] then pkg
    else
      var p0 := AddConfigFiles(pkg, profile, items, names[..|names| - 1], isEntity);
      var n := names[|names| - 1];
      p0.(files := p0.files.Put(n, ConfigFile(profile.machineName, pkg.machineName, n, items.vals[n], isEntity)))
  }

  /** The `i`-th pass of the inner loop writes the `i`-th item's file. */
  lemma AddConfigFilesPrefixStep(pkg: Package, profile: Package, items: Dict<ConfigItem>, names: seq<string>, isEntity: string -> bool, i: nat)
    requires pkg.files.Valid() && (forall n :: n in names ==> n in items.vals) && i < |names|
    ensures var p0 := AddConfigFiles(pkg, profile, items, names[..i], isEntity);
      names[i] in items.vals &&
      AddConfigFiles(pkg, profile, items, names[..i + 1], isEntity) ==
        p0.(files := p0.files.Put(names[i], ConfigFile(profile.machineName, pkg.machineName, names[i], items.vals[names[i]], isEntity)))
  {
    assert names[..i + 1][..i] == names[..i];
  }

  /** Only the file list changes, and the files under keys not listed are kept. */
  lemma {:induction false} AddConfigFilesEffect(pkg: Package, profile: Package, items: Dict<ConfigItem>, names: seq<string>, isEntity: string -> bool)
    requires pkg.files.Valid() && forall n :: n in names ==> n in items.vals
    ensures var p := AddConfigFiles(pkg, profile, items, names, isEntity);
      p == pkg.(files := p.files) &&
      (forall f :: f in p.files.vals <==> f in pkg.files.vals || f in names) &&
      (forall n :: n in names ==> p.files.vals[n] == ConfigFile(profile.machineName, pkg.machineName, n, items.vals[n], isEntity)) &&
      (forall f :: f in pkg.files.vals && f !in names ==> p.files.vals[f] == pkg.files.vals[f])
    decreases |names|
  {
    if names != [] {
      AddConfigFilesEffect(pkg, profile, items, names[..|names| - 1], isEntity);
      assert forall f :: f in names <==> f in names[..|names| - 1] || f == names[|names| - 1] by {
        assert names == names[..|names| - 1] + [names[|names| - 1]];
      }
    }
  }

  /** `addPackageFiles` for one package: nothing for a package without items. */
  function RenderPackage(pkg: Package, profile: Package, items: Dict<ConfigItem>, isEntity: string -> bool): (p: Package)
    requires pkg.files.Valid() && forall n :: n in pkg.config ==> n in items.vals
    ensures p.files.Valid()
  {
    if pkg.config == [] then pkg
    else AddConfigFiles(AddInfoFile(pkg, profile), profile, items, pkg.config, isEntity)
  }

  /**
   * A package without items is left as it is. A package with items gains
   * its manifest under `info` and, under each item's name, that item's
   * file at `<profile>_<package>/config/install/<name>.yml` holding the
   * item's data, the site-specific UUID removed for configuration entities;
   * only its files change.
   */
  lemma RenderPackageFiles(pkg: Package, profile: Package, items: Dict<ConfigItem>, isEntity: string -> bool)
    requires pkg.files.Valid() && forall n :: n in pkg.config ==> n in items.vals
    ensures pkg.config == [] ==> RenderPackage(pkg, profile, items, isEntity) == pkg
    ensures pkg.config != [] ==>
      var p := RenderPackage(pkg, profile, items, isEntity);
      p == pkg.(files := p.files) &&
      (forall f :: f in p.files.vals <==> f in pkg.files.vals || f == InfoKey || f in pkg.config) &&
      (InfoKey !in pkg.config ==> p.files.vals[InfoKey] == InfoFile(pkg, profile)) &&
      forall n :: n in pkg.config ==> p.files.vals[n] == ConfigFile(profile.machineName, pkg.machineName, n, items.vals[n], isEntity)
  {
    if pkg.config != [] {
      AddConfigFilesEffect(AddInfoFile(pkg, profile), profile, items, pkg.config, isEntity);
    }
  }

  /** `addPackageFiles()`: every package rendered, keys and order unchanged. */
  function RenderPackages(packages: Dict<Package>, profile: Package, items: Dict<ConfigItem>, isEntity: string -> bool): (d: Dict<Package>)
    requires forall k :: k in packages.vals ==> packages.vals[k].files.Valid()
    requires forall k, n :: k in packages.vals && n in packages.vals[k].config ==> n in items.vals
    ensures d.keys == packages.keys && (forall k :: k in d.vals <==> k in packages.vals)
    ensures forall k :: k in d.vals ==> d.vals[k].files.Valid()
  {
    Dict(packages.keys, map k | k in packages.vals :: RenderPackage(packages.vals[k], profile, items, isEntity))
  }

  /** The directory package files are nested under inside the profile. */
  function NestPrefix(profileMachineName: string): string {
    profileMachineName + "/modules/custom/"
  }

  /** The path rewrite of `addProfileFiles` for one package. */
  function NestFiles(pkg: Package, prefix: string): (p: Package)
    ensures p == pkg.(files := p.files) && p.files.keys == pkg.files.keys
    ensures forall f :: f in p.files.vals <==> f in pkg.files.vals
    ensures forall f :: f in pkg.files.vals ==>
      p.files.vals[f] == pkg.files.vals[f].(filename := prefix + pkg.files.vals[f].filename)
  {
    pkg.(files := Dict(pkg.files.keys, map f | f in pkg.files.vals :: pkg.files.vals[f].(filename := prefix + pkg.files.vals[f].filename)))
  }

  /** The path rewrite of `addProfileFiles` over every package. */
  function NestPackages(packages: Dict<Package>, prefix: string): (d: Dict<Package>)
    ensures d.keys == packages.keys && (forall k :: k in d.vals <==> k in packages.vals)
  {
    Dict(packages.keys, map k | k in packages.vals :: NestFiles(packages.vals[k], prefix))
  }

  /** The packages and the profile after `prepareFiles($add_profile)`. */
  datatype Prepared = Prepared(packages: Dict<Package>, profile: Package)

  /** `prepareFiles`: render package files, then, for a profile, nest them and add the profile's manifest. */
  function PrepareFiles(packages: Dict<Package>, profile: Package, items: Dict<ConfigItem>, isEntity: string -> bool, addProfile: bool): Prepared
    requires profile.files.Valid() && forall k :: k in packages.vals ==> packages.vals[k].files.Valid()
    requires forall k, n :: k in packages.vals && n in packages.vals[k].config ==> n in items.vals
  {
    var rendered := RenderPackages(packages, profile, items, isEntity);
    if addProfile then Prepared(NestPackages(rendered, NestPrefix(profile.machineName)), AddInfoFile(profile, profile))
    else Prepared(rendered, profile)
  }

  /**
   * With a profile, every file of every package, the freshly rendered item
   * files included, ends up under `<profile>/modules/custom/`; without a
   * profile the rendered files stay where they are and the profile is
   * untouched; with one, the profile gains its own manifest.
   */
  lemma PrepareNestsEveryPackageFile(packages: Dict<Package>, profile: Package, items: Dict<ConfigItem>, isEntity: string -> bool,
                                     k: string, n: string)
    requires profile.files.Valid() && forall k :: k in packages.vals ==> packages.vals[k].files.Valid()
    requires forall k, n :: k in packages.vals && n in packages.vals[k].config ==> n in items.vals
    requires k in packages.vals && n in packages.vals[k].config
    ensures var p := PrepareFiles(packages, profile, items, isEntity, true).packages.vals[k];
      n in p.files.vals &&
      p.files.vals[n].filename == NestPrefix(profile.machineName) + ItemPath(profile.machineName, packages.vals[k].machineName, items.vals[n].name)
    ensures var p := PrepareFiles(packages, profile, items, isEntity, false).packages.vals[k];
      n in p.files.vals &&
      p.files.vals[n].filename == ItemPath(profile.machineName, packages.vals[k].machineName, items.vals[n].name)
    ensures PrepareFiles(packages, profile, items, isEntity, false).profile == profile
    ensures PrepareFiles(packages, profile, items, isEntity, true).profile.files.vals[InfoKey] == InfoFile(profile, profile)
  {
    var pkg := packages.vals[k];
    RenderPackageFiles(pkg, profile, items, isEntity);
    var rendered := RenderPackages(packages, profile, items, isEntity);
    assert rendered.vals[k] == RenderPackage(pkg, profile, items, isEntity);
    var nested := NestPackages(rendered, NestPrefix(profile.machineName));
    assert nested.vals[k] == NestFiles(rendered.vals[k], NestPrefix(profile.machineName));
  }

  /**
   * The order matters: nesting first and rendering afterwards would leave
   * every item file of a package with items outside the profile's
   * directory, so it would differ from what `prepareFiles` produces.
   */
  lemma ReversedOrderLosesNesting(pkg: Package, profile: Package, items: Dict<ConfigItem>, isEntity: string -> bool, n: string)
    requires pkg.files.Valid() && (forall m :: m in pkg.config ==> m in items.vals) && n in pkg.config
    ensures var prefix := NestPrefix(profile.machineName);
      var right := NestFiles(RenderPackage(pkg, profile, items, isEntity), prefix);
      var wrong := RenderPackage(NestFiles(pkg, prefix), profile, items, isEntity);
      n in right.files.vals && n in wrong.files.vals &&
      right.files.vals[n].filename == prefix + wrong.files.vals[n].filename &&
      right.files.vals[n].filename != wrong.files.vals[n].filename
  {
    var prefix := NestPrefix(profile.machineName);
    var nestedFirst := NestFiles(pkg, prefix);
    RenderPackageFiles(pkg, profile, items, isEntity);
    RenderPackageFiles(nestedFirst, profile, items, isEntity);
    var right := NestFiles(RenderPackage(pkg, profile, items, isEntity), prefix);
    var wrong := RenderPackage(nestedFirst, profile, items, isEntity);
    assert |right.files.vals[n].filename| > |wrong.files.vals[n].filename|;
  }
}

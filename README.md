# Configuration packager: assignment and rendering engine

This project models the core of `ConfigPackagerManager`, the service that
splits a site's configuration into installable packages. The service keeps
three things in fields:

- the configuration collection: item name to item record, with the item's
  short name, data, reverse dependencies and owning package;
- the packages: machine name to package record, with the listed items, the
  module dependencies and the rendered files;
- the install profile.

Its operations work in stages:

- Build the collection and add reverse dependencies (`initConfigCollection`).
- Create packages (`initPackage`, `initCorePackage`, `getProject`, `getName`).
- Assign items to packages explicitly (`assignConfigPackage`), by delimited
  name patterns (`assignConfigByPattern`), or by one hop along reverse
  dependencies (`assignConfigDependents`).
- Render each package's `.info.yml` manifest and one YAML file per item
  (`addInfoFile`, `addPackageFiles`).
- Nest package files inside the profile (`addProfileFiles`), in the order
  `prepareFiles` fixes.
- Select the packages handed to the writers (`generate`).

Layout, one module per file:

- `php_arrays.dfy` (`PhpArrays`): PHP ordered arrays as `Dict` (a key list
  plus a map), `empty()`, `array_unique`, byte-wise string order and `krsort`.
- `records.dfy` (`Records`): item, package, file and manifest records, and
  `getProject`/`getName`.
- `dependency_graph.dfy` (`DependencyGraph`): the reverse-dependency loop of
  `initConfigCollection`.
- `assignment.dfy` (`Assignment`): `assignConfigPackage`, with the registry
  invariant it keeps.
- `pattern_assignment.dfy` (`PatternAssignment`): `assignConfigByPattern`.
- `dependent_assignment.dfy` (`DependentAssignment`): `assignConfigDependents`.
- `package_registry.dfy` (`PackageRegistry`): `reset`, `initPackage` and
  `initCorePackage`.
- `rendering.dfy` (`Rendering`): manifests, item files, nesting and `prepareFiles`.
- `list_filters.dfy` (`ListFilters`): the filters of `getModuleList`,
  `getConfigByType` and `generate`.
- `manager.dfy` (`Manager`): the class `ConfigPackagerManager`. Its fields are
  updated in place by methods with loops. Each method is proved equal to the
  function of the same name in the modules above, and the properties are
  proved about those functions.

Some modelling choices:

- The owner field is `Option<string>`. PHP's `empty()` on it holds for NULL,
  `""` and `"0"` (`Unset`).
- The registry invariant `Consistent` has three parts:
  - package names are not empty, and no package lists an item or a dependency twice;
  - an item is listed by package `p` exactly when its owner is `p`;
  - every owner exists.
- On a consistent registry the second half of `assignConfigPackage`'s guard
  (the item is not already listed) is implied by the first, and the
  lemmas use that.

## Model

| member | source | states |
|---|---|---|
| PhpArrays.Unique | src/ConfigPackagerManager.php:245 | `array_unique(array_merge(..))` is duplicate-free and holds exactly the elements of the merged list |
| PhpArrays.UniqueKeepsDistinctPrefix | src/ConfigPackagerManager.php:245 | merging into a duplicate-free dependency list keeps that list, in order, as the front of the result |
| PhpArrays.KeysDescending | src/ConfigPackagerManager.php:259 | `krsort` leaves the keys in descending byte order, as a permutation of the original keys |
| Records.DefaultNameOfMachineName | src/ConfigPackagerManager.php:484-490 | the default name keeps the length, turns exactly the underscores into spaces, upper-cases each word's first letter and nothing else, and the machine name can be read back from it |
| Records.GetNameDescribes | src/ConfigPackagerManager.php:484-490 | the name is never empty when the machine name is not; a derived name (none or an empty one given) reads back as the machine name, spaces to underscores and lower case |
| PackageRegistry.ClearOwners | src/ConfigPackagerManager.php:126-128 | clearing owners keeps every key, in order |
| PackageRegistry.ResetEffect | src/ConfigPackagerManager.php:122-131 | after `reset` there are no packages, no item has an owner, every other field of every item is unchanged, the registry is consistent, and resetting twice is resetting once; with no packages, dependencies trivially come from items |
| PackageRegistry.InitPackageEffect | src/ConfigPackagerManager.php:214-218 | an existing package is never overwritten; a new one is a module with core `8.x`, the derived name and description, empty lists and no files, and is added last; no other package changes and consistency is kept; every package's dependencies stay exactly those of its items |
| PackageRegistry.LoadedConsistent | src/ConfigPackagerManager.php:594-637 | the registry just after loading, with packages that list no items yet, is consistent and no item has an owner: the starting point of every sequence of assignment calls; with no dependencies yet, every package's dependencies are those of its (no) items |
| PackageRegistry.InitCorePackageEffect | src/ConfigPackagerManager.php:223-228 | afterwards a `core` package exists; a new one carries the fixed name and description; an existing one leaves the registry unchanged |
| DependencyGraph.AddReverseEdges | src/ConfigPackagerManager.php:628-632 | the inner loop changes only `dependents` fields, and no keys |
| DependencyGraph.BuildDependents | src/ConfigPackagerManager.php:626-634 | the dependents loop changes only `dependents` fields, and no keys |
| DependencyGraph.AddReverseEdgesAppends | src/ConfigPackagerManager.php:628-632 | each present target gains the source's name once per time it is listed, appended at the end |
| DependencyGraph.BuildDependentsAppends | src/ConfigPackagerManager.php:626-634 | each item's dependents become its loaded dependents followed by the reverse edges, in collection order |
| DependencyGraph.ReverseEdgesMembers | src/ConfigPackagerManager.php:626-634 | a name is among the reverse edges into `b` exactly when it is a visited item that lists `b` as a configuration dependency |
| DependencyGraph.DependentsIff | src/ConfigPackagerManager.php:626-634 | over freshly loaded records, `x` is a dependent of `b` if and only if `x` is an item listing `b`, and nothing else changes |
| Assignment.AssignItemEffect | src/ConfigPackagerManager.php:236-246 | an unowned item is given the package, appended to its list, and the package's dependencies become the duplicate-free union with the old list in front; an owned item changes nothing |
| Assignment.AssignItemFrame | src/ConfigPackagerManager.php:236-246 | one step changes only that item's owner, and only the target package's item list and dependencies |
| Assignment.AssignItemOwnershipOnly | src/ConfigPackagerManager.php:236-246 | one step changes only owners, item lists and dependencies, and keeps every key |
| Assignment.AssignItemOwner | src/ConfigPackagerManager.php:236-241 | after one step the item has the package exactly when it was unowned; every other item keeps its owner |
| Assignment.AssignItemConsistent | src/ConfigPackagerManager.php:236-246 | one step keeps the registry consistent |
| Assignment.AssignSettles | src/ConfigPackagerManager.php:233-250 | after the call every listed item is owned or already listed by the package |
| Assignment.AssignSettledIdentity | src/ConfigPackagerManager.php:236 | assigning only items the guard rejects changes nothing |
| Assignment.AssignIdempotent | src/ConfigPackagerManager.php:233-250 | calling `assignConfigPackage` twice with the same arguments leaves the same state as calling it once |
| Assignment.AssignConsistent | src/ConfigPackagerManager.php:233-250 | the call keeps the registry consistent, so no item is ever listed by two packages |
| Assignment.Unowned | src/ConfigPackagerManager.php:236 | the names the guard lets through on a consistent registry: exactly the listed names without an owner |
| Assignment.AssignOwners | src/ConfigPackagerManager.php:233-250 | exactly the listed items that had no owner get the package as owner; every other item is unchanged |
| Assignment.AssignOtherPackages | src/ConfigPackagerManager.php:233-250 | every other package is unchanged, and of the target only the item list and the dependencies change |
| Assignment.AssignAppends | src/ConfigPackagerManager.php:233-250 | the package's items become its old items followed by the unowned listed names, once each, in first-listed order |
| Assignment.AssignDependencies | src/ConfigPackagerManager.php:233-250 | after the call the package's dependencies keep the old list in front, hold no duplicate, and contain exactly the old ones plus the module dependencies of the listed items that had no owner |
| Assignment.AssignItemDependenciesFromItems | src/ConfigPackagerManager.php:236-246 | one step keeps every package's dependencies exactly the module dependencies of the items it lists |
| Assignment.AssignDependenciesFromItems | src/ConfigPackagerManager.php:233-250 | the whole call keeps every package's dependencies exactly the module dependencies of the items it lists |
| Assignment.AssignOwnershipOnly | src/ConfigPackagerManager.php:233-250 | the whole call changes only owners, item lists and dependencies, and keeps every key |
| Assignment.Assign | src/ConfigPackagerManager.php:233-250 | `assignConfigPackage` as a function of the registry: keeps both key lists in order; its effect is stated by the lemmas above |
| Assignment.Exclusive | src/ConfigPackagerManager.php:236-240 | on a consistent registry no item is listed by two packages |
| PatternAssignment.PatternMatchesIff | src/ConfigPackagerManager.php:263 | the match holds exactly when `.short_name.` splits into text, a delimiter from `_-.`, the pattern, a delimiter and text |
| PatternAssignment.Claimed | src/ConfigPackagerManager.php:262-266 | the keys one pattern claims are exactly the visited keys, unowned in the snapshot, whose short name matches |
| PatternAssignment.PatternPassIsAssign | src/ConfigPackagerManager.php:262-266 | one pattern's inner loop is `assignConfigPackage` over the keys it claims |
| PatternAssignment.ClaimedDescending | src/ConfigPackagerManager.php:259-266 | the claimed keys follow the descending key order, without repeats |
| PatternAssignment.SinglePatternAppends | src/ConfigPackagerManager.php:255-269 | one pattern appends every unowned matching item once, in descending key order, after the package's existing items |
| PatternAssignment.FirstClaimIsFirst | src/ConfigPackagerManager.php:260-268 | the claiming package is that of the lowest-numbered pattern whose package exists and which matches, and there is none exactly when no pattern does |
| PatternAssignment.PatternPassConsistent | src/ConfigPackagerManager.php:261-267 | one pattern keeps the registry consistent |
| PatternAssignment.PatternPassOwner | src/ConfigPackagerManager.php:261-267 | one pattern gives its package to exactly the visited eligible keys that are still unowned |
| PatternAssignment.PatternLoopOwner | src/ConfigPackagerManager.php:260-268 | after all patterns, an unowned item belongs to the first claiming pattern's package, and an owned item keeps its owner |
| PatternAssignment.ByPatternOwner | src/ConfigPackagerManager.php:255-269 | `assignConfigByPattern` keeps consistency; each item's whole new record is the old one with only the owner changed: an owned item keeps its owner, an unowned one goes to the first listed matching pattern whose package exists, else stays unowned; every package keeps every field but its item list and dependencies |
| PatternAssignment.PatternPassOwnershipOnly | src/ConfigPackagerManager.php:261-267 | one pattern changes only owners, item lists and dependencies |
| PatternAssignment.PatternLoopOwnershipOnly | src/ConfigPackagerManager.php:260-268 | all patterns together change only owners, item lists and dependencies |
| PatternAssignment.PatternLoopConsistent | src/ConfigPackagerManager.php:260-268 | all patterns together keep the registry consistent |
| PatternAssignment.ByPatternDependencies | src/ConfigPackagerManager.php:255-269 | after `assignConfigByPattern` every package's dependencies are still exactly the module dependencies of its items |
| PatternAssignment.AssignByPattern | src/ConfigPackagerManager.php:255-269 | `assignConfigByPattern` as a function of the registry: keeps both key lists in order; its effect is stated by `ByPatternOwner` and `ByPatternDependencies` |
| PatternAssignment.FirstListedRuleWins | src/ConfigPackagerManager.php:257-266 | with patterns `event` then `event_registration`, the item `event_registration` goes to `event`: the first listed pattern wins, not the more specific one |
| DependentAssignment.FirstSource | src/ConfigPackagerManager.php:278-281 | the first visited item that was owned at the start and lists the item as a dependent; none exactly when no visited item does |
| DependentAssignment.FirstSourceSnoc | src/ConfigPackagerManager.php:278-281 | visiting one more item changes the first source only when there was none |
| DependentAssignment.PropagateFromConsistent | src/ConfigPackagerManager.php:279-285 | one owner's inner loop keeps consistency |
| DependentAssignment.PropagateFromOwner | src/ConfigPackagerManager.php:279-285 | one owner's inner loop gives its package to exactly its dependents that were unowned in the snapshot and still are |
| DependentAssignment.PropagateLoopConsistent | src/ConfigPackagerManager.php:278-287 | the outer loop keeps consistency |
| DependentAssignment.PropagateLoopOwner | src/ConfigPackagerManager.php:278-287 | after the outer loop an unowned item has the snapshot owner of its first source, and every other item keeps its owner |
| DependentAssignment.DependentsOwner | src/ConfigPackagerManager.php:274-290 | `assignConfigDependents` keeps consistency; each item's whole new record is the old one with only the owner changed: an unowned item takes the owner its first visited source had when the call began, owned items keep theirs; an empty list visits every key in collection order; every package keeps every field but its item list and dependencies |
| DependentAssignment.PropagateFromOwnershipOnly | src/ConfigPackagerManager.php:279-285 | one owner's inner loop changes only owners, item lists and dependencies |
| DependentAssignment.PropagateLoopOwnershipOnly | src/ConfigPackagerManager.php:278-287 | the outer loop changes only owners, item lists and dependencies |
| DependentAssignment.DependentsDependencies | src/ConfigPackagerManager.php:274-290 | after `assignConfigDependents` every package's dependencies are still exactly the module dependencies of its items |
| DependentAssignment.AssignDependents | src/ConfigPackagerManager.php:274-290 | `assignConfigDependents` as a function of the registry: keeps both key lists in order; its effect is stated by `DependentsOwner` and `DependentsDependencies` |
| DependentAssignment.OneHop | src/ConfigPackagerManager.php:274-290 | an item none of whose visited sources was owned at the start stays unowned, even when a source gains an owner during the call |
| DependentAssignment.DependentJoinsOwner | tests/src/Kernel/FeaturesAssignTest.php:165-181 | an unowned dependent of an owned item, and of no other item, joins that item's package |
| Rendering.DropEmpty | src/ConfigPackagerManager.php:387 | `array_filter` drops exactly the empty values of all eight keys, keeps every other value unchanged and leaves no empty value |
| Rendering.InfoFileRendering | src/ConfigPackagerManager.php:334-389 | the manifest file name is `m/m.info.yml` and the record keeps only the standard keys plus `package`, set to the profile name, and `config_devel`, present exactly when the package lists items. For a module, the profile prefixes the machine name and the name. Empty values are dropped |
| Rendering.ConfigFileContents | src/ConfigPackagerManager.php:453-462 | an item file lives at `<profile>_<package>/config/install/<name>.yml` and holds the item's data, without the UUID exactly when the item is a configuration entity |
| Rendering.AddConfigFilesEffect | src/ConfigPackagerManager.php:453-463 | only the file list changes: every listed item gets its file under its name, and other files are kept |
| Rendering.RenderPackageFiles | src/ConfigPackagerManager.php:446-465 | a package without items is unchanged; one with items gains its manifest under `info` and one file per item, and nothing else about it changes |
| Rendering.RenderPackage | src/ConfigPackagerManager.php:449-464 | the rendering of one package keeps its file list well formed; its contents are stated by `RenderPackageFiles` |
| Rendering.RenderPackages | src/ConfigPackagerManager.php:446-465 | rendering keeps every package key, in order |
| Rendering.NestFiles | src/ConfigPackagerManager.php:398-400 | every file of a package is kept under its key, with the profile directory put in front of its file name |
| Rendering.NestPackages | src/ConfigPackagerManager.php:397-405 | nesting keeps every package key, in order |
| Rendering.PrepareNestsEveryPackageFile | src/ConfigPackagerManager.php:645-652 | with a profile, every rendered item file ends up under `<profile>/modules/custom/` and the profile gains its manifest; without one, files stay where rendered and the profile is untouched |
| Rendering.ReversedOrderLosesNesting | src/ConfigPackagerManager.php:645-652 | nesting before rendering would leave each item file outside the profile directory, so the order is needed |
| ListFilters.AddPrefixedMembers | src/ConfigPackagerManager.php:522-528 | the namespace loop adds exactly the modules whose names start with the namespace, keeping what was already selected in front |
| ListFilters.ModuleListMembers | src/ConfigPackagerManager.php:515-532 | `getModuleList` returns all modules when no filter is given, else exactly the named module and those under the namespace, each with its own extension, the named one first |
| ListFilters.SimpleConfigNames | src/ConfigPackagerManager.php:578-586 | the simple configuration is exactly the stored names that start with no entity prefix |
| ListFilters.Restrict | src/ConfigPackagerManager.php:699 | `array_intersect_key` keeps exactly the packages whose names are requested, unchanged; its keys are the package keys with the unrequested ones removed (`Selected`), so package order is kept |
| ListFilters.RequestedPackages | src/ConfigPackagerManager.php:697-700 | no names select every package; otherwise exactly the existing named ones, unchanged and in package order |
| ListFilters.UnknownRequestSelectsAll | src/ConfigPackagerManager.php:732-736 | naming only packages that do not exist selects nothing, and the writers then fall back to every package |
| Manager.AddDependent | src/ConfigPackagerManager.php:628-632 | the inner dependents loop computes `AddReverseEdges` |
| Manager.LinkDependents | src/ConfigPackagerManager.php:626-634 | the outer dependents loop computes `BuildDependents` over the loaded records |
| Manager.AssignNames | src/ConfigPackagerManager.php:235-248 | the loop of `assignConfigPackage` computes `Assign` |
| Manager.ClearOwnerLoop | src/ConfigPackagerManager.php:126-128 | the by-reference loop of `reset` clears every owner |
| Manager.WriteConfigFiles | src/ConfigPackagerManager.php:453-463 | the item-file loop computes `AddConfigFiles` |
| Manager.AddFiles | src/ConfigPackagerManager.php:449-464 | the body for one package computes `RenderPackage` |
| Manager.RenderEach | src/ConfigPackagerManager.php:446-465 | the by-reference loop over packages computes `RenderPackages` |
| Manager.PrefixFiles | src/ConfigPackagerManager.php:398-400 | the inner path loop computes `NestFiles` |
| Manager.PrefixEach | src/ConfigPackagerManager.php:397-405 | the outer path loop computes `NestPackages` |
| Manager.ApplyRule | src/ConfigPackagerManager.php:261-267 | one pattern's inner loop computes `PatternPass` and keeps file lists valid |
| Manager.ApplyRules | src/ConfigPackagerManager.php:260-268 | the loop over patterns computes `PatternLoop` |
| Manager.PassToDependents | src/ConfigPackagerManager.php:279-285 | one owner's inner loop computes `PropagateFrom` |
| Manager.PassOwners | src/ConfigPackagerManager.php:278-287 | the outer loop computes `PropagateLoop` |
| Manager.AssignKeepsFiles | src/ConfigPackagerManager.php:233-250 | assignment leaves every package's files well formed |
| Manager.RenderKeepsConsistent | src/ConfigPackagerManager.php:444-468 | rendering changes only files, so the registry stays consistent and dependencies stay those of the items |
| Manager.NestKeepsConsistent | src/ConfigPackagerManager.php:394-410 | nesting changes only files, so the registry stays consistent and dependencies stay those of the items |
| Manager.ConfigPackagerManager.constructor | src/ConfigPackagerManager.php:108-117 | no packages and an empty collection; the profile is `getProject` of the stored settings with type `profile`; the new object is `Sound` (its loaded registry is consistent and every package's dependencies are exactly those of its items) |
| Manager.ConfigPackagerManager.SoundState | src/ConfigPackagerManager.php:233-290 | in a `Sound` state every owner is an existing package, every listed item is in the collection (what `AssignConfigDependents`, `AddPackageFiles`, `PrepareFiles` and `Generate` require), no item is listed by two packages, and a package depends on exactly the modules its listed items depend on |
| Manager.ConfigPackagerManager.LoadCollection | src/ConfigPackagerManager.php:594-637 | an empty collection is loaded and linked once; a loaded one is kept; packages and profile are unchanged; `Sound` is kept |
| Manager.ConfigPackagerManager.Reset | src/ConfigPackagerManager.php:122-131 | the new state is `ResetRegistry` of the old one; the profile is unchanged; the object is `Sound` afterwards |
| Manager.ConfigPackagerManager.InitPackage | src/ConfigPackagerManager.php:214-218 | the new state is `InitPackage` of the old one; a `Sound` object stays `Sound` when the new name is not empty in PHP's sense |
| Manager.ConfigPackagerManager.InitCorePackage | src/ConfigPackagerManager.php:223-228 | the new state is `InitCorePackage` of the old one; `Sound` is kept |
| Manager.ConfigPackagerManager.AssignConfigPackage | src/ConfigPackagerManager.php:233-250 | the new state is `Assign` from the loaded collection; the profile is unchanged; `Sound` is kept |
| Manager.ConfigPackagerManager.AssignConfigByPattern | src/ConfigPackagerManager.php:255-269 | the new state is `AssignByPattern` from the loaded collection; `Sound` is kept |
| Manager.ConfigPackagerManager.AssignConfigDependents | src/ConfigPackagerManager.php:274-290 | the new state is `AssignDependents` from the loaded collection; `Sound` is kept |
| Manager.ConfigPackagerManager.AddPackageFiles | src/ConfigPackagerManager.php:444-468 | packages become `RenderPackages` of the old ones over the loaded collection; `Sound` is kept |
| Manager.ConfigPackagerManager.AddProfileFiles | src/ConfigPackagerManager.php:394-410 | every package file is nested under the profile, and the profile gains its own manifest; `Sound` is kept |
| Manager.ConfigPackagerManager.PrepareFiles | src/ConfigPackagerManager.php:645-652 | packages and profile become `PrepareFiles` of the old ones: render first, then nest when a profile is built; `Sound` is kept |
| Manager.ConfigPackagerManager.Generate | src/ConfigPackagerManager.php:691-700 | files are prepared, and the writers get the requested packages, or every package when that selection is empty; `Sound` is kept |

## Left out

- Loading from storage is left out. That covers the entity-type walk of
  `initConfigCollection` (`getConfigTypes`, the entity branch of
  `getConfigByType`, labels, `strnatcasecmp`) and `getExtensionConfig`. The
  loaded records are the constructor parameter `stored`, and the model
  starts from them.
- YAML serialisation is a foreign library. A file body is the value handed
  to the serialiser (`InfoYaml` or `ConfigYaml`), not text, up to the array
  keys of the lists in it (next line).
- Records.ItemData reduces an item's data to the keys the engine reads:
  the module and configuration dependencies and the UUID. Every other key,
  including the other entries under `dependencies` (`enforced`, `theme`,
  `content`), is kept as an opaque string map, and the nesting and key
  order that `Yaml::encode` writes are not modelled.
- PhpArrays.Unique and Assignment.AssignItem model `array_unique` as a list.
  PHP keeps the surviving keys, so `array_unique(array_merge(['node'],
  ['node', 'user']))` is `[0 => 'node', 2 => 'user']`. A package's
  `dependencies` can therefore reach `Yaml::encode` with gaps in its keys,
  and the serialiser then writes a mapping instead of a list. The model
  keeps the values and their order but not these keys.
- `t()` translation is left out. Descriptions are the untranslated English
  text with the name substituted as it is. `t()` escapes an `@` placeholder
  as HTML, so a name holding `&`, `<`, `>` or a quote gives a different
  description; the model does not escape.
- Configuration-entity lookup for UUID removal is a foreign call. It is the
  constructor parameter `isEntity`.
- The `add_standard` profile merge reads files from disk, so it is left out.
  That covers the dependency and theme merge in `addInfoFile` and the
  `.install`/`.profile` copies in `addProfileFiles`. `AddProfileFiles` and
  `InfoFileRendering` describe the setting switched off.
- The writers are tar and filesystem I/O, and are left out:
  `generateArchive`, `archivePackage`, `archiveSuccess`, `archiveFailure`,
  `archiveFile`, `generateWrite`, `writePackage`, `writeSuccess`,
  `writeFailure` and `writeFile`. The same goes for the messages and logging
  in `generate`. `Generate` returns the packages the writers would receive,
  including their fallback to all packages.
- The getters, the setters `setConfigCollection`, `setPackages` and
  `setProfile`, and `assignProfile` only read or replace a field and are not
  modelled separately. `setAssigner` stores the assigner and then calls
  `reset()`, which `Reset` models; the assigner itself is not part of this
  model. `initProfile` is part of the constructor. A setter can install any
  state, so `Sound` is promised only for states reached through the
  modelled methods.
- Patterns are spliced into a regular expression unescaped. The model
  matches them as literal text, so a pattern holding regex metacharacters
  is not modelled.
- `krsort` is modelled as byte-wise string order. PHP's comparison of
  numeric-string keys is not.
- PHP integer keys are not modelled: every array key is a string.
- Manager.ConfigPackagerManager.AssignConfigPackage requires the package to
  exist and every name to be in the collection. PHP would create empty
  entries for unknown names instead.
- Manager.ConfigPackagerManager.AssignConfigDependents requires every owner
  in the collection to be an existing package. PHP would create an empty
  package entry otherwise.
- Assignment.AssignItem compares names strictly where the guard uses
  `in_array` with loose comparison. The two differ only for numeric-string
  configuration names, which are not modelled.
- Manager.ConfigPackagerManager.InitPackage keeps `Sound` only when the new
  package name is not empty in PHP's sense, for the reason on the next line.
- Assignment.AssignConsistent and the other consistency lemmas assume
  package names that PHP does not consider empty. A package named `""` or
  `"0"` cannot be an owner, because `empty()` treats that owner as
  unassigned.
- The comment next to `krsort` in `assignConfigByPattern` says a child
  package claims items before its parent. The code loops over the patterns
  outermost, so the first listed matching pattern wins whatever the key
  order. The model follows the code (`FirstListedRuleWins`).

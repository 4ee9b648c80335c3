/**
 * The records the packager keeps in its two maps and its profile field:
 * configuration items, packages (and the profile, a package of type
 * `profile`), the files a package renders to, and the default package record
 * built by `getProject` and `getName`.
 */
module Records {
  import opened PhpArrays

  /**
   * The `data` payload of a configuration item, reduced to the keys the
   * engine reads; `None` stands for a key that is not set.
   */
  datatype ItemData = ItemData(
    moduleDependencies: Option<seq<string>>,  // data.dependencies.module
    configDependencies: Option<seq<string>>,  // data.dependencies.config
    uuid: Option<string>,                     // data.uuid, site-specific
    rest: map<string, string>)                // every other key, opaque to the engine

  /** One entry of the configuration collection. */
  datatype ConfigItem = ConfigItem(
    name: string,
    shortName: string,
    labelText: string,
    configType: string,
    data: ItemData,
    dependents: seq<string>,
    package: Option<string>)

  datatype ProjectType = Module | Profile

  /** The `type` string a project record carries. */
  function TypeName(t: ProjectType): (s: string)
    ensures s == "module" <==> t == Module
    ensures s == "profile" <==> t == Profile
  {
    match t
    case Module => "module"
    case Profile => "profile"
  }

  /**
   * The record an `.info.yml` file serialises, one field per key in the
   * order the keys are written; `None` is a key that is absent.
   */
  datatype InfoRecord = InfoRecord(
    name: Option<string>,
    description: Option<string>,
    projectType: Option<string>,
    core: Option<string>,
    dependencies: Option<seq<string>>,
    themes: Option<seq<string>>,
    package: Option<string>,
    configDevel: Option<seq<string>>)

  /**
   * The contents of a rendered file, kept as the value handed to the YAML
   * serialiser (the serialiser itself is not part of this model).
   */
  datatype FileBody = InfoYaml(info: InfoRecord) | ConfigYaml(data: ItemData)

  datatype File = File(filename: string, body: FileBody)

  /** A package or the profile, with the keys `getProject` gives it. */
  datatype Package = Package(
    machineName: string,
    name: string,
    description: string,
    projectType: ProjectType,
    core: string,
    dependencies: seq<string>,
    themes: seq<string>,
    config: seq<string>,
    files: Dict<File>)

  /** The stored profile settings the profile is initialised from. */
  datatype ProfileSettings = ProfileSettings(machineName: string, name: Option<string>, description: string)

  const CoreCompatibility: string := "8.x"

  /** The delimiters `ucwords` starts a new word after: space, \t, \r, \n, \f, \v. */
  predicate IsWordDelimiter(c: char) {
    c == ' ' || c == '\t' || c == '\r' || c == '\n' || c as int == 12 || c as int == 11
  }

  function ToUpper(c: char): char {
    if 'a' <= c <= 'z' then (c as int - 32) as char else c
  }

  function ToLower(c: char): char {
    if 'A' <= c <= 'Z' then (c as int + 32) as char else c
  }

  /** `str_replace('_', ' ', $s)` */
  function ReplaceUnderscores(s: string): string {
    seq(|s|, i requires 0 <= i < |s| => if s[i] == '_' then ' ' else s[i])
  }

  /** `ucwords($s)`: the first letter of every word upper-cased. */
  function UcWords(s: string): string {
    seq(|s|, i requires 0 <= i < |s| => if i == 0 || IsWordDelimiter(s[i - 1]) then ToUpper(s[i]) else s[i])
  }

  /** The name `getName` derives from a machine name. */
  function DefaultName(machineName: string): string {
    UcWords(ReplaceUnderscores(machineName))
  }

  /** `getName`: the given name unless it is empty, else one derived from the machine name. */
  function GetName(machineName: string, name: Option<string>): string {
    if Unset(name) then DefaultName(machineName) else name.value
  }

  /** `t('@name configuration.', ['@name' => $name])`, untranslated; NULL reads as "". */
  function DefaultDescription(name: Option<string>): string {
    (if name.Some? then name.value else "") + " configuration."
  }

  /** `getProject`: a fresh package or profile record. */
  function GetProject(machineName: string, name: Option<string>, description: string, t: ProjectType): Package {
    Package(
      machineName,
      GetName(machineName, name),
      if PhpEmpty(description) then DefaultDescription(name) else description,
      t,
      CoreCompatibility,
      [], [], [],
      EmptyDict())
  }

  /** Lower-case letters, digits and underscores: the shape of a Drupal machine name. */
  predicate IsMachineName(s: string) {
    forall i :: 0 <= i < |s| ==> ('a' <= s[i] <= 'z') || ('0' <= s[i] <= '9') || s[i] == '_'
  }

  /** The machine name a default name was derived from: spaces back to underscores, lower case. */
  function MachineNameOf(s: string): string {
    seq(|s|, i requires 0 <= i < |s| => if s[i] == ' ' then '_' else ToLower(s[i]))
  }

  /** One character of a default name. */
  lemma DefaultNameAt(m: string, i: int)
    requires IsMachineName(m) && 0 <= i < |m|
    ensures |DefaultName(m)| == |m|
    ensures DefaultName(m)[i] ==
      if m[i] == '_' then ' '
      else if i == 0 || m[i - 1] == '_' then ToUpper(m[i])
      else m[i]
  {
    var r := ReplaceUnderscores(m);
    ReplaceUnderscoresAt(m, i);
    UcWordsAt(r, i);
    if i > 0 {
      ReplaceUnderscoresAt(m, i - 1);
      WordDelimiterOfMachineChar(m[i - 1]);
    }
  }

  lemma ReplaceUnderscoresAt(s: string, i: int)
    requires 0 <= i < |s|
    ensures |ReplaceUnderscores(s)| == |s| && ReplaceUnderscores(s)[i] == if s[i] == '_' then ' ' else s[i]
  {
  }

  lemma UcWordsAt(s: string, i: int)
    requires 0 <= i < |s|
    ensures |UcWords(s)| == |s| && UcWords(s)[i] == if i == 0 || IsWordDelimiter(s[i - 1]) then ToUpper(s[i]) else s[i]
  {
  }

  lemma WordDelimiterOfMachineChar(c: char)
    requires ('a' <= c <= 'z') || ('0' <= c <= '9') || c == '_'
    ensures IsWordDelimiter(if c == '_' then ' ' else c) <==> c == '_'
  {
  }

  lemma DefaultNameShape(m: string)
    requires IsMachineName(m)
    ensures |DefaultName(m)| == |m|
    ensures forall i :: 0 <= i < |m| ==> (DefaultName(m)[i] == ' ' <==> m[i] == '_')
    ensures forall i :: 0 <= i < |m| && m[i] != '_' && (i == 0 || m[i - 1] == '_') ==> DefaultName(m)[i] == ToUpper(m[i])
    ensures forall i :: 0 <= i < |m| && m[i] != '_' && i > 0 && m[i - 1] != '_' ==> DefaultName(m)[i] == m[i]
  {
    forall i | 0 <= i < |m|
      ensures DefaultName(m)[i] == ' ' <==> m[i] == '_'
      ensures m[i] != '_' && (i == 0 || m[i - 1] == '_') ==> DefaultName(m)[i] == ToUpper(m[i])
      ensures m[i] != '_' && i > 0 && m[i - 1] != '_' ==> DefaultName(m)[i] == m[i]
    {
      DefaultNameAt(m, i);
    }
  }

  /**
   * The default name keeps the machine name's length, turns exactly its
   * underscores into spaces, upper-cases the first letter of each word and
   * nothing else, so the machine name can be read back from it.
   */
  lemma DefaultNameOfMachineName(m: string)
    requires IsMachineName(m)
    ensures |DefaultName(m)| == |m|
    ensures forall i :: 0 <= i < |m| ==> (DefaultName(m)[i] == ' ' <==> m[i] == '_')
    ensures forall i :: 0 <= i < |m| && m[i] != '_' && (i == 0 || m[i - 1] == '_') ==> DefaultName(m)[i] == ToUpper(m[i])
    ensures forall i :: 0 <= i < |m| && m[i] != '_' && i > 0 && m[i - 1] != '_' ==> DefaultName(m)[i] == m[i]
    ensures MachineNameOf(DefaultName(m)) == m
  {
    DefaultNameShape(m);
    var d := DefaultName(m);
    forall i | 0 <= i < |m|
      ensures MachineNameOf(d)[i] == m[i]
    {
      DefaultNameAt(m, i);
    }
  }

  /**
   * `getName` never yields an empty name for a non-empty machine name, and a
   * derived name (none given, or an empty one) reads back as the machine name.
   */
  lemma GetNameDescribes(machineName: string, name: Option<string>)
    ensures machineName != [] ==> GetName(machineName, name) != []
    ensures IsMachineName(machineName) && Unset(name) ==> MachineNameOf(GetName(machineName, name)) == machineName
  {
    if IsMachineName(machineName) && Unset(name) {
      DefaultNameOfMachineName(machineName);
    }
  }
}

/**
 * The reverse-dependency builder at the end of `initConfigCollection`: every
 * item that lists another item under `data.dependencies.config` is appended
 * to that item's `dependents`.
 */
module DependencyGraph {
  import opened PhpArrays
  import opened Records

  /** Two collections with the same keys whose records differ at most in `dependents`. */
  ghost predicate OnlyDependentsChange(a: Dict<ConfigItem>, b: Dict<ConfigItem>) {
    a.keys == b.keys &&
    (forall k :: k in a.vals <==> k in b.vals) &&
    forall k :: k in a.vals ==> b.vals[k] == a.vals[k].(dependents := b.vals[k].dependents)
  }

  /**
   * The inner loop: for each name in `targets` that is a key of the
   * collection, append `from` to that item's dependents.
   */
  function AddReverseEdges(m: Dict<ConfigItem>, from: string, targets: seq<string>): (r: Dict<ConfigItem>)
    requires m.Valid()
    ensures r.Valid() && OnlyDependentsChange(m, r)
    decreases |targets|
  {
    if targets == [] then m
    else
      var m' := AddReverseEdges(m, from, targets[..|targets| - 1]);
      var t := targets[|targets| - 1];
      if t in m'.vals then m'.Put(t, m'.vals[t].(dependents := m'.vals[t].dependents + [from])) else m'
  }

  /** The configuration names an item declares it depends on; none when the key is unset. */
  function ConfigDependencies(item: ConfigItem): seq<string> {
    if item.data.configDependencies.Some? then item.data.configDependencies.value else []
  }

  /**
   * The outer loop over the first `|keys|` entries of the collection as it
   * was loaded (`loaded`): each item's forward edges, read from the loaded
   * record, become reverse edges in the collection being built.
   */
  function BuildDependents(loaded: Dict<ConfigItem>, keys: seq<string>): (r: Dict<ConfigItem>)
    requires loaded.Valid() && forall k :: k in keys ==> k in loaded.vals
    ensures r.Valid() && OnlyDependentsChange(loaded, r)
    decreases |keys|
  {
    if keys == [] then loaded
    else
      var m := BuildDependents(loaded, keys[..|keys| - 1]);
      var a := loaded.vals[keys[|keys| - 1]];
      if a.data.configDependencies.Some? then AddReverseEdges(m, a.name, a.data.configDependencies.value) else m
  }

  /** The `j`-th pass of the inner loop handles the `j`-th target. */
  lemma AddReverseEdgesPrefixStep(m: Dict<ConfigItem>, from: string, targets: seq<string>, j: nat)
    requires m.Valid() && j < |targets|
    ensures var m' := AddReverseEdges(m, from, targets[..j]);
      AddReverseEdges(m, from, targets[..j + 1]) ==
      if targets[j] in m'.vals then m'.Put(targets[j], m'.vals[targets[j]].(dependents := m'.vals[targets[j]].dependents + [from])) else m'
  {
    assert targets[..j + 1][..j] == targets[..j];
  }

  /** The `i`-th pass of the outer loop handles the `i`-th key. */
  lemma BuildDependentsPrefixStep(loaded: Dict<ConfigItem>, keys: seq<string>, i: nat)
    requires loaded.Valid() && (forall k :: k in keys ==> k in loaded.vals) && i < |keys|
    ensures var a := loaded.vals[keys[i]];
      BuildDependents(loaded, keys[..i + 1]) ==
      if a.data.configDependencies.Some? then AddReverseEdges(BuildDependents(loaded, keys[..i]), a.name, a.data.configDependencies.value)
      else BuildDependents(loaded, keys[..i])
  {
    assert keys[..i + 1][..i] == keys[..i];
  }

  /** How often `x` occurs in `s`. */
  function Occurrences(s: seq<string>, x: string): (n: nat)
    ensures n > 0 <==> x in s
  {
    if s == [] then 0
    else
      assert s == s[..|s| - 1] + [s[|s| - 1]];
      Occurrences(s[..|s| - 1], x) + (if s[|s| - 1] == x then 1 else 0)
  }

  function Repeat(x: string, n: nat): (r: seq<string>)
    ensures |r| == n && forall y :: y in r ==> y == x
  {
    if n == 0 then [] else Repeat(x, n - 1) + [x]
  }

  /**
   * Reference definition of the reverse edges into `b`: for every item of
   * `keys` in order, its name once per time it lists `b`.
   */
  function ReverseEdges(loaded: Dict<ConfigItem>, keys: seq<string>, b: string): seq<string>
    requires forall k :: k in keys ==> k in loaded.vals
  {
    if keys == [] then []
    else
      var a := loaded.vals[keys[|keys| - 1]];
      ReverseEdges(loaded, keys[..|keys| - 1], b) + Repeat(a.name, Occurrences(ConfigDependencies(a), b))
  }

  lemma {:induction false} AddReverseEdgesAppends(m: Dict<ConfigItem>, from: string, targets: seq<string>, b: string)
    requires m.Valid() && b in m.vals
    ensures AddReverseEdges(m, from, targets).vals[b].dependents == m.vals[b].dependents + Repeat(from, Occurrences(targets, b))
    decreases |targets|
  {
    if targets != [] {
      var p := targets[..|targets| - 1];
      AddReverseEdgesAppends(m, from, p, b);
      var n := Occurrences(p, b);
      if targets[|targets| - 1] == b {
        assert Repeat(from, n + 1) == Repeat(from, n) + [from];
        AppendAssociative(m.vals[b].dependents, Repeat(from, n), [from]);
      }
    }
  }

  /** One step of the outer loop appends the new item's edges into `b`. */
  lemma BuildDependentsStep(loaded: Dict<ConfigItem>, keys: seq<string>, b: string)
    requires loaded.Valid() && (forall k :: k in keys ==> k in loaded.vals) && b in loaded.vals && keys != []
    ensures var a := loaded.vals[keys[|keys| - 1]];
      BuildDependents(loaded, keys).vals[b].dependents ==
      BuildDependents(loaded, keys[..|keys| - 1]).vals[b].dependents + Repeat(a.name, Occurrences(ConfigDependencies(a), b))
  {
    var a := loaded.vals[keys[|keys| - 1]];
    if a.data.configDependencies.Some? {
      AddReverseEdgesAppends(BuildDependents(loaded, keys[..|keys| - 1]), a.name, a.data.configDependencies.value, b);
    }
  }

  /**
   * After the outer loop has seen `keys`, the dependents of `b` are its
   * loaded dependents followed by exactly the reverse edges into `b`, in
   * collection order.
   */
  lemma {:induction false} BuildDependentsAppends(loaded: Dict<ConfigItem>, keys: seq<string>, b: string)
    requires loaded.Valid() && (forall k :: k in keys ==> k in loaded.vals) && b in loaded.vals
    ensures BuildDependents(loaded, keys).vals[b].dependents == loaded.vals[b].dependents + ReverseEdges(loaded, keys, b)
    decreases |keys|
  {
    if keys != [] {
      var p := keys[..|keys| - 1];
      BuildDependentsAppends(loaded, p, b);
      BuildDependentsStep(loaded, keys, b);
      var a := loaded.vals[keys[|keys| - 1]];
      AppendAssociative(loaded.vals[b].dependents, ReverseEdges(loaded, p, b), Repeat(a.name, Occurrences(ConfigDependencies(a), b)));
    }
  }

  /** The records `initConfigCollection` builds: keyed by their own name, no dependents yet, unassigned. */
  ghost predicate FreshlyLoaded(loaded: Dict<ConfigItem>) {
    loaded.Valid() &&
    forall k :: k in loaded.vals ==> loaded.vals[k].name == k && loaded.vals[k].dependents == [] && loaded.vals[k].package.None?
  }

  lemma {:induction false} ReverseEdgesMembers(loaded: Dict<ConfigItem>, keys: seq<string>, b: string, x: string)
    requires FreshlyLoaded(loaded) && forall k :: k in keys ==> k in loaded.vals
    ensures x in ReverseEdges(loaded, keys, b) <==> x in keys && b in ConfigDependencies(loaded.vals[x])
    decreases |keys|
  {
    if keys != [] {
      var p := keys[..|keys| - 1];
      ReverseEdgesMembers(loaded, p, b, x);
      assert keys == p + [keys[|keys| - 1]];
      var a := loaded.vals[keys[|keys| - 1]];
      var rep := Repeat(a.name, Occurrences(ConfigDependencies(a), b));
      assert x in rep ==> x == keys[|keys| - 1];
      if x == keys[|keys| - 1] && b in ConfigDependencies(a) {
        assert |rep| > 0 && rep[0] in rep;
      }
    }
  }

  /**
   * Over a freshly loaded collection, `x` ends up among the dependents of
   * `b` exactly when `x` is an item that lists `b` among its configuration
   * dependencies; nothing else about any record changes.
   */
  lemma DependentsIff(loaded: Dict<ConfigItem>, b: string, x: string)
    requires FreshlyLoaded(loaded) && b in loaded.vals
    ensures OnlyDependentsChange(loaded, BuildDependents(loaded, loaded.keys))
    ensures x in BuildDependents(loaded, loaded.keys).vals[b].dependents <==>
            x in loaded.vals && b in ConfigDependencies(loaded.vals[x])
  {
    BuildDependentsAppends(loaded, loaded.keys, b);
    ReverseEdgesMembers(loaded, loaded.keys, b, x);
  }
}

/**
 * `assignConfigByPattern`: every (pattern, package) rule, in the order
 * given, claims the items whose short name contains the pattern as a
 * delimited word. The collection is read from a copy taken when the call
 * starts and sorted by key in descending order.
 */
module PatternAssignment {
  import opened PhpArrays
  import opened Records
  import opened Assignment

  /** One entry of the `$patterns` array: a pattern and the package it feeds. */
  datatype Rule = Rule(pattern: string, machineName: string)

  /** The character class `[_\-.]`. */
  predicate IsDelimiter(c: char) {
    c == '_' || c == '-' || c == '.'
  }

  /** `pattern` occurs in `text` at `i`, with a delimiter right before and right after it. */
  predicate MatchesAt(text: string, pattern: string, i: int) {
    1 <= i && i + |pattern| < |text| &&
    IsDelimiter(text[i - 1]) && text[i..i + |pattern|] == pattern && IsDelimiter(text[i + |pattern|])
  }

  /** `preg_match('/[_\-.]' . $pattern . '[_\-.]/', '.' . $short_name . '.')`, the pattern taken literally. */
  predicate PatternMatches(pattern: string, shortName: string) {
    var text := "." + shortName + ".";
    exists i :: 1 <= i < |text| && MatchesAt(text, pattern, i)
  }

  /**
   * Reference reading of the match: the dotted short name splits into some
   * text, a delimiter, the pattern, a delimiter and some more text.
   */
  ghost predicate DelimitedIn(pattern: string, shortName: string) {
    exists before: string, d1: char, d2: char, after: string ::
      IsDelimiter(d1) && IsDelimiter(d2) && before + [d1] + pattern + [d2] + after == "." + shortName + "."
  }

  lemma PatternMatchesIff(pattern: string, shortName: string)
    ensures PatternMatches(pattern, shortName) <==> DelimitedIn(pattern, shortName)
  {
    if PatternMatches(pattern, shortName) {
      MatchesAtDelimited(pattern, shortName);
    }
    if DelimitedIn(pattern, shortName) {
      DelimitedMatchesAt(pattern, shortName);
    }
  }

  lemma MatchesAtDelimited(pattern: string, shortName: string)
    requires PatternMatches(pattern, shortName)
    ensures DelimitedIn(pattern, shortName)
  {
    var text := "." + shortName + ".";
    var i :| 1 <= i < |text| && MatchesAt(text, pattern, i);
    var j := i + |pattern|;
    SplitAround(text, i - 1, j);
    assert text[i..j] == pattern;
  }

  /** A string is its prefix, one character, a middle part, one character and the rest. */
  lemma SplitAround(text: string, a: int, b: int)
    requires 0 <= a < b < |text|
    ensures text[..a] + [text[a]] + text[a + 1..b] + [text[b]] + text[b + 1..] == text
  {
    assert text == text[..a] + text[a..];
    assert text[a..] == [text[a]] + text[a + 1..];
    assert text[a + 1..] == text[a + 1..b] + text[b..];
    assert text[b..] == [text[b]] + text[b + 1..];
  }

  lemma DelimitedMatchesAt(pattern: string, shortName: string)
    requires DelimitedIn(pattern, shortName)
    ensures PatternMatches(pattern, shortName)
  {
    var text := "." + shortName + ".";
    var before: string, d1: char, d2: char, after: string :|
      IsDelimiter(d1) && IsDelimiter(d2) && before + [d1] + pattern + [d2] + after == text;
    var i := |before| + 1;
    var mid := [d1] + pattern + [d2];
    assert text == before + mid + after;
    assert text[i - 1] == mid[0] == d1;
    assert text[i..i + |pattern|] == mid[1..|pattern| + 1] == pattern;
    assert text[i + |pattern|] == mid[|pattern| + 1] == d2;
    assert MatchesAt(text, pattern, i);
  }

  /** An item a rule may claim: present and unowned in the snapshot, its short name matching. */
  predicate Eligible(snap: Dict<ConfigItem>, k: string, pattern: string) {
    k in snap.vals && Unset(snap.vals[k].package) && PatternMatches(pattern, snap.vals[k].shortName)
  }

  /**
   * The inner loop for one rule whose package exists: each key of the
   * snapshot, in the order given, that is unowned in the snapshot and
   * matches is passed to `assignConfigPackage`.
   */
  function PatternPass(r: Registry, snap: Dict<ConfigItem>, keys: seq<string>, rule: Rule): (r': Registry)
    requires Ready(r) && rule.machineName in r.packages.vals
    requires forall k :: k in keys ==> k in snap.vals && k in r.items.vals
    ensures Ready(r') && r'.items.keys == r.items.keys && r'.packages.keys == r.packages.keys
    decreases |keys|
  {
    if keys == [] then r
    else
      var r0 := PatternPass(r, snap, keys[..|keys| - 1], rule);
      var k := keys[|keys| - 1];
      if Eligible(snap, k, rule.pattern) then
        Assign(r0, rule.machineName, [k])
      else r0
  }

  /** The outer loop over the rules; a rule whose package does not exist is skipped. */
  function PatternLoop(r: Registry, snap: Dict<ConfigItem>, keys: seq<string>, rules: seq<Rule>): (r': Registry)
    requires Ready(r) && forall k :: k in keys ==> k in snap.vals && k in r.items.vals
    ensures Ready(r') && r'.items.keys == r.items.keys && r'.packages.keys == r.packages.keys
    decreases |rules|
  {
    if rules == [] then r
    else
      var r0 := PatternLoop(r, snap, keys, rules[..|rules| - 1]);
      var rule := rules[|rules| - 1];
      if rule.machineName in r0.packages.vals then PatternPass(r0, snap, keys, rule) else r0
  }

  /** The `j`-th pass of the inner loop looks at the `j`-th key. */
  lemma PatternPassPrefixStep(r: Registry, snap: Dict<ConfigItem>, keys: seq<string>, rule: Rule, j: nat)
    requires Ready(r) && rule.machineName in r.packages.vals
    requires (forall k :: k in keys ==> k in snap.vals && k in r.items.vals) && j < |keys|
    ensures var r0 := PatternPass(r, snap, keys[..j], rule);
      keys[j] in r0.items.vals && rule.machineName in r0.packages.vals &&
      PatternPass(r, snap, keys[..j + 1], rule) ==
        if Eligible(snap, keys[j], rule.pattern) then Assign(r0, rule.machineName, [keys[j]]) else r0
  {
    assert keys[..j + 1][..j] == keys[..j];
  }

  /** The `i`-th pass of the outer loop applies the `i`-th rule. */
  lemma PatternLoopPrefixStep(r: Registry, snap: Dict<ConfigItem>, keys: seq<string>, rules: seq<Rule>, i: nat)
    requires Ready(r) && (forall k :: k in keys ==> k in snap.vals && k in r.items.vals) && i < |rules|
    ensures var r0 := PatternLoop(r, snap, keys, rules[..i]);
      PatternLoop(r, snap, keys, rules[..i + 1]) ==
        if rules[i].machineName in r0.packages.vals then PatternPass(r0, snap, keys, rules[i]) else r0
  {
    assert rules[..i + 1][..i] == rules[..i];
  }

  /** `assignConfigByPattern(rules)`: snapshot the collection, sort its keys descending, apply the rules. */
  function AssignByPattern(r: Registry, rules: seq<Rule>): (r': Registry)
    requires Ready(r)
    ensures Ready(r') && r'.items.keys == r.items.keys && r'.packages.keys == r.packages.keys
  {
    PatternLoop(r, r.items, KeysDescending(r.items.keys), rules)
  }

  /** The package of the first rule, in the order given, whose package exists and whose pattern matches. */
  function FirstClaim(rules: seq<Rule>, packages: Dict<Package>, shortName: string): (c: Option<string>)
    ensures c.Some? ==> c.value in packages.vals
  {
    if rules == [] then None
    else if rules[0].machineName in packages.vals && PatternMatches(rules[0].pattern, shortName) then Some(rules[0].machineName)
    else FirstClaim(rules[1..], packages, shortName)
  }

  /** Whether rule `i` would claim an item with this short name. */
  predicate Claims(rules: seq<Rule>, i: int, packages: Dict<Package>, shortName: string)
    requires 0 <= i < |rules|
  {
    rules[i].machineName in packages.vals && PatternMatches(rules[i].pattern, shortName)
  }

  /**
   * The first claim is the package of the lowest-numbered claiming rule,
   * and there is none exactly when no rule claims.
   */
  lemma {:induction false} FirstClaimIsFirst(rules: seq<Rule>, packages: Dict<Package>, shortName: string)
    ensures FirstClaim(rules, packages, shortName).None? <==>
      forall i :: 0 <= i < |rules| ==> !Claims(rules, i, packages, shortName)
    ensures FirstClaim(rules, packages, shortName).Some? ==>
      exists i :: 0 <= i < |rules| && Claims(rules, i, packages, shortName) &&
        FirstClaim(rules, packages, shortName).value == rules[i].machineName &&
        forall j :: 0 <= j < i ==> !Claims(rules, j, packages, shortName)
  {
    if rules != [] && !Claims(rules, 0, packages, shortName) {
      var t := rules[1..];
      FirstClaimIsFirst(t, packages, shortName);
      assert forall i :: 1 <= i < |rules| ==> (Claims(rules, i, packages, shortName) <==> Claims(t, i - 1, packages, shortName));
      if FirstClaim(t, packages, shortName).Some? {
        var i :| 0 <= i < |t| && Claims(t, i, packages, shortName) &&
          FirstClaim(t, packages, shortName).value == t[i].machineName &&
          forall j :: 0 <= j < i ==> !Claims(t, j, packages, shortName);
        assert Claims(rules, i + 1, packages, shortName);
      } else {
        assert forall i :: 0 <= i < |rules| ==> !Claims(rules, i, packages, shortName) by {
          forall i | 0 <= i < |rules| ensures !Claims(rules, i, packages, shortName) {
            if i > 0 { assert !Claims(t, i - 1, packages, shortName); }
          }
        }
      }
    }
  }

  /** Appending a rule changes the first claim only when no earlier rule claimed. */
  lemma {:induction false} FirstClaimSnoc(rules: seq<Rule>, rule: Rule, packages: Dict<Package>, shortName: string)
    ensures FirstClaim(rules + [rule], packages, shortName) ==
      if FirstClaim(rules, packages, shortName).Some? then FirstClaim(rules, packages, shortName)
      else if rule.machineName in packages.vals && PatternMatches(rule.pattern, shortName) then Some(rule.machineName)
      else None
  {
    if rules != [] {
      assert (rules + [rule])[0] == rules[0];
      assert (rules + [rule])[1..] == rules[1..] + [rule];
      FirstClaimSnoc(rules[1..], rule, packages, shortName);
    } else {
      assert [rule][1..] == [];
    }
  }

  /** A claim always names a package whose name is not empty. */
  lemma FirstClaimNotEmpty(rules: seq<Rule>, r: Registry, shortName: string)
    requires Consistent(r) && FirstClaim(rules, r.packages, shortName).Some?
    ensures !Unset(FirstClaim(rules, r.packages, shortName))
  {
  }

  lemma {:induction false} PatternPassConsistent(r: Registry, snap: Dict<ConfigItem>, keys: seq<string>, rule: Rule)
    requires Consistent(r) && rule.machineName in r.packages.vals
    requires forall x :: x in keys ==> x in snap.vals && x in r.items.vals
    ensures Consistent(PatternPass(r, snap, keys, rule))
    decreases |keys|
  {
    if keys != [] {
      var p := keys[..|keys| - 1];
      var last := keys[|keys| - 1];
      var r0 := PatternPass(r, snap, p, rule);
      PatternPassConsistent(r, snap, p, rule);
      if Eligible(snap, last, rule.pattern) {
        AssignOne(r0, rule.machineName, last);
        AssignItemConsistent(r0, rule.machineName, last);
      }
    }
  }

  /**
   * What one pass does to one item on a consistent registry: an item that
   * is unowned both in the snapshot and now, is listed and matches, goes to
   * the rule's package; any other item keeps its owner.
   */
  lemma {:induction false} PatternPassOwner(r: Registry, snap: Dict<ConfigItem>, keys: seq<string>, rule: Rule, k: string)
    requires Consistent(r) && rule.machineName in r.packages.vals
    requires (forall x :: x in keys ==> x in snap.vals && x in r.items.vals) && k in r.items.vals
    ensures PatternPass(r, snap, keys, rule).items.vals[k].package ==
      if k in keys && Eligible(snap, k, rule.pattern)
         && Unset(r.items.vals[k].package)
      then Some(rule.machineName) else r.items.vals[k].package
    decreases |keys|
  {
    if keys != [] {
      var p := keys[..|keys| - 1];
      var last := keys[|keys| - 1];
      var r0 := PatternPass(r, snap, p, rule);
      PatternPassOwner(r, snap, p, rule, k);
      SplitLast(keys);
      if Eligible(snap, last, rule.pattern) {
        PatternPassConsistent(r, snap, p, rule);
        AssignOne(r0, rule.machineName, last);
        assert PatternPass(r, snap, keys, rule) == AssignItem(r0, rule.machineName, last);
        AssignItemOwner(r0, rule.machineName, last, k);
      } else {
        assert PatternPass(r, snap, keys, rule) == r0;
      }
    }
  }

  /**
   * The owner every item ends with after `assignConfigByPattern` on a
   * consistent registry: an owned item keeps its owner; an unowned item
   * goes to the package of the FIRST rule in the order given whose package
   * exists and whose pattern matches its short name, and otherwise stays
   * unowned. A later rule never takes an item an earlier rule claimed,
   * whatever the key order.
   */
  lemma ByPatternOwner(r: Registry, rules: seq<Rule>, k: string)
    requires Consistent(r) && k in r.items.vals
    ensures Consistent(AssignByPattern(r, rules))
    ensures AssignByPattern(r, rules).items.vals[k] ==
      r.items.vals[k].(package :=
        if !Unset(r.items.vals[k].package) then r.items.vals[k].package
        else match FirstClaim(rules, r.packages, r.items.vals[k].shortName)
          case Some(p) => Some(p)
          case None => r.items.vals[k].package)
    ensures forall q :: q in r.packages.vals ==>
      var p' := AssignByPattern(r, rules).packages.vals[q];
      p' == r.packages.vals[q].(config := p'.config, dependencies := p'.dependencies)
  {
    PatternLoopOwner(r, r.items, KeysDescending(r.items.keys), rules, k);
    PatternLoopOwnershipOnly(r, r.items, KeysDescending(r.items.keys), rules);
  }

  /** All rules together keep the registry consistent. */
  lemma {:induction false} PatternLoopConsistent(r: Registry, snap: Dict<ConfigItem>, keys: seq<string>, rules: seq<Rule>)
    requires Consistent(r) && forall k :: k in keys ==> k in snap.vals && k in r.items.vals
    ensures Consistent(PatternLoop(r, snap, keys, rules))
    decreases |rules|
  {
    if rules != [] {
      var r0 := PatternLoop(r, snap, keys, rules[..|rules| - 1]);
      var rule := rules[|rules| - 1];
      PatternLoopConsistent(r, snap, keys, rules[..|rules| - 1]);
      if rule.machineName in r0.packages.vals {
        PatternPassConsistent(r0, snap, keys, rule);
      }
    }
  }

  /** One pass keeps every package's dependencies those of its items. */
  lemma {:induction false} PatternPassDependencies(r: Registry, snap: Dict<ConfigItem>, keys: seq<string>, rule: Rule)
    requires Consistent(r) && DependenciesFromItems(r) && rule.machineName in r.packages.vals
    requires forall x :: x in keys ==> x in snap.vals && x in r.items.vals
    ensures DependenciesFromItems(PatternPass(r, snap, keys, rule))
    decreases |keys|
  {
    if keys != [] {
      var p := keys[..|keys| - 1];
      var last := keys[|keys| - 1];
      var r0 := PatternPass(r, snap, p, rule);
      PatternPassDependencies(r, snap, p, rule);
      if Eligible(snap, last, rule.pattern) {
        PatternPassConsistent(r, snap, p, rule);
        AssignOne(r0, rule.machineName, last);
        AssignItemDependenciesFromItems(r0, rule.machineName, last);
      }
    }
  }

  /** All rules keep every package's dependencies those of its items. */
  lemma {:induction false} PatternLoopDependencies(r: Registry, snap: Dict<ConfigItem>, keys: seq<string>, rules: seq<Rule>)
    requires Consistent(r) && DependenciesFromItems(r) && forall k :: k in keys ==> k in snap.vals && k in r.items.vals
    ensures DependenciesFromItems(PatternLoop(r, snap, keys, rules))
    decreases |rules|
  {
    if rules != [] {
      var r0 := PatternLoop(r, snap, keys, rules[..|rules| - 1]);
      var rule := rules[|rules| - 1];
      PatternLoopDependencies(r, snap, keys, rules[..|rules| - 1]);
      if rule.machineName in r0.packages.vals {
        PatternLoopConsistent(r, snap, keys, rules[..|rules| - 1]);
        PatternPassDependencies(r0, snap, keys, rule);
      }
    }
  }

  /**
   * After `assignConfigByPattern` every package's dependencies are still
   * exactly the module dependencies of the items it lists, which
   * `ByPatternOwner` determines.
   */
  lemma ByPatternDependencies(r: Registry, rules: seq<Rule>)
    requires Consistent(r) && DependenciesFromItems(r)
    ensures DependenciesFromItems(AssignByPattern(r, rules))
  {
    PatternLoopDependencies(r, r.items, KeysDescending(r.items.keys), rules);
  }

  /** One pass changes nothing but ownership. */
  lemma {:induction false} PatternPassOwnershipOnly(r: Registry, snap: Dict<ConfigItem>, keys: seq<string>, rule: Rule)
    requires Ready(r) && rule.machineName in r.packages.vals
    requires forall k :: k in keys ==> k in snap.vals && k in r.items.vals
    ensures OwnershipOnly(r, PatternPass(r, snap, keys, rule))
    decreases |keys|
  {
    if keys != [] {
      var p := keys[..|keys| - 1];
      var last := keys[|keys| - 1];
      var r0 := PatternPass(r, snap, p, rule);
      PatternPassOwnershipOnly(r, snap, p, rule);
      if Eligible(snap, last, rule.pattern) {
        AssignOne(r0, rule.machineName, last);
        AssignItemOwnershipOnly(r0, rule.machineName, last);
        OwnershipOnlyTrans(r, r0, PatternPass(r, snap, keys, rule));
      }
    }
  }

  /** All rules together change nothing but ownership. */
  lemma {:induction false} PatternLoopOwnershipOnly(r: Registry, snap: Dict<ConfigItem>, keys: seq<string>, rules: seq<Rule>)
    requires Ready(r) && forall k :: k in keys ==> k in snap.vals && k in r.items.vals
    ensures OwnershipOnly(r, PatternLoop(r, snap, keys, rules))
    decreases |rules|
  {
    if rules != [] {
      var r0 := PatternLoop(r, snap, keys, rules[..|rules| - 1]);
      var rule := rules[|rules| - 1];
      PatternLoopOwnershipOnly(r, snap, keys, rules[..|rules| - 1]);
      if rule.machineName in r0.packages.vals {
        PatternPassOwnershipOnly(r0, snap, keys, rule);
        OwnershipOnlyTrans(r, r0, PatternLoop(r, snap, keys, rules));
      }
    }
  }

  lemma {:induction false} PatternLoopOwner(r: Registry, snap: Dict<ConfigItem>, keys: seq<string>, rules: seq<Rule>, k: string)
    requires Consistent(r) && snap == r.items && keys == KeysDescending(r.items.keys) && k in r.items.vals
    ensures Consistent(PatternLoop(r, snap, keys, rules))
    ensures PatternLoop(r, snap, keys, rules).items.vals[k].package ==
      if !Unset(r.items.vals[k].package) then r.items.vals[k].package
      else match FirstClaim(rules, r.packages, r.items.vals[k].shortName)
        case Some(p) => Some(p)
        case None => r.items.vals[k].package
    decreases |rules|
  {
    if rules != [] {
      var p := rules[..|rules| - 1];
      var rule := rules[|rules| - 1];
      var r0 := PatternLoop(r, snap, keys, p);
      PatternLoopOwner(r, snap, keys, p, k);
      assert rules == p + [rule];
      FirstClaimSnoc(p, rule, r.packages, snap.vals[k].shortName);
      assert r0.packages.keys == r.packages.keys;
      assert rule.machineName in r0.packages.vals <==> rule.machineName in r.packages.vals;
      if rule.machineName in r0.packages.vals {
        PatternPassConsistent(r0, snap, keys, rule);
        PatternPassOwner(r0, snap, keys, rule, k);
        assert k in keys;
        var c := FirstClaim(p, r.packages, snap.vals[k].shortName);
        if c.Some? {
          FirstClaimNotEmpty(p, r, snap.vals[k].shortName);
        }
      }
    }
  }

  /** The keys one rule claims from the snapshot, in the order visited. */
  function Claimed(snap: Dict<ConfigItem>, keys: seq<string>, pattern: string): (c: seq<string>)
    requires forall k :: k in keys ==> k in snap.vals
    ensures forall k :: k in c <==> k in keys && Eligible(snap, k, pattern)
    decreases |keys|
  {
    if keys == [] then []
    else
      var k := keys[|keys| - 1];
      assert keys == keys[..|keys| - 1] + [k];
      Claimed(snap, keys[..|keys| - 1], pattern) +
        (if Eligible(snap, k, pattern) then [k] else [])
  }

  /** One pass is `assignConfigPackage` over the claimed keys. */
  lemma {:induction false} PatternPassIsAssign(r: Registry, snap: Dict<ConfigItem>, keys: seq<string>, rule: Rule)
    requires Ready(r) && rule.machineName in r.packages.vals
    requires forall k :: k in keys ==> k in snap.vals && k in r.items.vals
    ensures PatternPass(r, snap, keys, rule) == Assign(r, rule.machineName, Claimed(snap, keys, rule.pattern))
    decreases |keys|
  {
    if keys != [] {
      var p := keys[..|keys| - 1];
      var k := keys[|keys| - 1];
      var c := Claimed(snap, p, rule.pattern);
      PatternPassIsAssign(r, snap, p, rule);
      if Eligible(snap, k, rule.pattern) {
        AssignOne(PatternPass(r, snap, p, rule), rule.machineName, k);
        assert (c + [k])[..|c + [k]| - 1] == c;
      } else {
        assert c + [] == c;
      }
    }
  }

  /** A subsequence of a descending list is descending. */
  lemma {:induction false} ClaimedDescending(snap: Dict<ConfigItem>, keys: seq<string>, pattern: string)
    requires (forall k :: k in keys ==> k in snap.vals) && Descending(keys) && Distinct(keys)
    ensures Descending(Claimed(snap, keys, pattern)) && Distinct(Claimed(snap, keys, pattern))
    decreases |keys|
  {
    if keys != [] {
      var p := keys[..|keys| - 1];
      var k := keys[|keys| - 1];
      var c := Claimed(snap, p, pattern);
      ClaimedDescending(snap, p, pattern);
      if Eligible(snap, k, pattern) {
        forall i, j | 0 <= i < j < |c + [k]| ensures AtLeast((c + [k])[i], (c + [k])[j]) && (c + [k])[i] != (c + [k])[j] {
          if j == |c| {
            var x := c[i];
            assert x in p;
            var a :| 0 <= a < |p| && p[a] == x;
            assert keys[a] == x && keys[|keys| - 1] == k;
            StrictlyDescending(keys, a, |keys| - 1);
            StrLessAsymmetric(k, x);
          }
        }
      }
    }
  }

  /**
   * A single rule over a consistent registry whose package exists appends
   * every unowned item whose short name matches, once each, in descending
   * key order, behind the package's existing items.
   */
  lemma SinglePatternAppends(r: Registry, rule: Rule)
    requires Consistent(r) && rule.machineName in r.packages.vals
    ensures var c := Claimed(r.items, KeysDescending(r.items.keys), rule.pattern);
      AssignByPattern(r, [rule]).packages.vals[rule.machineName].config == r.packages.vals[rule.machineName].config + c &&
      Descending(c) && Distinct(c) &&
      forall k :: k in c <==> k in r.items.vals && Unset(r.items.vals[k].package) && PatternMatches(rule.pattern, r.items.vals[k].shortName)
  {
    var keys := KeysDescending(r.items.keys);
    var c := Claimed(r.items, keys, rule.pattern);
    assert [rule][..0] == [];
    assert PatternLoop(r, r.items, keys, []) == r;
    assert AssignByPattern(r, [rule]) == PatternPass(r, r.items, keys, rule);
    PatternPassIsAssign(r, r.items, keys, rule);
    ClaimedDescending(r.items, keys, rule.pattern);
    AssignAppends(r, rule.machineName, c);
    assert Unowned(r.items, c) == c by {
      UnownedOfUnowned(r.items, c);
    }
    UniqueOfDistinct(c);
  }

  /** Filtering names that are all unowned keeps them all. */
  lemma {:induction false} UnownedOfUnowned(items: Dict<ConfigItem>, names: seq<string>)
    requires forall k :: k in names ==> k in items.vals && Unset(items.vals[k].package)
    ensures Unowned(items, names) == names
    decreases |names|
  {
    if names != [] {
      UnownedOfUnowned(items, names[..|names| - 1]);
      assert names == names[..|names| - 1] + [names[|names| - 1]];
    }
  }

  /**
   * With the rules `event` then `event_registration`, an unowned item
   * whose short name is `event_registration` goes to `event`: the first
   * listed rule wins, the more specific later rule never sees it.
   */
  lemma FirstListedRuleWins(r: Registry, k: string)
    requires Consistent(r) && "event" in r.packages.vals && "event_registration" in r.packages.vals
    requires k in r.items.vals && Unset(r.items.vals[k].package) && r.items.vals[k].shortName == "event_registration"
    ensures AssignByPattern(r, [Rule("event", "event"), Rule("event_registration", "event_registration")]).items.vals[k].package == Some("event")
  {
    var rules := [Rule("event", "event"), Rule("event_registration", "event_registration")];
    var text := "." + "event_registration" + ".";
    assert text[0] == '.' && text[1..6] == "event" && text[6] == '_';
    assert MatchesAt(text, "event", 1);
    assert PatternMatches("event", "event_registration");
    assert FirstClaim(rules, r.packages, "event_registration") == Some("event");
    ByPatternOwner(r, rules, k);
  }
}

/**
 * The parts of PHP's array and string semantics that the packager relies on:
 * ordered string-keyed arrays, `empty()`, `array_unique(array_merge(..))`,
 * prefix tests (`strpos(..) === 0`) and the key order `krsort` sorts by.
 */
module PhpArrays {

  datatype Option<+T> = None | Some(value: T)

  /** No element occurs twice. */
  predicate Distinct<T(==)>(s: seq<T>) {
    forall i, j :: 0 <= i < j < |s| ==> s[i] != s[j]
  }

  /**
   * A PHP array with string keys: `keys` is the insertion order and `vals`
   * the key/value map. Assigning to a present key keeps its position; a new
   * key goes to the end.
   */
  datatype Dict<V> = Dict(keys: seq<string>, vals: map<string, V>) {
    ghost predicate Valid() {
      Distinct(keys) && forall k :: k in vals <==> k in keys
    }

    /** `$a[$k] = $v;` */
    function Put(k: string, v: V): (d: Dict<V>)
      requires Valid()
      ensures d.Valid() && d.vals == vals[k := v]
      ensures k in vals ==> d.keys == keys
      ensures k !in vals ==> d.keys == keys + [k]
    {
      if k in vals then Dict(keys, vals[k := v]) else Dict(keys + [k], vals[k := v])
    }
  }

  function EmptyDict<V>(): (d: Dict<V>)
    ensures d.Valid() && d.keys == [] && d.vals == map[]
  {
    Dict([], map[])
  }

  /** PHP's `empty()` on a string: both "" and "0" are empty. */
  predicate PhpEmpty(s: string) {
    s == "" || s == "0"
  }

  /** `empty()` on a string that may be NULL. */
  predicate Unset(p: Option<string>) {
    p.None? || PhpEmpty(p.value)
  }

  /** `array_unique` on a list: the first occurrence of each value survives, in order. */
  function Unique(s: seq<string>): (r: seq<string>)
    ensures Distinct(r)
    ensures forall x :: x in r <==> x in s
    ensures |r| <= |s|
  {
    if s == [] then []
    else
      var u := Unique(s[..|s| - 1]);
      assert s == s[..|s| - 1] + [s[|s| - 1]];
      if s[|s| - 1] in u then u else u + [s[|s| - 1]]
  }

  /** `array_unique` of a list with one more element keeps that element only when it is new. */
  lemma UniqueSnoc(u: seq<string>, x: string)
    ensures Unique(u + [x]) == if x in u then Unique(u) else Unique(u) + [x]
  {
    assert (u + [x])[..|u + [x]| - 1] == u;
  }

  /** A duplicate-free list comes out of `array_unique` unchanged. */
  lemma {:induction false} UniqueOfDistinct(s: seq<string>)
    requires Distinct(s)
    ensures Unique(s) == s
  {
    if s != [] {
      var p := s[..|s| - 1];
      assert Distinct(p);
      UniqueOfDistinct(p);
      assert s[|s| - 1] !in p;
    }
  }

  /**
   * `array_unique(array_merge($a, $b))` with a duplicate-free `$a` keeps `$a`
   * as it is, in front: existing entries never move.
   */
  lemma {:induction false} UniqueKeepsDistinctPrefix(a: seq<string>, b: seq<string>)
    requires Distinct(a)
    ensures |a| <= |Unique(a + b)| && Unique(a + b)[..|a|] == a
  {
    if b == [] {
      assert a + b == a;
      UniqueOfDistinct(a);
    } else {
      var b' := b[..|b| - 1];
      UniqueKeepsDistinctPrefix(a, b');
      assert (a + b)[..|a + b| - 1] == a + b';
    }
  }

  /** A non-empty sequence is its prefix followed by its last element. */
  lemma SplitLast<T>(s: seq<T>)
    requires s != []
    ensures s == s[..|s| - 1] + [s[|s| - 1]]
    ensures forall x :: x in s <==> x in s[..|s| - 1] || x == s[|s| - 1]
  {
    assert s == s[..|s| - 1] + [s[|s| - 1]];
  }

  /**
   * A `foreach ($a as $k => &$v)` loop that replaces each visited value by
   * its counterpart in `target`: the keys in `keys` replaced, in order.
   */
  ghost function Overlay<V>(base: Dict<V>, target: map<string, V>, keys: seq<string>): (d: Dict<V>)
    requires base.Valid() && forall k :: k in keys ==> k in base.vals && k in target
    ensures d.Valid() && d.keys == base.keys
    decreases |keys|
  {
    if keys == [] then base
    else
      var k := keys[|keys| - 1];
      SplitLast(keys);
      Overlay(base, target, keys[..|keys| - 1]).Put(k, target[k])
  }

  /** The `i`-th pass of such a loop replaces the `i`-th key's value. */
  lemma OverlayPrefixStep<V>(base: Dict<V>, target: map<string, V>, i: nat)
    requires base.Valid() && (forall k :: k in base.vals <==> k in target) && i < |base.keys|
    ensures base.keys[i] in target && forall k :: k in base.keys[..i] ==> k in base.vals && k in target
    ensures forall k :: k in base.keys[..i + 1] ==> k in base.vals && k in target
    ensures Overlay(base, target, base.keys[..i + 1]) == Overlay(base, target, base.keys[..i]).Put(base.keys[i], target[base.keys[i]])
  {
    assert base.keys[..i + 1][..i] == base.keys[..i];
  }

  lemma {:induction false} OverlayAt<V>(base: Dict<V>, target: map<string, V>, keys: seq<string>, k: string)
    requires base.Valid() && (forall k :: k in keys ==> k in base.vals && k in target) && k in base.vals
    ensures Overlay(base, target, keys).vals[k] == if k in keys then target[k] else base.vals[k]
    decreases |keys|
  {
    if keys != [] {
      SplitLast(keys);
      OverlayAt(base, target, keys[..|keys| - 1], k);
    }
  }

  /** Once every key has been visited, the values are exactly the target's. */
  lemma OverlayAll<V>(base: Dict<V>, target: map<string, V>)
    requires base.Valid() && forall k :: k in base.vals <==> k in target
    ensures Overlay(base, target, base.keys) == Dict(base.keys, target)
  {
    forall k | k in base.vals
      ensures Overlay(base, target, base.keys).vals[k] == target[k]
    {
      OverlayAt(base, target, base.keys, k);
    }
  }

  lemma AppendAssociative<T>(a: seq<T>, b: seq<T>, c: seq<T>)
    ensures (a + b) + c == a + (b + c)
  {
  }

  /** `strpos($s, $prefix) === 0` for a non-empty `$prefix`. */
  predicate StartsWith(s: string, prefix: string) {
    |prefix| <= |s| && s[..|prefix|] == prefix
  }

  /**
   * The order PHP compares two non-numeric strings in: byte by byte (UTF-8
   * byte order is code point order), a proper prefix sorting first.
   */
  predicate StrLess(a: string, b: string) {
    if a == [] then b != []
    else if b == [] then false
    else if a[0] != b[0] then a[0] < b[0]
    else StrLess(a[1..], b[1..])
  }

  lemma StrLessIrreflexive(a: string)
    ensures !StrLess(a, a)
  {
  }

  lemma StrLessTransitive(a: string, b: string, c: string)
    requires StrLess(a, b) && StrLess(b, c)
    ensures StrLess(a, c)
  {
    if a != [] && b != [] && c != [] && a[0] == b[0] && b[0] == c[0] {
      StrLessTransitive(a[1..], b[1..], c[1..]);
    }
  }

  lemma StrLessTotal(a: string, b: string)
    requires a != b
    ensures StrLess(a, b) || StrLess(b, a)
  {
    if a != [] && b != [] && a[0] == b[0] {
      assert a == [a[0]] + a[1..] && b == [b[0]] + b[1..];
      StrLessTotal(a[1..], b[1..]);
    }
  }

  lemma StrLessAsymmetric(a: string, b: string)
    requires StrLess(a, b)
    ensures !StrLess(b, a)
  {
    if a != [] && b != [] && a[0] == b[0] {
      StrLessAsymmetric(a[1..], b[1..]);
    }
  }

  /** `a` sorts at or after `b`. */
  predicate AtLeast(a: string, b: string) {
    !StrLess(a, b)
  }

  lemma AtLeastTransitive(a: string, b: string, c: string)
    requires AtLeast(a, b) && AtLeast(b, c)
    ensures AtLeast(a, c)
  {
    if StrLess(a, c) {
      if a == b {
      } else if b == c {
      } else {
        StrLessTotal(a, b);
        StrLessTotal(b, c);
        StrLessTransitive(b, a, c);
      }
    }
  }

  /** Every element sorts at or after every later one. */
  predicate Descending(s: seq<string>) {
    forall i, j :: 0 <= i < j < |s| ==> AtLeast(s[i], s[j])
  }

  /** Place `x` into the descending list `s`, in front of the first element it is not below. */
  function Insert(x: string, s: seq<string>): (r: seq<string>)
    requires Descending(s)
    ensures Descending(r)
    ensures multiset(r) == multiset(s) + multiset{x}
    ensures forall y :: y in r <==> y == x || y in s
    ensures Distinct(s) && x !in s ==> Distinct(r)
  {
    if s == [] then [x]
    else if AtLeast(x, s[0]) then
      InsertInFront(x, s);
      [x] + s
    else
      var t := Insert(x, s[1..]);
      InsertAfterHead(x, s, t);
      [s[0]] + t
  }

  lemma InsertInFront(x: string, s: seq<string>)
    requires Descending(s) && s != [] && AtLeast(x, s[0])
    ensures Descending([x] + s)
  {
    forall i, j | 0 <= i < j < |[x] + s| ensures AtLeast(([x] + s)[i], ([x] + s)[j]) {
      if i == 0 && j > 1 { AtLeastTransitive(x, s[0], s[j - 1]); }
    }
  }

  lemma InsertAfterHead(x: string, s: seq<string>, t: seq<string>)
    requires Descending(s) && s != [] && !AtLeast(x, s[0])
    requires Descending(t) && multiset(t) == multiset(s[1..]) + multiset{x}
    requires forall y :: y in t <==> y == x || y in s[1..]
    requires Distinct(s[1..]) && x !in s[1..] ==> Distinct(t)
    ensures Descending([s[0]] + t)
    ensures multiset([s[0]] + t) == multiset(s) + multiset{x}
    ensures forall y :: y in [s[0]] + t <==> y == x || y in s
    ensures Distinct(s) && x !in s ==> Distinct([s[0]] + t)
  {
    assert s == [s[0]] + s[1..];
    HeadAboveInserted(x, s, t);
    ConsDescending(s[0], t);
    if Distinct(s) && x !in s {
      assert Distinct(s[1..]) && x !in s[1..];
      assert s[0] !in t;
      ConsDistinct(s[0], t);
    }
  }

  /** The head of `s` is at least every element of the list `x` went into. */
  lemma HeadAboveInserted(x: string, s: seq<string>, t: seq<string>)
    requires Descending(s) && s != [] && !AtLeast(x, s[0])
    requires forall y :: y in t <==> y == x || y in s[1..]
    ensures forall y :: y in t ==> AtLeast(s[0], y)
  {
    StrLessAsymmetric(x, s[0]);
    forall y | y in t ensures AtLeast(s[0], y) {
      if y != x {
        var j :| 0 <= j < |s[1..]| && s[1..][j] == y;
        assert s[j + 1] == y;
      }
    }
  }

  lemma ConsDescending(h: string, t: seq<string>)
    requires Descending(t) && forall y :: y in t ==> AtLeast(h, y)
    ensures Descending([h] + t)
  {
    forall i, j | 0 <= i < j < |[h] + t| ensures AtLeast(([h] + t)[i], ([h] + t)[j]) {
      if i == 0 { assert ([h] + t)[j] == t[j - 1]; assert t[j - 1] in t; }
      else { assert ([h] + t)[i] == t[i - 1] && ([h] + t)[j] == t[j - 1]; }
    }
  }

  lemma ConsDistinct(h: string, t: seq<string>)
    requires Distinct(t) && h !in t
    ensures Distinct([h] + t)
  {
    forall i, j | 0 <= i < j < |[h] + t| ensures ([h] + t)[i] != ([h] + t)[j] {
      if i == 0 { assert ([h] + t)[j] == t[j - 1]; assert t[j - 1] in t; }
      else { assert ([h] + t)[i] == t[i - 1] && ([h] + t)[j] == t[j - 1]; }
    }
  }

  /** The key order `krsort` leaves an array in: descending, same keys. */
  function KeysDescending(s: seq<string>): (r: seq<string>)
    ensures Descending(r)
    ensures multiset(r) == multiset(s)
    ensures forall y :: y in r <==> y in s
    ensures Distinct(s) ==> Distinct(r)
  {
    if s == [] then []
    else
      assert s == [s[0]] + s[1..];
      Insert(s[0], KeysDescending(s[1..]))
  }

  /** On distinct keys the descending order is strict. */
  lemma StrictlyDescending(s: seq<string>, i: int, j: int)
    requires Descending(s) && Distinct(s) && 0 <= i < j < |s|
    ensures StrLess(s[j], s[i])
  {
    StrLessTotal(s[i], s[j]);
  }
}

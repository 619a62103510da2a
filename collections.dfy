/** Generic operations on sequences that the store's SQL statements and the
    screens' `reduce` calls are built from: selecting the rows whose column
    equals a value (`WHERE col = ?`), ordering them (`ORDER BY`), and grouping
    a list into a dictionary of lists keyed by a property. */
module Collections {

  /** No element occurs twice. */
  ghost predicate Distinct<T>(s: seq<T>) {
    forall i, j :: 0 <= i < j < |s| ==> s[i] != s[j]
  }

  /** No two elements agree on `key` (a primary-key constraint). */
  ghost predicate UniqueBy<T, K>(s: seq<T>, key: T -> K) {
    forall i, j :: 0 <= i < j < |s| ==> key(s[i]) != key(s[j])
  }

  /** The elements of `s`, in their order, whose `key` equals `v` when `holds`
      is true (what `SELECT ... WHERE key = v` returns), or differs from `v`
      when `holds` is false (what `DELETE ... WHERE key = v` leaves behind). */
  function Where<T(!new), K(==)>(s: seq<T>, key: T -> K, v: K, holds: bool): (r: seq<T>)
    ensures |r| <= |s|
    ensures forall x :: x in r <==> x in s && (key(x) == v) == holds
  {
    if s == [] then []
    else
      assert s == [s[0]] + s[1..];
      (if (key(s[0]) == v) == holds then [s[0]] else []) + Where(s[1..], key, v, holds)
  }

  /** A selection holds each matching row as often as the table does, and
      no other row. */
  lemma {:induction false} WhereCount<T(!new), K>(s: seq<T>, key: T -> K, v: K, holds: bool)
    ensures forall x :: multiset(Where(s, key, v, holds))[x] == if (key(x) == v) == holds then multiset(s)[x] else 0
  {
    if s != [] {
      WhereCount(s[1..], key, v, holds);
      assert s == [s[0]] + s[1..];
      assert multiset(s) == multiset{s[0]} + multiset(s[1..]);
    }
  }

  /** Selection distributes over concatenation, so it keeps the relative order
      of the rows it keeps. */
  lemma {:induction false} WhereConcat<T(!new), K>(a: seq<T>, b: seq<T>, key: T -> K, v: K, holds: bool)
    ensures Where(a + b, key, v, holds) == Where(a, key, v, holds) + Where(b, key, v, holds)
  {
    if a == [] {
      assert a + b == b;
    } else {
      assert (a + b)[1..] == a[1..] + b;
      WhereConcat(a[1..], b, key, v, holds);
    }
  }

  /** When no element matches, selecting the matches gives nothing and
      deleting them changes nothing. */
  lemma {:induction false} WhereNoMatch<T(!new), K>(s: seq<T>, key: T -> K, v: K)
    requires forall x :: x in s ==> key(x) != v
    ensures Where(s, key, v, true) == []
    ensures Where(s, key, v, false) == s
  {
    if s != [] {
      WhereNoMatch(s[1..], key, v);
      assert s == [s[0]] + s[1..];
    }
  }

  /** Selecting one value among the rows that do not carry another value is
      selecting it among all rows. */
  lemma {:induction false} WhereOther<T(!new), K>(s: seq<T>, key: T -> K, u: K, v: K)
    requires u != v
    ensures Where(Where(s, key, u, false), key, v, true) == Where(s, key, v, true)
  {
    if s != [] {
      WhereOther(s[1..], key, u, v);
      if key(s[0]) == u {
        assert Where(s, key, u, false) == Where(s[1..], key, u, false);
      } else {
        assert Where(s, key, u, false) == [s[0]] + Where(s[1..], key, u, false);
      }
    }
  }

  /** A selection of rows with pairwise distinct keys has pairwise distinct keys. */
  lemma {:induction false} WhereUnique<T(!new), K, L>(s: seq<T>, id: T -> L, key: T -> K, v: K, holds: bool)
    requires UniqueBy(s, id)
    ensures UniqueBy(Where(s, key, v, holds), id)
  {
    if s != [] {
      var t := s[1..];
      assert UniqueBy(t, id) by {
        forall i, j | 0 <= i < j < |t| ensures id(t[i]) != id(t[j]) {
          assert t[i] == s[i + 1] && t[j] == s[j + 1];
        }
      }
      WhereUnique(t, id, key, v, holds);
      var rest := Where(t, key, v, holds);
      forall x | x in rest ensures id(x) != id(s[0]) {
        assert x in t;
        var k :| 0 <= k < |t| && t[k] == x;
        assert s[k + 1] == x;
      }
    }
  }

  /** Appending a row whose key no stored row carries keeps the keys unique. */
  lemma UniqueByAppend<T(!new), K>(s: seq<T>, key: T -> K, x: T)
    requires UniqueBy(s, key)
    requires forall y :: y in s ==> key(y) != key(x)
    ensures UniqueBy(s + [x], key)
  {
    var t := s + [x];
    forall i, j | 0 <= i < j < |t| ensures key(t[i]) != key(t[j]) {
      if j == |s| {
        assert t[i] in s;
      } else {
        assert t[i] == s[i] && t[j] == s[j];
      }
    }
  }

  /** `le` orders every pair and is transitive: an `ORDER BY` comparison. */
  ghost predicate TotalPreorder<T(!new)>(le: (T, T) -> bool) {
    && (forall a, b :: le(a, b) || le(b, a))
    && (forall a, b, c :: le(a, b) && le(b, c) ==> le(a, c))
  }

  /** Every element comes, under `le`, no later than every element after it. */
  ghost predicate Sorted<T>(s: seq<T>, le: (T, T) -> bool) {
    forall i, j :: 0 <= i < j < |s| ==> le(s[i], s[j])
  }

  /** Puts `x` into the sorted `s` in front of the first element it may precede. */
  function Insert<T(!new)>(x: T, s: seq<T>, le: (T, T) -> bool): (r: seq<T>)
    requires TotalPreorder(le) && Sorted(s, le)
    ensures multiset(r) == multiset(s) + multiset{x}
    ensures Sorted(r, le)
  {
    if s == [] then [x]
    else if le(x, s[0]) then
      SortedCons(x, s, le);
      [x] + s
    else
      var rest := Insert(x, s[1..], le);
      assert s == [s[0]] + s[1..];
      forall y | y in rest ensures le(s[0], y) {
        assert y in multiset(rest);
        if y != x {
          assert y in s[1..];
        }
      }
      SortedCons(s[0], rest, le);
      [s[0]] + rest
  }

  /** An element that comes no later than every element of a sorted
      sequence may be put in front of it. */
  lemma SortedCons<T(!new)>(h: T, t: seq<T>, le: (T, T) -> bool)
    requires TotalPreorder(le) && Sorted(t, le)
    requires t == [] || le(h, t[0])
    ensures Sorted([h] + t, le)
  {
    var r := [h] + t;
    forall i, j | 0 <= i < j < |r| ensures le(r[i], r[j]) {
      assert r[j] == t[j - 1];
      if i == 0 {
        if j > 1 {
          assert le(t[0], t[j - 1]);
        }
      } else {
        assert r[i] == t[i - 1];
      }
    }
  }

  /** The rows of `s` in the order `le` asks for, as an `ORDER BY` returns them:
      a permutation of `s` that is sorted. The engine orders ties as it likes;
      this one keeps them in the order of `s`. */
  function Sort<T(!new)>(s: seq<T>, le: (T, T) -> bool): (r: seq<T>)
    requires TotalPreorder(le)
    ensures multiset(r) == multiset(s)
    ensures Sorted(r, le)
  {
    if s == [] then []
    else
      assert s == [s[0]] + s[1..];
      Insert(s[0], Sort(s[1..], le), le)
  }

  /** A selection from a sorted sequence is sorted. */
  lemma {:induction false} WhereSorted<T(!new), K>(s: seq<T>, le: (T, T) -> bool, key: T -> K, v: K, holds: bool)
    requires Sorted(s, le)
    ensures Sorted(Where(s, key, v, holds), le)
  {
    if s != [] {
      var t := s[1..];
      assert Sorted(t, le) by {
        forall i, j | 0 <= i < j < |t| ensures le(t[i], t[j]) {
          assert t[i] == s[i + 1] && t[j] == s[j + 1];
        }
      }
      WhereSorted(t, le, key, v, holds);
      forall x | x in Where(t, key, v, holds) ensures le(s[0], x) {
        var k :| 0 <= k < |t| && t[k] == x;
        assert s[k + 1] == x;
      }
    }
  }

  /** A sequence without repeated elements holds each value at most once. */
  lemma {:induction false} DistinctCount<T>(s: seq<T>)
    requires Distinct(s)
    ensures forall x :: multiset(s)[x] <= 1
  {
    if s != [] {
      var t := s[1..];
      assert s == [s[0]] + t;
      assert Distinct(t) by {
        forall i, j | 0 <= i < j < |t| ensures t[i] != t[j] {
          assert t[i] == s[i + 1] && t[j] == s[j + 1];
        }
      }
      DistinctCount(t);
      forall k | 0 <= k < |t| ensures t[k] != s[0] {
        assert t[k] == s[k + 1];
      }
      assert multiset(t)[s[0]] == 0;
    }
  }

  /** A sequence that holds each value at most once has no repeats. */
  lemma {:induction false} CountDistinct<T>(s: seq<T>)
    requires forall x :: multiset(s)[x] <= 1
    ensures Distinct(s)
  {
    if s != [] {
      var t := s[1..];
      assert s == [s[0]] + t;
      assert forall x :: multiset(t)[x] <= multiset(s)[x];
      CountDistinct(t);
      assert multiset(t)[s[0]] == 0;
      forall i, j | 0 <= i < j < |s| ensures s[i] != s[j] {
        assert s[j] == t[j - 1] && s[j] in t;
        if i > 0 {
          assert s[i] == t[i - 1];
        }
      }
    }
  }

  /** A permutation of a sequence without repeats has no repeats. */
  lemma DistinctPermutation<T>(s: seq<T>, r: seq<T>)
    requires multiset(r) == multiset(s)
    ensures Distinct(s) ==> Distinct(r)
  {
    if Distinct(s) {
      DistinctCount(s);
      CountDistinct(r);
    }
  }

  /** The groups of `xs` for the keys `ks`, one after the other: group `k` is
      the elements of `xs` whose `key` is `k`, in input order. */
  function ConcatGroups<T(!new), K(==)>(xs: seq<T>, key: T -> K, ks: seq<K>): (r: seq<T>)
    ensures forall x :: x in r ==> x in xs && key(x) in ks
  {
    if ks == [] then []
    else Where(xs, key, ks[0], true) + ConcatGroups(xs, key, ks[1..])
  }

  /** Selecting the rows that match and the rows that do not splits the table. */
  lemma WherePartition<T(!new), K>(s: seq<T>, key: T -> K, v: K)
    ensures multiset(Where(s, key, v, true)) + multiset(Where(s, key, v, false)) == multiset(s)
    ensures |Where(s, key, v, true)| + |Where(s, key, v, false)| == |s|
  {
    var m := multiset(Where(s, key, v, true)) + multiset(Where(s, key, v, false));
    WhereCount(s, key, v, true);
    WhereCount(s, key, v, false);
    forall x ensures m[x] == multiset(s)[x] {
    }
    assert m == multiset(s);
    assert |m| == |multiset(Where(s, key, v, true))| + |multiset(Where(s, key, v, false))|;
  }

  /** Under a primary key, at most one row carries a given key. */
  lemma {:induction false} WhereUniqueAtMostOne<T(!new), K>(s: seq<T>, key: T -> K, v: K)
    requires UniqueBy(s, key)
    ensures |Where(s, key, v, true)| <= 1
  {
    if s != [] {
      var t := s[1..];
      assert UniqueBy(t, key) by {
        forall i, j | 0 <= i < j < |t| ensures key(t[i]) != key(t[j]) {
          assert t[i] == s[i + 1] && t[j] == s[j + 1];
        }
      }
      if key(s[0]) == v {
        forall x | x in t ensures key(x) != v {
          var k :| 0 <= k < |t| && t[k] == x;
          assert s[k + 1] == x;
        }
        WhereNoMatch(t, key, v);
      } else {
        WhereUniqueAtMostOne(t, key, v);
      }
    }
  }

  /** Under a primary key, two rows with the same key are the same row. */
  lemma UniqueByMember<T, K>(s: seq<T>, key: T -> K, x: T, y: T)
    requires UniqueBy(s, key) && x in s && y in s && key(x) == key(y)
    ensures x == y
  {
    var i :| 0 <= i < |s| && s[i] == x;
    var j :| 0 <= j < |s| && s[j] == y;
    assert !(i < j) && !(j < i);
  }

  /** The groups for a list of distinct keys that covers every key occurring
      in `xs` together hold exactly the elements of `xs`. */
  lemma {:induction false} ConcatGroupsPermutation<T(!new), K>(xs: seq<T>, key: T -> K, ks: seq<K>)
    requires Distinct(ks)
    requires forall x :: x in xs ==> key(x) in ks
    ensures multiset(ConcatGroups(xs, key, ks)) == multiset(xs)
    decreases ks
  {
    if ks == [] {
      forall x ensures multiset(xs)[x] == 0 {
        assert x !in xs;
      }
    } else {
      var k, rest := ks[0], ks[1..];
      var others := Where(xs, key, k, false);
      assert Distinct(rest) by {
        forall i, j | 0 <= i < j < |rest| ensures rest[i] != rest[j] {
          assert rest[i] == ks[i + 1] && rest[j] == ks[j + 1];
        }
      }
      forall x | x in others ensures key(x) in rest {
        var i :| 0 <= i < |ks| && ks[i] == key(x);
        assert rest[i - 1] == key(x);
      }
      ConcatGroupsPermutation(others, key, rest);
      forall i | 0 <= i < |rest| ensures rest[i] != k {
        assert rest[i] == ks[i + 1];
      }
      ConcatGroupsOther(xs, key, k, rest);
      WherePartition(xs, key, k);
    }
  }

  /** Helper for ConcatGroupsPermutation: the groups for keys other than `k`
      are the same whether or not the elements with key `k` are present. */
  lemma {:induction false} ConcatGroupsOther<T(!new), K>(xs: seq<T>, key: T -> K, k: K, ks: seq<K>)
    requires k !in ks
    ensures ConcatGroups(Where(xs, key, k, false), key, ks) == ConcatGroups(xs, key, ks)
  {
    if ks != [] {
      WhereOther(xs, key, k, ks[0]);
      ConcatGroupsOther(xs, key, k, ks[1..]);
    }
  }

  /** The lists of `groups` for the keys `ks`, one after the other: what a
      screen shows when it walks its sorted keys and lists each group. */
  function Flatten<K, T(!new)>(groups: map<K, seq<T>>, ks: seq<K>): (r: seq<T>)
    requires forall k :: k in ks ==> k in groups
    ensures forall x :: x in r ==> exists k :: k in ks && x in groups[k]
  {
    if ks == [] then []
    else
      var rest := Flatten(groups, ks[1..]);
      assert forall x :: x in rest ==> exists k :: k in ks && x in groups[k] by {
        forall x | x in rest ensures exists k :: k in ks && x in groups[k] {
          var k :| k in ks[1..] && x in groups[k];
          assert k in ks;
        }
      }
      groups[ks[0]] + rest
  }

  /** Flattening groups that are the selections of `xs` is ConcatGroups. */
  lemma {:induction false} FlattenGroups<T(!new), K>(xs: seq<T>, key: T -> K, groups: map<K, seq<T>>, ks: seq<K>)
    requires forall k :: k in ks ==> k in groups && groups[k] == Where(xs, key, k, true)
    ensures Flatten(groups, ks) == ConcatGroups(xs, key, ks)
  {
    if ks != [] {
      FlattenGroups(xs, key, groups, ks[1..]);
    }
  }

  /** Appending an element to a selection's input appends it to the
      selection exactly when it matches. */
  lemma WhereSnoc<T(!new), K>(s: seq<T>, x: T, key: T -> K, v: K)
    ensures Where(s + [x], key, v, true) == Where(s, key, v, true) + (if key(x) == v then [x] else [])
  {
    WhereConcat(s, [x], key, v, true);
    assert [x][1..] == [];
  }

  lemma DistinctAppend<T>(s: seq<T>, x: T)
    requires Distinct(s) && x !in s
    ensures Distinct(s + [x])
  {
    forall i, j | 0 <= i < j < |s + [x]| ensures (s + [x])[i] != (s + [x])[j] {
      assert (s + [x])[i] == s[i];
      if j < |s| {
        assert (s + [x])[j] == s[j];
      } else {
        assert s[i] in s;
      }
    }
  }

  /** The property names an empty object literal `{}` already answers
      through `Object.prototype`. Reading one of them yields a function (for
      `__proto__`, the prototype object itself): a truthy value with no
      `push` method. */
  const InheritedKeys: set<string> := {
    "constructor", "hasOwnProperty", "isPrototypeOf", "propertyIsEnumerable",
    "toLocaleString", "toString", "valueOf", "__proto__",
    "__defineGetter__", "__defineSetter__", "__lookupGetter__", "__lookupSetter__"
  }

  /** The `reduce` that starts from `{}` and, for each element, creates the
      list under its key unless `acc[key]` is already truthy, then pushes the
      element onto `acc[key]`. It returns `ok` false when that `push` throws,
      which happens exactly when some element's key is an inherited property
      name. Otherwise it returns the dictionary and its keys. `keys` is in
      insertion order; `Object.keys` would list integer-like keys first, in
      ascending numeric order, and no property below depends on the order. */
  method GroupBy<T(!new)>(xs: seq<T>, key: T -> string) returns (ok: bool, keys: seq<string>, groups: map<string, seq<T>>)
    ensures ok <==> forall x :: x in xs ==> key(x) !in InheritedKeys
    ensures ok ==> Distinct(keys)
    ensures ok ==> forall k :: k in keys <==> k in groups
    ensures ok ==> forall k :: k in groups <==> exists x :: x in xs && key(x) == k
    ensures ok ==> forall k :: k in groups ==> groups[k] == Where(xs, key, k, true) && groups[k] != []
  {
    ok, keys, groups := true, [], map[];
    for i := 0 to |xs|
      invariant forall x :: x in xs[..i] ==> key(x) !in InheritedKeys
      invariant Distinct(keys)
      invariant forall k :: k in keys <==> k in groups
      invariant forall x :: x in xs[..i] ==> key(x) in groups
      invariant forall k :: k in groups ==> groups[k] == Where(xs[..i], key, k, true) && groups[k] != []
    {
      var x := xs[i];
      var k := key(x);
      assert xs[..i + 1] == xs[..i] + [x];
      if k !in groups {
        if k in InheritedKeys {
          // `acc[k]` is the inherited property, so `!acc[k]` is false and
          // `acc[k].push` is not a function.
          assert x in xs;
          ok := false;
          return;
        }
        WhereNoMatch(xs[..i], key, k);
        DistinctAppend(keys, k);
        groups := groups[k := []];
        keys := keys + [k];
      } else {
        assert groups[k][0] in Where(xs[..i], key, k, true);
      }
      groups := groups[k := groups[k] + [x]];
      forall j | j in groups ensures groups[j] == Where(xs[..i + 1], key, j, true) && groups[j] != [] {
        WhereSnoc(xs[..i], x, key, j);
      }
      forall y | y in xs[..i + 1] ensures key(y) in groups && key(y) !in InheritedKeys {
        if y != x {
          assert y in xs[..i];
        }
      }
    }
    assert xs[..|xs|] == xs;
    forall k | k in groups ensures exists x :: x in xs && key(x) == k {
      assert groups[k][0] in groups[k];
    }
  }
}

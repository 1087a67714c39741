/**
 The string operations of Go's standard library that the modelled code leans on
 (`strings.Index`, `strings.Split`, `strings.Join`, `<` on strings, `sort.Strings`),
 with the laws the other modules need.
 */
module Strings {

  datatype Option<+T> = None | Some(value: T)

  /** Position of the first `c`, or `|s|` when there is none (Go returns -1 there). */
  function IndexOf(s: string, c: char): (i: nat)
    ensures i <= |s|
    ensures i < |s| ==> s[i] == c
    ensures c !in s[..i]
  {
    if s == "" || s[0] == c then 0
    else
      var i := 1 + IndexOf(s[1..], c);
      assert s[..i] == [s[0]] + s[1..][..i - 1];
      i
  }

  lemma IndexOfUnique(s: string, c: char, i: nat)
    requires i <= |s| && c !in s[..i]
    requires i < |s| ==> s[i] == c
    ensures IndexOf(s, c) == i
  {
    var k := IndexOf(s, c);
    assert forall j | 0 <= j < k :: s[j] == s[..k][j] != c;
    assert forall j | 0 <= j < i :: s[j] == s[..i][j] != c;
  }

  lemma Slices<T>(s: seq<T>, i: nat, k: nat)
    requires i + k < |s|
    ensures s[i..][..k] == s[i..i + k] && s[i..][k + 1..] == s[i + k + 1..]
  {
  }

  lemma IndexOfFound(s: string, c: char)
    ensures IndexOf(s, c) < |s| <==> c in s
  {
    hide IndexOf;
    assert s[..|s|] == s;
  }

  /** `strings.Split(s, string(sep))`: always at least one field. */
  function Split(s: string, sep: char): (fields: seq<string>)
    ensures |fields| >= 1
    decreases |s|
  {
    var i := IndexOf(s, sep);
    if i == |s| then [s] else [s[..i]] + Split(s[i + 1..], sep)
  }

  function Join(fields: seq<string>, sep: char): string
    requires |fields| >= 1
  {
    if |fields| == 1 then fields[0] else fields[0] + [sep] + Join(fields[1..], sep)
  }

  ghost predicate FreeOf(fields: seq<string>, c: char) {
    forall f | f in fields :: c !in f
  }

  lemma SplitStep(s: string, sep: char)
    ensures var i := IndexOf(s, sep);
            Split(s, sep) == if i == |s| then [s] else [s[..i]] + Split(s[i + 1..], sep)
  {
    hide IndexOf;
  }

  lemma SplitNone(s: string, sep: char)
    requires sep !in s
    ensures Split(s, sep) == [s]
  {
    assert s[..|s|] == s;
    IndexOfUnique(s, sep, |s|);
  }

  lemma SplitFirst(f: string, rest: string, sep: char)
    requires sep !in f
    ensures Split(f + [sep] + rest, sep) == [f] + Split(rest, sep)
  {
    var s := f + [sep] + rest;
    assert s[..|f|] == f && s[|f| + 1..] == rest;
    IndexOfUnique(s, sep, |f|);
  }

  lemma {:induction false} SplitJoin(fields: seq<string>, sep: char)
    requires |fields| >= 1 && FreeOf(fields, sep)
    ensures Split(Join(fields, sep), sep) == fields
    decreases |fields|
  {
    var f := fields[0];
    if |fields| == 1 {
      SplitNone(f, sep);
      assert fields == [f];
    } else {
      SplitFirst(f, Join(fields[1..], sep), sep);
      SplitJoin(fields[1..], sep);
      assert fields == [f] + fields[1..];
    }
  }

  lemma {:induction false} JoinSplit(s: string, sep: char)
    ensures Join(Split(s, sep), sep) == s
    decreases |s|
  {
    SplitStep(s, sep);
    hide IndexOf;
    hide Split;
    var i := IndexOf(s, sep);
    if i < |s| {
      JoinSplit(s[i + 1..], sep);
      JoinCons(s[..i], Split(s[i + 1..], sep), sep);
      assert s == s[..i] + [sep] + s[i + 1..];
    }
  }

  lemma JoinCons(f: string, fields: seq<string>, sep: char)
    requires |fields| >= 1
    ensures Join([f] + fields, sep) == f + [sep] + Join(fields, sep)
  {
    assert ([f] + fields)[1..] == fields;
  }

  lemma {:induction false} SplitFreeOf(s: string, sep: char)
    ensures FreeOf(Split(s, sep), sep)
    decreases |s|
  {
    SplitStep(s, sep);
    hide IndexOf;
    hide Split;
    var i := IndexOf(s, sep);
    if i == |s| {
      assert s[..i] == s;
    } else {
      SplitFreeOf(s[i + 1..], sep);
    }
  }

  /** The text before and after the last separator is determined by the whole. */
  lemma LastSeparator(a: string, x: string, b: string, y: string, c: char)
    requires a + [c] + x == b + [c] + y
    requires c !in x && c !in y
    ensures a == b && x == y
  {
    var s := a + [c] + x;
    assert s[|a|] == c && s[|b|] == c;
    assert forall j | |a| < j < |s| :: s[j] == x[j - |a| - 1] != c;
    assert forall j | |b| < j < |s| :: s[j] == y[j - |b| - 1] != c;
    assert s[..|a|] == a && s[..|b|] == b;
    assert s[|a| + 1..] == x && s[|b| + 1..] == y;
  }

  // ---------------------------------------------------------------- order

  /** Go's `<` on strings: -1, 0 or 1 as `a` is below, equal to or above `b`. */
  function Compare(a: string, b: string): (r: int)
    ensures -1 <= r <= 1
    ensures r == 0 <==> a == b
  {
    if a == "" then (if b == "" then 0 else -1)
    else if b == "" then 1
    else if a[0] < b[0] then -1
    else if a[0] > b[0] then 1
    else
      var r := Compare(a[1..], b[1..]);
      assert a == [a[0]] + a[1..] && b == [b[0]] + b[1..];
      r
  }

  lemma {:induction false} CompareAntisymmetric(a: string, b: string)
    ensures Compare(b, a) == -Compare(a, b)
  {
    if a != "" && b != "" && a[0] == b[0] {
      CompareAntisymmetric(a[1..], b[1..]);
    }
  }

  lemma {:induction false} CompareTransitive(a: string, b: string, c: string)
    requires Compare(a, b) <= 0 && Compare(b, c) <= 0
    ensures Compare(a, c) <= 0
    ensures Compare(a, b) < 0 || Compare(b, c) < 0 ==> Compare(a, c) < 0
  {
    if a != "" && b != "" && c != "" && a[0] == b[0] == c[0] {
      CompareTransitive(a[1..], b[1..], c[1..]);
    }
  }

  // ---------------------------------------------------------------- sorting

  ghost predicate Sorted(s: seq<string>) {
    forall i, j | 0 <= i < j < |s| :: Compare(s[i], s[j]) <= 0
  }

  function Insert(x: string, s: seq<string>): (r: seq<string>)
    requires Sorted(s)
    ensures Sorted(r)
    ensures multiset(r) == multiset(s) + multiset{x}
  {
    if s == [] then [x]
    else if Compare(x, s[0]) <= 0 then
      InFront(x, s);
      [x] + s
    else
      SortedRest(s);
      var rest := Insert(x, s[1..]);
      Behind(x, s, rest);
      [s[0]] + rest
  }

  lemma InFront(x: string, s: seq<string>)
    requires Sorted(s) && s != [] && Compare(x, s[0]) <= 0
    ensures Sorted([x] + s) && multiset([x] + s) == multiset(s) + multiset{x}
  {
    forall j | 0 < j < |s| ensures Compare(x, s[j]) <= 0 { CompareTransitive(x, s[0], s[j]); }
  }

  lemma Behind(x: string, s: seq<string>, rest: seq<string>)
    requires Sorted(s) && s != [] && Compare(x, s[0]) > 0
    requires Sorted(rest) && multiset(rest) == multiset(s[1..]) + multiset{x}
    ensures Sorted([s[0]] + rest) && multiset([s[0]] + rest) == multiset(s) + multiset{x}
  {
    CompareAntisymmetric(x, s[0]);
    hide Compare;
    MultisetRest(s);
    forall j | 0 <= j < |rest| ensures Compare(s[0], rest[j]) <= 0 {
      assert rest[j] in multiset(rest);
      assert rest[j] == x || rest[j] in s[1..];
    }
  }

  /** `sort.Strings`, known only as a sorted permutation; `SortedUnique` says that this determines it. */
  function Sort(s: seq<string>): (r: seq<string>)
    ensures Sorted(r) && multiset(r) == multiset(s)
  {
    if s == [] then []
    else
      assert s == [s[0]] + s[1..];
      Insert(s[0], Sort(s[1..]))
  }

  lemma SortMembers(s: seq<string>)
    ensures forall x :: x in Sort(s) <==> x in s
  {
    forall x ensures x in Sort(s) <==> x in s {
      assert x in Sort(s) <==> x in multiset(Sort(s));
      assert x in s <==> x in multiset(s);
    }
  }

  /** The least member comes first. */
  lemma SortedHead(a: seq<string>, b: seq<string>)
    requires Sorted(a) && Sorted(b) && a != [] && b != [] && a[0] in b && b[0] in a
    ensures a[0] == b[0]
  {
    HeadLeast(a, b[0]);
    HeadLeast(b, a[0]);
    CompareAntisymmetric(a[0], b[0]);
  }

  lemma HeadLeast(s: seq<string>, x: string)
    requires Sorted(s) && x in s
    ensures Compare(s[0], x) <= 0
  {
    hide Compare;
    var i :| 0 <= i < |s| && s[i] == x;
  }

  lemma SortedRest(s: seq<string>)
    requires Sorted(s) && s != []
    ensures Sorted(s[1..])
  {
    hide Compare;
  }

  lemma MultisetRest<T>(s: seq<T>)
    requires s != []
    ensures multiset(s) == multiset{s[0]} + multiset(s[1..]) && s[0] in multiset(s)
  {
    assert s == [s[0]] + s[1..];
  }

  lemma {:induction false} SortedUnique(a: seq<string>, b: seq<string>)
    requires Sorted(a) && Sorted(b) && multiset(a) == multiset(b)
    ensures a == b
    decreases |a|
  {
    hide Sorted;
    assert |a| == |multiset(a)| == |multiset(b)| == |b|;
    if a != [] {
      MultisetRest(a);
      MultisetRest(b);
      assert a[0] in multiset(b) && b[0] in multiset(a);
      SortedHead(a, b);
      SortedRest(a);
      SortedRest(b);
      assert multiset(a[1..]) == multiset(a) - multiset{a[0]} == multiset(b[1..]);
      SortedUnique(a[1..], b[1..]);
      assert a == [a[0]] + a[1..] && b == [b[0]] + b[1..];
    }
  }

  ghost predicate NoDuplicates<T>(s: seq<T>) {
    forall i, j | 0 <= i < j < |s| :: s[i] != s[j]
  }

  /** `s` lists the set `keys`, once each. */
  ghost predicate Lists<T(!new)>(s: seq<T>, keys: set<T>) {
    NoDuplicates(s) && (forall x :: x in s <==> x in keys)
  }

  /** A set in some order: how Go walks a map, or how a kernel lists a table. */
  method Enumerate<T(==, !new)>(keys: set<T>) returns (s: seq<T>)
    ensures Lists(s, keys) && |s| == |keys|
  {
    s := [];
    var rest := keys;
    while rest != {}
      invariant rest <= keys && |s| == |keys| - |rest|
      invariant Lists(s, keys - rest)
      decreases rest
    {
      var x :| x in rest;
      s := s + [x];
      rest := rest - {x};
    }
  }

  lemma CountedTwice<T>(s: seq<T>, i: nat, j: nat)
    requires i < j < |s| && s[i] == s[j]
    ensures multiset(s)[s[i]] >= 2
  {
    assert s == s[..j] + [s[j]] + s[j + 1..];
    assert s[i] == s[..j][i] && s[i] in s[..j] && s[i] in multiset(s[..j]);
  }

  lemma CountedOnce<T>(s: seq<T>, k: nat)
    requires k < |s| && forall i | 0 <= i < |s| && i != k :: s[i] != s[k]
    ensures multiset(s)[s[k]] == 1
  {
    var x := s[k];
    assert s == s[..k] + [x] + s[k + 1..];
    var later := s[k + 1..];
    forall i | 0 <= i < |later| ensures later[i] != x {
      assert later[i] == s[k + 1 + i];
    }
    assert x !in s[..k] && x !in later;
    assert x !in multiset(s[..k]) && x !in multiset(s[k + 1..]);
  }

  /** The same elements in some order. */
  method Shuffle<T>(s: seq<T>) returns (r: seq<T>)
    ensures multiset(r) == multiset(s)
  {
    r := [];
    var rest := s;
    while rest != []
      invariant multiset(r) + multiset(rest) == multiset(s)
      decreases |rest|
    {
      var k :| 0 <= k < |rest|;
      assert rest == rest[..k] + [rest[k]] + rest[k + 1..];
      r := r + [rest[k]];
      rest := rest[..k] + rest[k + 1..];
    }
  }

  /** The members of a set in sorted order. */
  ghost function SortedOf(keys: set<string>): (r: seq<string>)
    ensures Sorted(r) && multiset(r) == multiset(keys)
    decreases keys
  {
    if keys == {} then []
    else
      var x :| x in keys;
      assert multiset(keys) == multiset(keys - {x}) + multiset{x};
      Insert(x, SortedOf(keys - {x}))
  }

  lemma {:induction false} SortedOfLists(keys: set<string>)
    ensures Lists(SortedOf(keys), keys)
  {
    var r := SortedOf(keys);
    hide SortedOf;
    hide Sorted;
    OnceMultiset(r, keys);
  }

  /** A list with the members of a set and no more occurrences than those. */
  lemma OnceMultiset<T(!new)>(r: seq<T>, keys: set<T>)
    requires multiset(r) == multiset(keys)
    ensures Lists(r, keys)
  {
    forall x ensures x in r <==> x in keys {
      assert x in r <==> x in multiset(r);
    }
    forall i, j | 0 <= i < j < |r| ensures r[i] != r[j] {
      OnceEach(r, i, j);
    }
  }

  lemma OnceEach<T>(r: seq<T>, i: nat, j: nat)
    requires i < j < |r| && forall x | x in r :: multiset(r)[x] <= 1
    ensures r[i] != r[j]
  {
    assert r == r[..j] + [r[j]] + r[j + 1..];
    assert r[i] in r[..j] && r[i] in multiset(r[..j]);
    assert r[j] in r;
  }

  /** `sets.String.List`: the members in sorted order. */
  method SortedList(keys: set<string>) returns (list: seq<string>)
    ensures Sorted(list) && list == SortedOf(keys) && |list| == |keys| && forall x :: x in list <==> x in keys
  {
    var s := Enumerate(keys);
    list := Sort(s);
    SortMembers(s);
    assert |list| == |multiset(list)| == |s|;
    ListsMultiset(s, keys);
    SortedUnique(list, SortedOf(keys));
  }

  lemma ListsMultiset<T(!new)>(s: seq<T>, keys: set<T>)
    requires Lists(s, keys)
    ensures multiset(s) == multiset(keys)
  {
    forall x ensures multiset(s)[x] == multiset(keys)[x] {
      if x in s {
        var k :| 0 <= k < |s| && s[k] == x;
        CountedOnce(s, k);
      } else {
        assert x !in multiset(s) && x !in keys;
      }
    }
  }
}

/**
 * `Array.prototype.sort` with the two comparators the engine uses: `(a, b) => a.id - b.id`
 * and `d3.ascending(a.id, b.id) || d3.ascending(a.s, b.s)`. Both compare a key made of an
 * integer and a string, and the sort is stable, so it is modelled once, as a stable
 * insertion sort over that key.
 */
module Sorting {
  import opened Text

  /** The key a comparator looks at; the sort by id alone uses an empty `minor`. */
  datatype SortKey = SortKey(major: int, minor: string)

  /** The comparator is negative: `a` goes strictly before `b`. */
  predicate KeyLt(a: SortKey, b: SortKey) {
    a.major < b.major || (a.major == b.major && StrLt(a.minor, b.minor))
  }

  ghost predicate SortedBy<T>(xs: seq<T>, key: T -> SortKey) {
    forall i, j :: 0 <= i < j < |xs| ==> !KeyLt(key(xs[j]), key(xs[i]))
  }

  /** The elements of `xs` whose key is `k`, in their order in `xs`. */
  function WithKey<T>(xs: seq<T>, key: T -> SortKey, k: SortKey): seq<T> {
    if |xs| == 0 then []
    else (if key(xs[0]) == k then [xs[0]] else []) + WithKey(xs[1..], key, k)
  }

  /** Places `x` before the first element of `s` whose key is strictly greater. */
  function Insert<T>(x: T, s: seq<T>, key: T -> SortKey): seq<T> {
    if |s| == 0 then [x]
    else if KeyLt(key(x), key(s[0])) then [x] + s
    else [s[0]] + Insert(x, s[1..], key)
  }

  /** Stable sort by `key`: each element is inserted after the earlier ones with an equal key. */
  function Sort<T>(xs: seq<T>, key: T -> SortKey): seq<T> {
    if |xs| == 0 then [] else Insert(xs[|xs| - 1], Sort(xs[..|xs| - 1], key), key)
  }

  lemma KeyLtIrreflexive(a: SortKey)
    ensures !KeyLt(a, a)
  {
    StrLtIrreflexive(a.minor);
  }

  lemma KeyLtTransitive(a: SortKey, b: SortKey, c: SortKey)
    requires KeyLt(a, b) && KeyLt(b, c)
    ensures KeyLt(a, c)
  {
    if a.major == b.major == c.major {
      StrLtTransitive(a.minor, b.minor, c.minor);
    }
  }

  lemma KeyLtTotal(a: SortKey, b: SortKey)
    ensures KeyLt(a, b) || a == b || KeyLt(b, a)
  {
    StrLtTrichotomy(a.minor, b.minor);
  }

  /** Not-greater is transitive, which is what insertion into a sorted sequence needs. */
  lemma KeyLeTransitive(a: SortKey, b: SortKey, c: SortKey)
    requires !KeyLt(b, a) && !KeyLt(c, b)
    ensures !KeyLt(c, a)
  {
    KeyLtTotal(a, b);
    KeyLtTotal(b, c);
    if KeyLt(c, a) {
      if KeyLt(a, b) {
        KeyLtTransitive(c, a, b);
        KeyLtIrreflexive(b);
      } else {
        KeyLtIrreflexive(a);
      }
    }
  }

  lemma {:induction false} InsertContents<T>(x: T, s: seq<T>, key: T -> SortKey)
    ensures |Insert(x, s, key)| == |s| + 1
    ensures multiset(Insert(x, s, key)) == multiset(s) + multiset{x}
  {
    if |s| > 0 && !KeyLt(key(x), key(s[0])) {
      InsertContents(x, s[1..], key);
      assert s == [s[0]] + s[1..];
    }
  }

  lemma {:induction false} InsertSorted<T>(x: T, s: seq<T>, key: T -> SortKey)
    requires SortedBy(s, key)
    ensures SortedBy(Insert(x, s, key), key)
  {
    if |s| == 0 {
    } else if KeyLt(key(x), key(s[0])) {
      InsertSortedFront(x, s, key);
    } else {
      InsertSorted(x, s[1..], key);
      SortedTail(s, key);
      InsertSortedLater(x, s, key);
    }
  }

  /** `x` goes in front of a sorted `s` whose head is strictly greater. */
  lemma InsertSortedFront<T>(x: T, s: seq<T>, key: T -> SortKey)
    requires |s| > 0 && SortedBy(s, key) && KeyLt(key(x), key(s[0]))
    ensures SortedBy([x] + s, key)
  {
    var r := [x] + s;
    forall i, j | 0 <= i < j < |r|
      ensures !KeyLt(key(r[j]), key(r[i]))
    {
      if i == 0 {
        assert r[j] == s[j - 1];
        if j - 1 > 0 {
          assert !KeyLt(key(s[j - 1]), key(s[0]));
        }
        KeyLtTotal(key(s[j - 1]), key(s[0]));
        if KeyLt(key(s[j - 1]), key(x)) {
          KeyLtTransitive(key(s[j - 1]), key(x), key(s[0]));
          if j - 1 == 0 { KeyLtIrreflexive(key(s[0])); }
        }
      } else {
        assert r[i] == s[i - 1] && r[j] == s[j - 1];
      }
    }
  }

  /** `x` goes after the head of a sorted `s` that is not greater, into its sorted tail. */
  lemma InsertSortedLater<T>(x: T, s: seq<T>, key: T -> SortKey)
    requires |s| > 0 && SortedBy(s, key) && !KeyLt(key(x), key(s[0]))
    requires SortedBy(Insert(x, s[1..], key), key)
    ensures SortedBy([s[0]] + Insert(x, s[1..], key), key)
  {
    var t := Insert(x, s[1..], key);
    var r := [s[0]] + t;
    InsertContents(x, s[1..], key);
    forall i, j | 0 <= i < j < |r|
      ensures !KeyLt(key(r[j]), key(r[i]))
    {
      if i == 0 {
        assert r[j] in multiset(t);
        assert r[j] == x || r[j] in multiset(s[1..]);
        if r[j] != x {
          var k :| 1 <= k < |s| && s[k] == r[j] by {
            assert r[j] in s[1..];
            var k' :| 0 <= k' < |s[1..]| && s[1..][k'] == r[j];
            assert s[k' + 1] == r[j];
          }
        }
      } else {
        assert r[i] == t[i - 1] && r[j] == t[j - 1];
      }
    }
  }

  /** The sort returns a sorted permutation of its input. */
  lemma {:induction false} SortIsSortedPermutation<T>(xs: seq<T>, key: T -> SortKey)
    ensures |Sort(xs, key)| == |xs|
    ensures multiset(Sort(xs, key)) == multiset(xs)
    ensures SortedBy(Sort(xs, key), key)
  {
    if |xs| > 0 {
      var n := |xs| - 1;
      SortIsSortedPermutation(xs[..n], key);
      InsertContents(xs[n], Sort(xs[..n], key), key);
      InsertSorted(xs[n], Sort(xs[..n], key), key);
      assert xs == xs[..n] + [xs[n]];
    }
  }

  lemma {:induction false} WithKeyAppend<T>(a: seq<T>, b: seq<T>, key: T -> SortKey, k: SortKey)
    ensures WithKey(a + b, key, k) == WithKey(a, key, k) + WithKey(b, key, k)
  {
    if |a| > 0 {
      WithKeyAppend(a[1..], b, key, k);
      assert (a + b)[0] == a[0] && (a + b)[1..] == a[1..] + b;
    } else {
      assert a + b == b;
    }
  }

  lemma {:induction false} WithKeyNone<T>(s: seq<T>, key: T -> SortKey, k: SortKey)
    requires forall j :: 0 <= j < |s| ==> key(s[j]) != k
    ensures WithKey(s, key, k) == []
  {
    if |s| > 0 {
      WithKeyNone(s[1..], key, k);
    }
  }

  /** A sorted sequence stays sorted without its head. */
  lemma SortedTail<T>(s: seq<T>, key: T -> SortKey)
    requires |s| > 0 && SortedBy(s, key)
    ensures SortedBy(s[1..], key)
  {
    forall i, j | 0 <= i < j < |s| - 1
      ensures !KeyLt(key(s[1..][j]), key(s[1..][i]))
    {
      assert s[1..][i] == s[i + 1] && s[1..][j] == s[j + 1];
    }
  }

  /** An element placed before a sorted `s` because it is strictly smaller shares no key with `s`. */
  lemma KeyBelowSorted<T>(x: T, s: seq<T>, key: T -> SortKey)
    requires |s| > 0 && SortedBy(s, key) && KeyLt(key(x), key(s[0]))
    ensures WithKey(s, key, key(x)) == []
  {
    forall j | 0 <= j < |s|
      ensures key(s[j]) != key(x)
    {
      if j > 0 { assert !KeyLt(key(s[j]), key(s[0])); }
      if key(s[j]) == key(x) {
        KeyLtTransitive(key(s[j]), key(s[0]), key(s[j]));
        KeyLtIrreflexive(key(s[j]));
      }
    }
    WithKeyNone(s, key, key(x));
  }

  /** `WithKey` of a one-element sequence. */
  lemma WithKeySingle<T>(x: T, key: T -> SortKey, k: SortKey)
    ensures WithKey([x], key, k) == if key(x) == k then [x] else []
  {
    assert [x][1..] == [];
  }

  lemma {:induction false} InsertStable<T>(x: T, s: seq<T>, key: T -> SortKey, k: SortKey)
    requires SortedBy(s, key)
    ensures WithKey(Insert(x, s, key), key, k)
         == WithKey(s, key, k) + (if key(x) == k then [x] else [])
  {
    var e := if key(x) == k then [x] else [];
    if |s| == 0 {
      WithKeySingle(x, key, k);
    } else if KeyLt(key(x), key(s[0])) {
      if key(x) == k {
        KeyBelowSorted(x, s, key);
      }
      assert ([x] + s)[1..] == s;
      assert WithKey([x] + s, key, k) == e + WithKey(s, key, k);
    } else {
      var t := Insert(x, s[1..], key);
      var h := if key(s[0]) == k then [s[0]] else [];
      SortedTail(s, key);
      InsertStable(x, s[1..], key, k);
      assert ([s[0]] + t)[1..] == t;
      assert WithKey([s[0]] + t, key, k) == h + WithKey(t, key, k);
      assert WithKey(s, key, k) == h + WithKey(s[1..], key, k);
      assert h + (WithKey(s[1..], key, k) + e) == (h + WithKey(s[1..], key, k)) + e;
    }
  }

  /** The sort is stable: the elements sharing a key keep their relative order. */
  lemma {:induction false} SortIsStable<T>(xs: seq<T>, key: T -> SortKey, k: SortKey)
    ensures WithKey(Sort(xs, key), key, k) == WithKey(xs, key, k)
  {
    if |xs| > 0 {
      var n := |xs| - 1;
      var sorted := Sort(xs[..n], key);
      assert Sort(xs, key) == Insert(xs[n], sorted, key);
      SortIsStable(xs[..n], key, k);
      SortIsSortedPermutation(xs[..n], key);
      InsertStable(xs[n], sorted, key, k);
      WithKeySingle(xs[n], key, k);
      WithKeyAppend(xs[..n], [xs[n]], key, k);
      assert xs == xs[..n] + [xs[n]];
    }
  }

  lemma {:induction false} InsertLast<T>(x: T, s: seq<T>, key: T -> SortKey)
    requires forall j :: 0 <= j < |s| ==> !KeyLt(key(x), key(s[j]))
    ensures Insert(x, s, key) == s + [x]
  {
    if |s| > 0 {
      InsertLast(x, s[1..], key);
      assert s == [s[0]] + s[1..];
    }
  }

  /** Sorting an already sorted sequence changes nothing. */
  lemma {:induction false} SortOfSorted<T>(xs: seq<T>, key: T -> SortKey)
    requires SortedBy(xs, key)
    ensures Sort(xs, key) == xs
  {
    if |xs| > 0 {
      var n := |xs| - 1;
      assert SortedBy(xs[..n], key);
      SortOfSorted(xs[..n], key);
      InsertLast(xs[n], xs[..n], key);
      assert xs == xs[..n] + [xs[n]];
    }
  }

  /** `WithKey` keeps exactly the elements whose key is `k`. */
  lemma {:induction false} WithKeyMembership<T>(xs: seq<T>, key: T -> SortKey, k: SortKey)
    ensures forall x :: x in WithKey(xs, key, k) <==> x in xs && key(x) == k
  {
    if |xs| > 0 {
      WithKeyMembership(xs[1..], key, k);
      assert xs == [xs[0]] + xs[1..];
    }
  }

  /** When every element has key `k`, `WithKey` keeps the whole sequence. */
  lemma {:induction false} WithKeyAll<T>(xs: seq<T>, key: T -> SortKey, k: SortKey)
    requires forall j :: 0 <= j < |xs| ==> key(xs[j]) == k
    ensures WithKey(xs, key, k) == xs
  {
    if |xs| > 0 {
      WithKeyAll(xs[1..], key, k);
      assert xs == [xs[0]] + xs[1..];
    }
  }

  /** No two elements share a key. */
  predicate DistinctKeys<T>(xs: seq<T>, key: T -> SortKey) {
    forall i, j :: 0 <= i < j < |xs| ==> key(xs[i]) != key(xs[j])
  }

  ghost predicate StrictlySortedBy<T>(xs: seq<T>, key: T -> SortKey) {
    forall i, j :: 0 <= i < j < |xs| ==> KeyLt(key(xs[i]), key(xs[j]))
  }

  lemma {:induction false} DistinctKeysWithKey<T>(xs: seq<T>, key: T -> SortKey, k: SortKey)
    requires DistinctKeys(xs, key)
    ensures |WithKey(xs, key, k)| <= 1
  {
    if |xs| > 0 {
      assert DistinctKeys(xs[1..], key) by {
        forall i, j | 0 <= i < j < |xs[1..]|
          ensures key(xs[1..][i]) != key(xs[1..][j])
        {
          assert xs[1..][i] == xs[i + 1] && xs[1..][j] == xs[j + 1];
        }
      }
      DistinctKeysWithKey(xs[1..], key, k);
      if key(xs[0]) == k {
        forall j | 0 <= j < |xs[1..]|
          ensures key(xs[1..][j]) != k
        {
          assert xs[1..][j] == xs[j + 1];
        }
        WithKeyNone(xs[1..], key, k);
      }
    }
  }

  lemma {:induction false} WithKeyTwo<T>(xs: seq<T>, key: T -> SortKey, i: int, j: int)
    requires 0 <= i < j < |xs| && key(xs[i]) == key(xs[j])
    ensures |WithKey(xs, key, key(xs[i]))| >= 2
  {
    var k := key(xs[i]);
    if i == 0 {
      WithKeyMembership(xs[1..], key, k);
      assert xs[1..][j - 1] == xs[j];
      assert xs[j] in WithKey(xs[1..], key, k);
    } else {
      assert xs[1..][i - 1] == xs[i] && xs[1..][j - 1] == xs[j];
      WithKeyTwo(xs[1..], key, i - 1, j - 1);
    }
  }

  /** Sorting a sequence with distinct keys orders it strictly. */
  lemma SortDistinctIsStrict<T>(xs: seq<T>, key: T -> SortKey)
    requires DistinctKeys(xs, key)
    ensures StrictlySortedBy(Sort(xs, key), key)
  {
    var s := Sort(xs, key);
    SortIsSortedPermutation(xs, key);
    forall i, j | 0 <= i < j < |s|
      ensures KeyLt(key(s[i]), key(s[j]))
    {
      if key(s[i]) == key(s[j]) {
        WithKeyTwo(s, key, i, j);
        SortIsStable(xs, key, key(s[i]));
        DistinctKeysWithKey(xs, key, key(s[i]));
        assert false;
      }
      KeyLtTotal(key(s[i]), key(s[j]));
    }
  }
}

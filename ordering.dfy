/**
 * Python's ordering of `str` values and the two list operations the corner
 * selection is built from: `filter` by membership of a key in a list of
 * names, and the stable `sorted(..., key=...)`.
 */
module Ordering {

  /** Python's `a <= b` on `str`: lexicographic by code point, a proper prefix first. */
  predicate StrLe(a: string, b: string)
    decreases |a|
  {
    |a| == 0 || (|b| > 0 && (a[0] < b[0] || (a[0] == b[0] && StrLe(a[1..], b[1..]))))
  }

  lemma {:induction false} StrLeReflexive(a: string)
    ensures StrLe(a, a)
    decreases |a|
  {
    if |a| > 0 {
      StrLeReflexive(a[1..]);
    }
  }

  lemma {:induction false} StrLeTotal(a: string, b: string)
    ensures StrLe(a, b) || StrLe(b, a)
    decreases |a|
  {
    if |a| > 0 && |b| > 0 && a[0] == b[0] {
      StrLeTotal(a[1..], b[1..]);
    }
  }

  lemma {:induction false} StrLeAntisymmetric(a: string, b: string)
    requires StrLe(a, b) && StrLe(b, a)
    ensures a == b
    decreases |a|
  {
    if |a| > 0 {
      StrLeAntisymmetric(a[1..], b[1..]);
      assert a == [a[0]] + a[1..] && b == [b[0]] + b[1..];
    }
  }

  lemma {:induction false} StrLeTransitive(a: string, b: string, c: string)
    requires StrLe(a, b) && StrLe(b, c)
    ensures StrLe(a, c)
    decreases |a|
  {
    if |a| > 0 && a[0] == b[0] && b[0] == c[0] {
      StrLeTransitive(a[1..], b[1..], c[1..]);
    }
  }

  /** Non-decreasing under Python's string order. */
  predicate Sorted(ks: seq<string>)
  {
    forall i, j :: 0 <= i < j < |ks| ==> StrLe(ks[i], ks[j])
  }

  /** Four strings in order pairwise-adjacent are sorted. */
  lemma SortedFour(a: string, b: string, c: string, d: string)
    requires StrLe(a, b) && StrLe(b, c) && StrLe(c, d)
    ensures Sorted([a, b, c, d])
  {
    StrLeTransitive(a, b, c);
    StrLeTransitive(a, c, d);
    StrLeTransitive(b, c, d);
    StrLeReflexive(a);
  }

  predicate Distinct(s: seq<string>)
  {
    forall i, j :: 0 <= i < j < |s| ==> s[i] != s[j]
  }

  /** The key of every element, in order (`[key(x) for x in s]`). */
  function Keys<T>(s: seq<T>, key: T -> string): seq<string>
  {
    seq(|s|, i requires 0 <= i < |s| => key(s[i]))
  }

  lemma KeysCons<T>(x: T, s: seq<T>, key: T -> string)
    ensures Keys([x] + s, key) == [key(x)] + Keys(s, key)
  {
  }

  lemma KeysTail<T>(s: seq<T>, key: T -> string)
    requires s != []
    ensures Keys(s, key) == [key(s[0])] + Keys(s[1..], key)
    ensures Sorted(Keys(s, key)) ==> Sorted(Keys(s[1..], key))
  {
    assert Keys(s[1..], key) == Keys(s, key)[1..];
  }

  /** Inserts key `k` into a sorted list of keys before the first one it does not exceed. */
  function InsertKey(k: string, ks: seq<string>): (r: seq<string>)
    requires Sorted(ks)
    ensures Sorted(r)
    ensures multiset(r) == multiset(ks) + multiset{k}
  {
    if ks == [] then
      [k]
    else if StrLe(k, ks[0]) then
      forall j | 0 < j < |ks|
        ensures StrLe(k, ks[j])
      {
        StrLeTransitive(k, ks[0], ks[j]);
      }
      [k] + ks
    else
      StrLeTotal(k, ks[0]);
      var t := InsertKey(k, ks[1..]);
      assert ks == [ks[0]] + ks[1..];
      forall j | 0 <= j < |t|
        ensures StrLe(ks[0], t[j])
      {
        assert t[j] in multiset(t);
        if t[j] != k {
          assert t[j] in multiset(ks[1..]);
          var m :| 0 <= m < |ks[1..]| && ks[1..][m] == t[j];
          assert ks[m + 1] == t[j];
        }
      }
      [ks[0]] + t
  }

  /**
   * Inserts `x` before the first element whose key is not smaller; every
   * element already there came later in the input, so equal keys keep
   * their input order.
   */
  function InsertByKey<T>(x: T, s: seq<T>, key: T -> string): (r: seq<T>)
    ensures Sorted(Keys(s, key)) ==> Keys(r, key) == InsertKey(key(x), Keys(s, key))
  {
    if s == [] then
      [x]
    else if StrLe(key(x), key(s[0])) then
      KeysCons(x, s, key);
      [x] + s
    else
      KeysTail(s, key);
      var t := InsertByKey(x, s[1..], key);
      KeysCons(s[0], t, key);
      [s[0]] + t
  }

  lemma {:induction false} InsertByKeyPermutes<T>(x: T, s: seq<T>, key: T -> string)
    ensures multiset(InsertByKey(x, s, key)) == multiset(s) + multiset{x}
  {
    if s != [] && !StrLe(key(x), key(s[0])) {
      InsertByKeyPermutes(x, s[1..], key);
      assert s == [s[0]] + s[1..];
    }
  }

  /** Python's `sorted(s, key=key)`: a stable sort by string key. */
  function SortByKey<T>(s: seq<T>, key: T -> string): (r: seq<T>)
    ensures Sorted(Keys(r, key))
    ensures multiset(Keys(r, key)) == multiset(Keys(s, key))
  {
    if s == [] then
      []
    else
      KeysTail(s, key);
      InsertByKey(s[0], SortByKey(s[1..], key), key)
  }

  lemma {:induction false} SortByKeyPermutes<T>(s: seq<T>, key: T -> string)
    ensures multiset(SortByKey(s, key)) == multiset(s)
  {
    if s != [] {
      var t := SortByKey(s[1..], key);
      SortByKeyPermutes(s[1..], key);
      InsertByKeyPermutes(s[0], t, key);
      ConsPermutes(s, t, InsertByKey(s[0], t, key));
    }
  }

  lemma ConsPermutes<T>(s: seq<T>, t: seq<T>, r: seq<T>)
    requires s != [] && multiset(t) == multiset(s[1..]) && multiset(r) == multiset(t) + multiset{s[0]}
    ensures multiset(r) == multiset(s)
  {
    assert s == [s[0]] + s[1..];
  }

  /**
   * Inserting `x` adds it to the elements of its key ahead of those already
   * there, and leaves the elements of every other key as they were.
   */
  lemma {:induction false} InsertByKeyRestricted<T>(x: T, t: seq<T>, key: T -> string, k: string)
    ensures FilterByKey(InsertByKey(x, t, key), key, [k])
         == (if key(x) == k then [x] else []) + FilterByKey(t, key, [k])
  {
    if t == [] {
    } else if StrLe(key(x), key(t[0])) {
      assert ([x] + t)[1..] == t;
    } else {
      InsertByKeyRestricted(x, t[1..], key, k);
      var u := InsertByKey(x, t[1..], key);
      assert ([t[0]] + u)[1..] == u;
      if key(x) == k && key(t[0]) == k {
        StrLeReflexive(k);
      }
    }
  }

  /**
   * Stability: among the elements of any one key, the sort keeps the input
   * order.
   */
  lemma {:induction false} SortByKeyStable<T>(s: seq<T>, key: T -> string, k: string)
    ensures FilterByKey(SortByKey(s, key), key, [k]) == FilterByKey(s, key, [k])
  {
    if s != [] {
      var t := SortByKey(s[1..], key);
      SortByKeyStable(s[1..], key, k);
      InsertByKeyRestricted(s[0], t, key, k);
      ConsRestricted(s, t, InsertByKey(s[0], t, key), key, k);
    }
  }

  lemma ConsRestricted<T>(s: seq<T>, t: seq<T>, r: seq<T>, key: T -> string, k: string)
    requires s != [] && FilterByKey(t, key, [k]) == FilterByKey(s[1..], key, [k])
    requires FilterByKey(r, key, [k]) == (if key(s[0]) == k then [s[0]] else []) + FilterByKey(t, key, [k])
    ensures FilterByKey(r, key, [k]) == FilterByKey(s, key, [k])
  {
  }

  /** `list(filter(lambda x: key(x) in names, s))`. */
  function FilterByKey<T>(s: seq<T>, key: T -> string, names: seq<string>): (r: seq<T>)
    ensures forall i :: 0 <= i < |r| ==> key(r[i]) in names
  {
    if s == [] then
      []
    else
      var t := FilterByKey(s[1..], key, names);
      if key(s[0]) in names then [s[0]] + t else t
  }

  /** The filter keeps exactly the elements whose key is one of the names. */
  lemma {:induction false} FilterByKeyMembers<T>(s: seq<T>, key: T -> string, names: seq<string>)
    ensures multiset(FilterByKey(s, key, names)) <= multiset(s)
    ensures forall i :: 0 <= i < |s| && key(s[i]) in names ==> s[i] in multiset(FilterByKey(s, key, names))
  {
    if s != [] {
      FilterByKeyMembers(s[1..], key, names);
      var t := FilterByKey(s[1..], key, names);
      var r := FilterByKey(s, key, names);
      assert s == [s[0]] + s[1..];
      assert multiset(s) == multiset{s[0]} + multiset(s[1..]);
      assert multiset(t) <= multiset(r);
      forall i | 0 < i < |s| && key(s[i]) in names
        ensures s[i] in multiset(r)
      {
        assert s[1..][i - 1] == s[i];
        assert s[i] in multiset(t);
      }
    }
  }

  /** Each name keeps its number of occurrences as a key; other keys disappear. */
  lemma {:induction false} FilterByKeyCounts<T>(s: seq<T>, key: T -> string, names: seq<string>)
    ensures forall n :: multiset(Keys(FilterByKey(s, key, names), key))[n]
                        == if n in names then multiset(Keys(s, key))[n] else 0
  {
    if s != [] {
      FilterByKeyCounts(s[1..], key, names);
      var t := FilterByKey(s[1..], key, names);
      KeysTail(s, key);
      KeysCons(s[0], t, key);
    }
  }

  lemma FilterAppend<T>(a: seq<T>, b: seq<T>, key: T -> string, names: seq<string>)
    ensures FilterByKey(a + b, key, names) == FilterByKey(a, key, names) + FilterByKey(b, key, names)
  {
    if a == [] {
      assert a + b == b;
    } else {
      assert (a + b)[1..] == a[1..] + b;
      FilterAppend(a[1..], b, key, names);
    }
  }

  /** The head of a sorted list is below every element of it. */
  lemma SortedHeadLeast(a: seq<string>, x: string)
    requires Sorted(a) && x in a
    ensures StrLe(a[0], x)
  {
    var i :| 0 <= i < |a| && a[i] == x;
    if i == 0 {
      StrLeReflexive(x);
    }
  }

  lemma SortedTail(a: seq<string>)
    requires Sorted(a) && a != []
    ensures Sorted(a[1..])
    ensures multiset(a[1..]) == multiset(a) - multiset{a[0]}
  {
    assert a == [a[0]] + a[1..];
  }

  /** Two sorted lists holding the same strings are the same list. */
  lemma {:induction false} SortedUnique(a: seq<string>, b: seq<string>)
    requires Sorted(a) && Sorted(b)
    requires multiset(a) == multiset(b)
    ensures a == b
  {
    assert |a| == |multiset(a)| == |multiset(b)| == |b|;
    if a != [] {
      assert a[0] in multiset(b) && b[0] in multiset(a);
      SortedHeadLeast(b, a[0]);
      SortedHeadLeast(a, b[0]);
      StrLeAntisymmetric(a[0], b[0]);
      SortedTail(a);
      SortedTail(b);
      SortedUnique(a[1..], b[1..]);
      assert a == [a[0]] + a[1..] && b == [b[0]] + b[1..];
    }
  }

  /** A list without repeats holds each of its elements exactly once. */
  lemma {:induction false} DistinctCount(s: seq<string>)
    requires Distinct(s)
    ensures forall x :: multiset(s)[x] == if x in s then 1 else 0
  {
    if s != [] {
      DistinctCount(s[1..]);
      assert s == [s[0]] + s[1..];
      assert s[0] !in s[1..];
    }
  }

  /**
   * Selecting the elements whose key is one of `names` and sorting them by
   * key gives the names themselves in sorted order, when the names are
   * distinct and each occurs as the key of exactly one element.
   */
  lemma SelectionKeys<T>(s: seq<T>, key: T -> string, names: seq<string>)
    requires Distinct(names)
    requires forall n :: n in names ==> multiset(Keys(s, key))[n] == 1
    ensures var ks := Keys(SortByKey(FilterByKey(s, key, names), key), key);
      Sorted(ks) && multiset(ks) == multiset(names) && |ks| == |names|
  {
    DistinctCount(names);
    FilterByKeyCounts(s, key, names);
    var ks := Keys(SortByKey(FilterByKey(s, key, names), key), key);
    assert multiset(ks) == multiset(names);
    assert |ks| == |multiset(ks)| == |multiset(names)| == |names|;
  }
}

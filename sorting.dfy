/** Python's `sorted(xs, key=f)` and `list.sort(key=f)` over string keys, and `sorted` over
    reals. Python's sort is stable; SortBy is an insertion sort that keeps records with equal
    keys in input order, and KeepsOrderOfEqualKeys states exactly that. */
module Sorting {
  import opened Base
  import opened Grouping

  predicate SortedBy<T>(s: seq<T>, key: T -> string) {
    forall i, j :: 0 <= i < j < |s| ==> StrLe(key(s[i]), key(s[j]))
  }

  /** Inserts x after every element whose key is <= key(x). */
  function InsertBy<T>(x: T, s: seq<T>, key: T -> string): (r: seq<T>)
    ensures |r| == |s| + 1
    ensures multiset(r) == multiset(s) + multiset{x}
  {
    if s == [] || StrLe(key(s[|s| - 1]), key(x)) then s + [x]
    else
      assert s == s[..|s| - 1] + [s[|s| - 1]];
      InsertBy(x, s[..|s| - 1], key) + [s[|s| - 1]]
  }

  function SortBy<T>(s: seq<T>, key: T -> string): (r: seq<T>)
    ensures |r| == |s|
    ensures multiset(r) == multiset(s)
  {
    if s == [] then []
    else
      assert s == s[..|s| - 1] + [s[|s| - 1]];
      InsertBy(s[|s| - 1], SortBy(s[..|s| - 1], key), key)
  }

  lemma SortByElems<T>(s: seq<T>, key: T -> string)
    ensures forall x :: x in SortBy(s, key) <==> x in s
  {
    assert forall x :: x in SortBy(s, key) <==> x in multiset(s);
  }

  lemma {:induction false} InsertSorted<T>(x: T, s: seq<T>, key: T -> string)
    requires SortedBy(s, key)
    ensures SortedBy(InsertBy(x, s, key), key)
  {
    var r := InsertBy(x, s, key);
    if s == [] {
    } else if StrLe(key(s[|s| - 1]), key(x)) {
      forall i, j | 0 <= i < j < |r| ensures StrLe(key(r[i]), key(r[j])) {
        if j == |s| && i < |s| - 1 {
          StrLeTransitive(key(s[i]), key(s[|s| - 1]), key(x));
        }
      }
    } else {
      var init, last := s[..|s| - 1], s[|s| - 1];
      StrLeTotal(key(last), key(x));
      InsertSorted(x, init, key);
      var front := InsertBy(x, init, key);
      assert r == front + [last];
      forall i, j | 0 <= i < j < |r| ensures StrLe(key(r[i]), key(r[j])) {
        if j == |front| {
          var y := r[i];
          assert y in multiset(front);
          assert y == x || y in multiset(init);
          if y != x {
            var k :| 0 <= k < |init| && init[k] == y;
            assert s[k] == y;
          }
        }
      }
    }
  }

  lemma {:induction false} SortBySorted<T>(s: seq<T>, key: T -> string)
    ensures SortedBy(SortBy(s, key), key)
  {
    if s != [] {
      SortBySorted(s[..|s| - 1], key);
      InsertSorted(s[|s| - 1], SortBy(s[..|s| - 1], key), key);
    }
  }

  lemma {:induction false} InsertKeepsOrder<T>(x: T, s: seq<T>, key: T -> string, k: string)
    requires SortedBy(s, key)
    ensures Bucket(InsertBy(x, s, key), key, k)
         == Bucket(s, key, k) + (if key(x) == k then [x] else [])
  {
    if s == [] || StrLe(key(s[|s| - 1]), key(x)) {
      BucketSnoc(s, x, key, k);
    } else {
      var init, last := s[..|s| - 1], s[|s| - 1];
      SortedByPrefix(s, key);
      InsertKeepsOrder(x, init, key, k);
      var front := InsertBy(x, init, key);
      InsertByPastLast(x, s, key);
      BucketSnoc(front, last, key, k);
      BucketSnoc(init, last, key, k);
      assert s == init + [last];
      if key(x) == k {
        assert key(last) != k;
      }
    }
  }

  lemma SortedByPrefix<T>(s: seq<T>, key: T -> string)
    requires s != [] && SortedBy(s, key)
    ensures SortedBy(s[..|s| - 1], key)
  {
  }

  /** Inserting before the last element. */
  lemma InsertByPastLast<T>(x: T, s: seq<T>, key: T -> string)
    requires s != [] && !StrLe(key(s[|s| - 1]), key(x))
    ensures InsertBy(x, s, key) == InsertBy(x, s[..|s| - 1], key) + [s[|s| - 1]]
  {
  }

  /** Stability: the records sharing any one key come out in the order they went in. */
  lemma {:induction false} KeepsOrderOfEqualKeys<T>(s: seq<T>, key: T -> string, k: string)
    ensures Bucket(SortBy(s, key), key, k) == Bucket(s, key, k)
  {
    if s != [] {
      KeepsOrderOfEqualKeys(s[..|s| - 1], key, k);
      SortBySorted(s[..|s| - 1], key);
      InsertKeepsOrder(s[|s| - 1], SortBy(s[..|s| - 1], key), key, k);
    }
  }

  function Identity(x: string): string { x }

  /** sorted() over strings. */
  function SortStrings(s: seq<string>): seq<string> {
    SortBy(s, Identity)
  }

  predicate StrictlySorted(s: seq<string>) {
    forall i, j :: 0 <= i < j < |s| ==> StrLt(s[i], s[j])
  }

  lemma {:induction false} InsertNoDup<T>(x: T, s: seq<T>, key: T -> string)
    requires NoDup(s) && x !in s
    ensures NoDup(InsertBy(x, s, key))
  {
    if s != [] && !StrLe(key(s[|s| - 1]), key(x)) {
      var init, last := s[..|s| - 1], s[|s| - 1];
      InsertNoDup(x, init, key);
      var front := InsertBy(x, init, key);
      assert last !in multiset(front) by {
        assert last != x && last !in multiset(init);
      }
    }
  }

  lemma {:induction false} SortByNoDup<T>(s: seq<T>, key: T -> string)
    requires NoDup(s)
    ensures NoDup(SortBy(s, key))
  {
    if s != [] {
      var init := s[..|s| - 1];
      SortByNoDup(init, key);
      assert s[|s| - 1] !in multiset(SortBy(init, key));
      InsertNoDup(s[|s| - 1], SortBy(init, key), key);
    }
  }

  /** Sorting distinct strings gives a strictly ascending sequence of the same strings. */
  lemma SortStringsStrict(s: seq<string>)
    requires NoDup(s)
    ensures StrictlySorted(SortStrings(s))
    ensures Elems(SortStrings(s)) == Elems(s)
  {
    var r := SortStrings(s);
    SortBySorted(s, Identity);
    SortByNoDup(s, Identity);
    assert forall x :: x in r <==> x in multiset(s);
  }

  /** `sorted()` of the keys of a dict filled from s lists every key of s once, in strictly
      ascending order. */
  lemma SortedKeys<T>(s: seq<T>, key: T -> string)
    ensures StrictlySorted(SortStrings(FirstSeenKeys(s, key)))
    ensures forall k :: k in SortStrings(FirstSeenKeys(s, key)) <==> k in KeysOf(s, key)
  {
    var ks := KeyList(s, key);
    DistinctElems(ks);
    KeyListElems(s, key);
    SortStringsStrict(Distinct(ks));
    assert forall k :: k in SortStrings(Distinct(ks)) <==> k in Elems(SortStrings(Distinct(ks)));
  }

  lemma StrictlySortedNoDup(s: seq<string>)
    requires StrictlySorted(s)
    ensures NoDup(s)
  {
    forall i, j | 0 <= i < j < |s| ensures s[i] != s[j] {
      if s[i] == s[j] { StrLtIrreflexive(s[i]); }
    }
  }

  lemma {:induction false} StrictLastIsGreatest(s: seq<string>, x: string)
    requires StrictlySorted(s) && x in s && s != []
    ensures x == s[|s| - 1] || StrLt(x, s[|s| - 1])
  {
  }

  /** A set of strings has exactly one strictly ascending enumeration, so the result of
      `sorted(some_set)` depends on the set alone. */
  lemma {:induction false} StrictlySortedUnique(a: seq<string>, b: seq<string>)
    requires StrictlySorted(a) && StrictlySorted(b)
    requires Elems(a) == Elems(b)
    ensures a == b
  {
    StrictlySortedNoDup(a);
    StrictlySortedNoDup(b);
    NoDupCardinality(a);
    NoDupCardinality(b);
    if a != [] {
      SameLast(a, b);
      DropLast(a);
      DropLast(b);
      StrictlySortedUnique(a[..|a| - 1], b[..|b| - 1]);
      assert a == a[..|a| - 1] + [a[|a| - 1]];
      assert b == b[..|b| - 1] + [b[|b| - 1]];
    }
  }

  /** Two strictly ascending enumerations of one non-empty set end with the same element. */
  lemma SameLast(a: seq<string>, b: seq<string>)
    requires StrictlySorted(a) && StrictlySorted(b) && a != [] && b != []
    requires Elems(a) == Elems(b)
    ensures a[|a| - 1] == b[|b| - 1]
  {
    var x, y := a[|a| - 1], b[|b| - 1];
    assert x in Elems(b) && y in Elems(a);
    StrictLastIsGreatest(b, x);
    StrictLastIsGreatest(a, y);
    if x != y {
      StrLtTransitive(x, y, x);
      StrLtIrreflexive(x);
    }
  }

  /** Without its last element, a strictly ascending sequence stays strictly ascending and
      loses exactly that element, which occurs nowhere before. */
  lemma DropLast(s: seq<string>)
    requires StrictlySorted(s) && s != []
    ensures StrictlySorted(s[..|s| - 1])
    ensures Elems(s[..|s| - 1]) == Elems(s) - {s[|s| - 1]}
  {
    var x, init := s[|s| - 1], s[..|s| - 1];
    forall i | 0 <= i < |init| ensures init[i] != x {
      assert StrLt(s[i], x);
      if s[i] == x { StrLtIrreflexive(x); }
    }
    assert s == init + [x];
  }

  predicate SortedReals(s: seq<real>) {
    forall i, j :: 0 <= i < j < |s| ==> s[i] <= s[j]
  }

  function InsertReal(x: real, s: seq<real>): (r: seq<real>)
    ensures |r| == |s| + 1
    ensures multiset(r) == multiset(s) + multiset{x}
  {
    if s == [] || s[|s| - 1] <= x then s + [x]
    else
      assert s == s[..|s| - 1] + [s[|s| - 1]];
      InsertReal(x, s[..|s| - 1]) + [s[|s| - 1]]
  }

  /** sorted() over floats, with reals for floats. */
  function SortReals(s: seq<real>): (r: seq<real>)
    ensures |r| == |s|
    ensures multiset(r) == multiset(s)
  {
    if s == [] then []
    else
      assert s == s[..|s| - 1] + [s[|s| - 1]];
      InsertReal(s[|s| - 1], SortReals(s[..|s| - 1]))
  }

  lemma {:induction false} InsertRealSorted(x: real, s: seq<real>)
    requires SortedReals(s)
    ensures SortedReals(InsertReal(x, s))
  {
    if s != [] && s[|s| - 1] > x {
      var init, last := s[..|s| - 1], s[|s| - 1];
      InsertRealSorted(x, init);
      var front := InsertReal(x, init);
      forall i | 0 <= i < |front| ensures front[i] <= last {
        assert front[i] in multiset(init) + multiset{x};
        if front[i] != x {
          var k :| 0 <= k < |init| && init[k] == front[i];
          assert s[k] == front[i];
        }
      }
    }
  }

  lemma {:induction false} SortRealsSorted(s: seq<real>)
    ensures SortedReals(SortReals(s))
  {
    if s != [] {
      SortRealsSorted(s[..|s| - 1]);
      InsertRealSorted(s[|s| - 1], SortReals(s[..|s| - 1]));
    }
  }
}

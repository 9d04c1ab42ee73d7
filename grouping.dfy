/** Grouping by a string key, as the metrics code does with `defaultdict(list)` and
    `dict[key].append(x)`: a bucket is the subsequence of records with that key, in input
    order. The buckets of distinct keys partition the input, so any per-record quantity
    summed over all buckets gives its total over the input (conservation). */
module Grouping {
  import opened Base

  /** The records of s whose key is k, in input order. */
  function Bucket<T>(s: seq<T>, key: T -> string, k: string): (r: seq<T>)
    ensures |r| <= |s|
  {
    if s == [] then []
    else Bucket(s[..|s| - 1], key, k) + (if key(s[|s| - 1]) == k then [s[|s| - 1]] else [])
  }

  /** The keys that occur in s. */
  function KeysOf<T(==)>(s: seq<T>, key: T -> string): set<string> {
    set x | x in s :: key(x)
  }

  /** The total of a per-record quantity. */
  function Weight<T>(s: seq<T>, w: T -> int): int {
    if s == [] then 0 else Weight(s[..|s| - 1], w) + w(s[|s| - 1])
  }

  function One<T>(x: T): int { 1 }

  /** The total over the buckets of the keys in ks. */
  function BucketTotals<T>(ks: seq<string>, s: seq<T>, key: T -> string, w: T -> int): int {
    if ks == [] then 0
    else BucketTotals(ks[..|ks| - 1], s, key, w) + Weight(Bucket(s, key, ks[|ks| - 1]), w)
  }

  lemma BucketSnoc<T>(s: seq<T>, x: T, key: T -> string, k: string)
    ensures Bucket(s + [x], key, k) == Bucket(s, key, k) + (if key(x) == k then [x] else [])
  {
    assert (s + [x])[..|s|] == s;
  }

  lemma {:induction false} BucketAppend<T>(a: seq<T>, b: seq<T>, key: T -> string, k: string)
    ensures Bucket(a + b, key, k) == Bucket(a, key, k) + Bucket(b, key, k)
  {
    if b == [] {
      assert a + b == a;
    } else {
      assert a + b == (a + b[..|b| - 1]) + [b[|b| - 1]];
      BucketSnoc(a + b[..|b| - 1], b[|b| - 1], key, k);
      BucketAppend(a, b[..|b| - 1], key, k);
    }
  }

  /** Every record of a bucket comes from the input and carries the bucket's key. */
  lemma {:induction false} BucketMembers<T>(s: seq<T>, key: T -> string, k: string)
    ensures forall x :: x in Bucket(s, key, k) ==> x in s && key(x) == k
  {
    if s != [] {
      BucketMembers(s[..|s| - 1], key, k);
    }
  }

  /** A record is in the bucket of k exactly when it is in the input with key k. */
  lemma {:induction false} InBucket<T>(s: seq<T>, key: T -> string, k: string, x: T)
    ensures x in Bucket(s, key, k) <==> x in s && key(x) == k
  {
    if s != [] {
      var init, last := s[..|s| - 1], s[|s| - 1];
      InBucket(init, key, k, x);
      assert s == init + [last];
    }
  }

  /** A key that occurs in the input has a non-empty bucket, and one that does not has an
      empty bucket. */
  lemma {:induction false} BucketNonEmptyIffKey<T>(s: seq<T>, key: T -> string, k: string)
    ensures Bucket(s, key, k) != [] <==> k in KeysOf(s, key)
  {
    if s != [] {
      var init, last := s[..|s| - 1], s[|s| - 1];
      BucketNonEmptyIffKey(init, key, k);
      assert s == init + [last];
      assert KeysOf(s, key) == KeysOf(init, key) + {key(last)};
    }
  }

  lemma {:induction false} KeysOfSnoc<T>(s: seq<T>, x: T, key: T -> string)
    ensures KeysOf(s + [x], key) == KeysOf(s, key) + {key(x)}
  {
    assert forall y :: y in s + [x] <==> y in s || y == x;
  }

  lemma WeightOne<T>(s: seq<T>)
    ensures Weight(s, One) == |s|
  {
    if s != [] {
      WeightOne(s[..|s| - 1]);
    }
  }

  lemma WeightOfBucketSnoc<T>(s: seq<T>, x: T, key: T -> string, w: T -> int, k: string)
    ensures Weight(Bucket(s + [x], key, k), w)
         == Weight(Bucket(s, key, k), w) + (if key(x) == k then w(x) else 0)
  {
    BucketSnoc(s, x, key, k);
    var b := Bucket(s, key, k);
    if key(x) == k {
      assert (b + [x])[..|b|] == b;
    } else {
      assert b + [] == b;
    }
  }

  lemma {:induction false} BucketTotalsSnoc<T>(ks: seq<string>, s: seq<T>, x: T, key: T -> string, w: T -> int)
    requires NoDup(ks)
    ensures BucketTotals(ks, s + [x], key, w)
         == BucketTotals(ks, s, key, w) + (if key(x) in ks then w(x) else 0)
  {
    if ks != [] {
      var init, k := ks[..|ks| - 1], ks[|ks| - 1];
      assert NoDup(init);
      assert ks == init + [k];
      BucketTotalsSnoc(init, s, x, key, w);
      WeightOfBucketSnoc(s, x, key, w, k);
      if k == key(x) {
        assert key(x) !in init;
      }
    }
  }

  /** Conservation: for distinct keys covering every key of the input, the bucket totals add
      up to the total over the input. */
  lemma {:induction false} BucketsPartition<T>(ks: seq<string>, s: seq<T>, key: T -> string, w: T -> int)
    requires NoDup(ks)
    requires KeysOf(s, key) <= Elems(ks)
    ensures BucketTotals(ks, s, key, w) == Weight(s, w)
  {
    if s == [] {
      BucketTotalsEmpty(ks, key, w);
    } else {
      var init, last := s[..|s| - 1], s[|s| - 1];
      assert s == init + [last];
      KeysOfSnoc(init, last, key);
      BucketsPartition(ks, init, key, w);
      BucketTotalsSnoc(ks, init, last, key, w);
    }
  }

  lemma {:induction false} BucketTotalsEmpty<T>(ks: seq<string>, key: T -> string, w: T -> int)
    ensures BucketTotals(ks, [], key, w) == 0
  {
    if ks != [] {
      BucketTotalsEmpty(ks[..|ks| - 1], key, w);
    }
  }

  /** The keys of s in order, repeats included. */
  function KeyList<T>(s: seq<T>, key: T -> string): (r: seq<string>)
    ensures |r| == |s| && forall i :: 0 <= i < |s| ==> r[i] == key(s[i])
  {
    if s == [] then [] else KeyList(s[..|s| - 1], key) + [key(s[|s| - 1])]
  }

  lemma KeyListElems<T>(s: seq<T>, key: T -> string)
    ensures Elems(KeyList(s, key)) == KeysOf(s, key)
  {
    var ks := KeyList(s, key);
    forall k | k in KeysOf(s, key) ensures k in Elems(ks) {
      var x :| x in s && key(x) == k;
      var i :| 0 <= i < |s| && s[i] == x;
      assert ks[i] == k;
    }
  }

  /** The keys in order of first occurrence, once each: a dict's insertion order. */
  function FirstSeenKeys<T>(s: seq<T>, key: T -> string): seq<string> {
    Distinct(KeyList(s, key))
  }

  lemma FirstSeenKeysSnoc<T>(s: seq<T>, x: T, key: T -> string)
    ensures FirstSeenKeys(s + [x], key)
            == if key(x) in KeysOf(s, key) then FirstSeenKeys(s, key) else FirstSeenKeys(s, key) + [key(x)]
  {
    assert KeyList(s + [x], key) == KeyList(s, key) + [key(x)] by {
      assert (s + [x])[..|s|] == s;
    }
    DistinctSnoc(KeyList(s, key), key(x));
    DistinctElems(KeyList(s, key));
    KeyListElems(s, key);
  }

  /** The groups of a `dict[key].extend(f(x))` loop after reading s: one entry per key seen,
      holding f of the records with that key, in order. */
  ghost predicate Grouped<T, U>(s: seq<T>, key: T -> string, f: T -> seq<U>, groups: map<string, seq<U>>) {
    && groups.Keys == KeysOf(s, key)
    && forall k :: k in groups ==> groups[k] == FlatMap(Bucket(s, key, k), f)
  }

  lemma FlatMapBucketSnoc<T, U>(s: seq<T>, x: T, key: T -> string, f: T -> seq<U>, k: string)
    ensures FlatMap(Bucket(s + [x], key, k), f)
            == FlatMap(Bucket(s, key, k), f) + (if key(x) == k then f(x) else [])
  {
    BucketSnoc(s, x, key, k);
    var b := Bucket(s, key, k);
    if key(x) == k {
      assert (b + [x])[..|b|] == b;
    } else {
      assert b + [] == b;
    }
  }

  /** Reading one more record extends the group of its key, creating it if need be. */
  lemma GroupedSnoc<T, U>(s: seq<T>, x: T, key: T -> string, f: T -> seq<U>, groups: map<string, seq<U>>)
    requires Grouped(s, key, f, groups)
    ensures Grouped(s + [x], key, f,
                    groups[key(x) := (if key(x) in groups then groups[key(x)] else []) + f(x)])
  {
    var k0 := key(x);
    var old0 := if k0 in groups then groups[k0] else [];
    var groups' := groups[k0 := old0 + f(x)];
    KeysOfSnoc(s, x, key);
    assert groups'.Keys == KeysOf(s + [x], key);
    BucketNonEmptyIffKey(s, key, k0);
    assert old0 == FlatMap(Bucket(s, key, k0), f);
    forall k | k in groups' ensures groups'[k] == FlatMap(Bucket(s + [x], key, k), f) {
      FlatMapBucketSnoc(s, x, key, f, k);
    }
  }

  /** The groups of a key that occurs are never built from an empty bucket. */
  lemma GroupedNonEmpty<T, U>(s: seq<T>, key: T -> string, k: string)
    requires k in KeysOf(s, key)
    ensures Bucket(s, key, k) != []
  {
    BucketNonEmptyIffKey(s, key, k);
  }

  /** The buckets of every key of s: the dict of a `dict[key].append(x)` loop. */
  function Buckets<T(==)>(s: seq<T>, key: T -> string): map<string, seq<T>> {
    map k | k in KeysOf(s, key) :: Bucket(s, key, k)
  }

  /** Reading one more record appends it to the bucket of its key, creating it if need be. */
  lemma BucketsSnoc<T>(s: seq<T>, x: T, key: T -> string)
    ensures Buckets(s + [x], key)
            == Buckets(s, key)[key(x) := (if key(x) in Buckets(s, key) then Buckets(s, key)[key(x)] else []) + [x]]
  {
    var k0 := key(x);
    var b, b' := Buckets(s, key), Buckets(s + [x], key);
    var m := b[k0 := (if k0 in b then b[k0] else []) + [x]];
    KeysOfSnoc(s, x, key);
    BucketNonEmptyIffKey(s, key, k0);
    forall k | k in m ensures k in b' && b'[k] == m[k] {
      BucketSnoc(s, x, key, k);
      if k != k0 {
        assert Bucket(s, key, k) + [] == Bucket(s, key, k);
      }
    }
    assert m.Keys == b'.Keys;
  }

  /** Totals over the buckets of distinct keys never exceed the total over the input when
      every quantity is non-negative. */
  lemma {:induction false} BucketTotalsAtMost<T>(ks: seq<string>, s: seq<T>, key: T -> string, w: T -> int)
    requires NoDup(ks)
    requires forall x :: x in s ==> w(x) >= 0
    ensures BucketTotals(ks, s, key, w) <= Weight(s, w)
  {
    if s == [] {
      BucketTotalsEmpty(ks, key, w);
    } else {
      var init, last := s[..|s| - 1], s[|s| - 1];
      assert s == init + [last];
      BucketTotalsAtMost(ks, init, key, w);
      BucketTotalsSnoc(ks, init, last, key, w);
    }
  }
}

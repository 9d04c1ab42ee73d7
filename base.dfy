/** Shared vocabulary: optional values, results, and the handful of Python string
    operations the metrics code relies on (lower(), split, join, slicing, `in`, endswith,
    rstrip and the code-point order used by `<` and `sorted`). */
module Base {

  datatype Option<+T> = None | Some(value: T)

  /** A computation that either yields a value or fails with a message, standing for an
      exception the source lets propagate. */
  datatype Result<+T> = Ok(value: T) | Err(message: string)

  /** Python truthiness of an optional string: present and non-empty. */
  predicate Truthy(s: Option<string>) {
    s.Some? && s.value != ""
  }

  /** The value of an optional string, "" when absent (what `csv` writes for None). */
  function OrEmpty(s: Option<string>): string {
    if s.Some? then s.value else ""
  }

  /** str.lower() restricted to ASCII letters. */
  function LowerChar(c: char): char {
    if 'A' <= c <= 'Z' then (c as int + 32) as char else c
  }

  function Lower(s: string): (r: string)
    ensures |r| == |s|
    ensures forall i :: 0 <= i < |s| ==> r[i] == LowerChar(s[i])
  {
    if s == [] then [] else [LowerChar(s[0])] + Lower(s[1..])
  }

  /** Case-insensitive equality as `a.lower() == b.lower()`. */
  predicate SameIgnoringCase(a: string, b: string) {
    Lower(a) == Lower(b)
  }

  /** s[:n] in Python. */
  function Take(s: string, n: nat): (r: string)
    ensures |r| == if n <= |s| then n else |s|
    ensures r == s[..|r|]
  {
    if n <= |s| then s[..n] else s
  }

  /** s.split(c)[0]: the text before the first occurrence of c, or all of s. */
  function BeforeFirst(s: string, c: char): (r: string)
    ensures |r| <= |s| && r == s[..|r|]
    ensures c !in r
    ensures |r| < |s| ==> s[|r|] == c
  {
    if s == [] then []
    else if s[0] == c then []
    else [s[0]] + BeforeFirst(s[1..], c)
  }

  predicate IsPrefix(p: string, s: string) {
    |p| <= |s| && s[..|p|] == p
  }

  /** `t in s` for strings: t occurs in s as a contiguous substring. */
  predicate Contains(s: string, t: string)
    decreases |s|
  {
    IsPrefix(t, s) || (s != [] && Contains(s[1..], t))
  }

  lemma {:induction false} ContainsSelf(s: string)
    ensures Contains(s, s)
  {
    assert IsPrefix(s, s);
  }

  predicate EndsWith(s: string, suffix: string) {
    |suffix| <= |s| && s[|s| - |suffix|..] == suffix
  }

  /** s.rstrip(chars). */
  function RStrip(s: string, chars: set<char>): (r: string)
    ensures |r| <= |s| && r == s[..|r|]
    ensures r == [] || r[|r| - 1] !in chars
    ensures forall i :: |r| <= i < |s| ==> s[i] in chars
  {
    if s == [] then []
    else if s[|s| - 1] in chars then RStrip(s[..|s| - 1], chars)
    else s
  }

  /** sep.join(parts). */
  function Join(parts: seq<string>, sep: char): string {
    if |parts| == 0 then ""
    else if |parts| == 1 then parts[0]
    else parts[0] + [sep] + Join(parts[1..], sep)
  }

  /** s.split(sep). */
  function Split(s: string, sep: char): (r: seq<string>)
    ensures |r| >= 1
    decreases |s|
  {
    var head := BeforeFirst(s, sep);
    if |head| == |s| then [s] else [head] + Split(s[|head| + 1..], sep)
  }

  lemma {:induction false} BeforeFirstOfJoined(a: string, rest: string, sep: char)
    requires sep !in a
    ensures BeforeFirst(a + [sep] + rest, sep) == a
    ensures BeforeFirst(a, sep) == a
  {
    if a != [] {
      assert (a + [sep] + rest)[1..] == a[1..] + [sep] + rest;
      BeforeFirstOfJoined(a[1..], rest, sep);
    }
  }

  /** Splitting what Join produced gives the parts back, as long as no part contains the
      separator. */
  lemma {:induction false} SplitJoin(parts: seq<string>, sep: char)
    requires |parts| >= 1
    requires forall i :: 0 <= i < |parts| ==> sep !in parts[i]
    ensures Split(Join(parts, sep), sep) == parts
  {
    BeforeFirstOfJoined(parts[0], [], sep);
    if |parts| > 1 {
      var rest := Join(parts[1..], sep);
      var s := parts[0] + [sep] + rest;
      BeforeFirstOfJoined(parts[0], rest, sep);
      assert s[|parts[0]| + 1..] == rest;
      SplitJoin(parts[1..], sep);
    }
  }

  /** Python's `<` on str: lexicographic by code point. */
  predicate StrLt(a: string, b: string)
    decreases |a|
  {
    b != [] && (a == [] || a[0] < b[0] || (a[0] == b[0] && StrLt(a[1..], b[1..])))
  }

  /** Python's `<=` on str. */
  predicate StrLe(a: string, b: string) {
    a == b || StrLt(a, b)
  }

  lemma {:induction false} StrLtIrreflexive(a: string)
    ensures !StrLt(a, a)
  {
    if a != [] {
      StrLtIrreflexive(a[1..]);
    }
  }

  lemma {:induction false} StrLtTransitive(a: string, b: string, c: string)
    requires StrLt(a, b) && StrLt(b, c)
    ensures StrLt(a, c)
  {
    if a != [] && a[0] == b[0] && b[0] == c[0] {
      StrLtTransitive(a[1..], b[1..], c[1..]);
    }
  }

  lemma {:induction false} StrLtTotal(a: string, b: string)
    ensures a == b || StrLt(a, b) || StrLt(b, a)
  {
    if a != [] && b != [] && a[0] == b[0] {
      StrLtTotal(a[1..], b[1..]);
      if a[1..] == b[1..] {
        assert a == [a[0]] + a[1..] && b == [b[0]] + b[1..];
      }
    }
  }

  lemma StrLeTransitive(a: string, b: string, c: string)
    requires StrLe(a, b) && StrLe(b, c)
    ensures StrLe(a, c)
  {
    if a != b && b != c {
      StrLtTransitive(a, b, c);
    }
  }

  lemma StrLeAntisymmetric(a: string, b: string)
    requires StrLe(a, b) && StrLe(b, a)
    ensures a == b
  {
    if a != b {
      StrLtTransitive(a, b, a);
      StrLtIrreflexive(a);
    }
  }

  lemma StrLeTotal(a: string, b: string)
    ensures StrLe(a, b) || StrLe(b, a)
  {
    StrLtTotal(a, b);
  }

  /** No element occurs twice. */
  predicate NoDup<T(==)>(s: seq<T>) {
    forall i, j :: 0 <= i < j < |s| ==> s[i] != s[j]
  }

  /** The elements of a sequence as a set. */
  function Elems<T>(s: seq<T>): set<T> {
    set x | x in s
  }

  lemma {:induction false} NoDupCardinality<T>(s: seq<T>)
    requires NoDup(s)
    ensures |Elems(s)| == |s|
  {
    if s != [] {
      var last := s[|s| - 1];
      var init := s[..|s| - 1];
      NoDupCardinality(init);
      assert Elems(s) == Elems(init) + {last};
      assert last !in Elems(init);
    }
  }

  /** The distinct elements of s in order of first occurrence: what a Python set built by
      `add` holds, listed in one fixed order. */
  function Distinct<T(==)>(s: seq<T>): seq<T> {
    if s == [] then []
    else
      var init, last := s[..|s| - 1], s[|s| - 1];
      if last in init then Distinct(init) else Distinct(init) + [last]
  }

  /** Distinct lists every element of s exactly once. */
  lemma {:induction false} DistinctElems<T>(s: seq<T>)
    ensures NoDup(Distinct(s))
    ensures Elems(Distinct(s)) == Elems(s)
  {
    if s != [] {
      var init, last := s[..|s| - 1], s[|s| - 1];
      DistinctElems(init);
      assert s == init + [last];
      assert Elems(s) == Elems(init) + {last};
    }
  }

  lemma DistinctSnoc<T>(s: seq<T>, x: T)
    ensures Distinct(s + [x]) == if x in Distinct(s) then Distinct(s) else Distinct(s) + [x]
  {
    assert (s + [x])[..|s|] == s;
    DistinctElems(s);
    assert x in s <==> x in Elems(Distinct(s));
  }

  /** A sequence without repeats is its own Distinct. */
  lemma {:induction false} DistinctOfNoDup<T>(s: seq<T>)
    requires NoDup(s)
    ensures Distinct(s) == s
  {
    if s != [] {
      var init := s[..|s| - 1];
      assert NoDup(init);
      DistinctOfNoDup(init);
      assert s[|s| - 1] !in init;
      assert s == init + [s[|s| - 1]];
    }
  }

  lemma PrefixSnoc<T>(s: seq<T>, i: nat)
    requires i < |s|
    ensures s[..i + 1] == s[..i] + [s[i]]
  {
  }

  lemma ElemsPrefixSnoc<T>(s: seq<T>, i: nat)
    requires i < |s|
    ensures Elems(s[..i + 1]) == Elems(s[..i]) + {s[i]}
  {
    PrefixSnoc(s, i);
  }

  lemma SplitLast<T>(s: seq<T>)
    requires s != []
    ensures s == s[..|s| - 1] + [s[|s| - 1]]
    ensures forall x :: x in s <==> x in s[..|s| - 1] || x == s[|s| - 1]
  {
  }

  /** The concatenation of f(x) for the elements x of s, in order. */
  function FlatMap<T, U>(s: seq<T>, f: T -> seq<U>): seq<U> {
    if s == [] then [] else FlatMap(s[..|s| - 1], f) + f(s[|s| - 1])
  }

  lemma {:induction false} FlatMapAppend<T, U>(a: seq<T>, b: seq<T>, f: T -> seq<U>)
    ensures FlatMap(a + b, f) == FlatMap(a, f) + FlatMap(b, f)
  {
    if b == [] {
      assert a + b == a;
    } else {
      FlatMapAppend(a, b[..|b| - 1], f);
      assert (a + b)[..|a + b| - 1] == a + b[..|b| - 1];
      assert (a + b)[|a + b| - 1] == b[|b| - 1];
    }
  }

  lemma {:induction false} FlatMapExact<T, U>(s: seq<T>, f: T -> seq<U>, y: U)
    ensures y in FlatMap(s, f) <==> exists x :: x in s && y in f(x)
  {
    if s != [] {
      FlatMapExact(s[..|s| - 1], f, y);
      SplitLast(s);
    }
  }

  lemma FlatMapStep<T, U>(done: seq<T>, s: seq<T>, k: nat, f: T -> seq<U>)
    requires k < |s|
    ensures FlatMap(done + s[..k + 1], f) == FlatMap(done + s[..k], f) + f(s[k])
  {
    assert (done + s[..k + 1])[..|done| + k] == done + s[..k];
  }

  lemma FlatMapPrefixSnoc<T, U>(s: seq<T>, i: nat, f: T -> seq<U>)
    requires i < |s|
    ensures FlatMap(s[..i + 1], f) == FlatMap(s[..i], f) + f(s[i])
  {
    assert s[..i + 1][..i] == s[..i];
  }

  /** When f gives one element for each x, FlatMap lists those elements in order. */
  lemma {:induction false} FlatMapSingletons<T, U>(s: seq<T>, f: T -> seq<U>)
    requires forall i :: 0 <= i < |s| ==> |f(s[i])| == 1
    ensures |FlatMap(s, f)| == |s|
    ensures forall i :: 0 <= i < |s| ==> FlatMap(s, f)[i] == f(s[i])[0]
  {
    if s != [] {
      var init := s[..|s| - 1];
      assert forall i :: 0 <= i < |init| ==> init[i] == s[i];
      FlatMapSingletons(init, f);
    }
  }
}

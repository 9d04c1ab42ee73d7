/** Descriptive statistics over samples of hours: `sum`, `statistics.mean`,
    `statistics.median` (the mean of the two middle values for an even count), `min` and
    `max`. Reals stand for Python floats; rounding is not modelled. */
module Stats {
  import opened Sorting

  function Sum(s: seq<real>): real {
    if s == [] then 0.0 else Sum(s[..|s| - 1]) + s[|s| - 1]
  }

  function Mean(s: seq<real>): real
    requires |s| > 0
  {
    Sum(s) / (|s| as real)
  }

  function Min(s: seq<real>): (m: real)
    requires |s| > 0
    ensures m in s
    ensures forall i :: 0 <= i < |s| ==> m <= s[i]
  {
    if |s| == 1 then s[0]
    else
      var m := Min(s[1..]);
      if s[0] <= m then s[0] else m
  }

  function Max(s: seq<real>): (m: real)
    requires |s| > 0
    ensures m in s
    ensures forall i :: 0 <= i < |s| ==> s[i] <= m
  {
    if |s| == 1 then s[0]
    else
      var m := Max(s[1..]);
      if s[0] >= m then s[0] else m
  }

  /** The median after an ascending sort: the middle element for an odd count, the mean of
      the two middle elements for an even count. */
  function Median(s: seq<real>): real
    requires |s| > 0
  {
    var t := SortReals(s);
    var n := |t|;
    if n % 2 == 1 then t[n / 2] else (t[n / 2 - 1] + t[n / 2]) / 2.0
  }

  lemma {:induction false} SumBounds(s: seq<real>, lo: real, hi: real)
    requires forall i :: 0 <= i < |s| ==> lo <= s[i] <= hi
    ensures (|s| as real) * lo <= Sum(s) <= (|s| as real) * hi
  {
    if s != [] {
      var init := s[..|s| - 1];
      SumBounds(init, lo, hi);
      assert lo <= s[|s| - 1] <= hi;
      assert (|s| as real) * lo == (|init| as real) * lo + lo;
      assert (|s| as real) * hi == (|init| as real) * hi + hi;
    }
  }

  lemma DivideBounds(total: real, n: real, lo: real, hi: real)
    requires n > 0.0 && n * lo <= total <= n * hi
    ensures lo <= total / n <= hi
  {
    var q := total / n;
    assert total == n * q;
  }

  lemma MeanBounds(s: seq<real>, lo: real, hi: real)
    requires |s| > 0
    requires (|s| as real) * lo <= Sum(s) <= (|s| as real) * hi
    ensures lo <= Mean(s) <= hi
  {
    DivideBounds(Sum(s), |s| as real, lo, hi);
  }

  /** The mean lies between the smallest and the largest value. */
  lemma MeanBetweenMinAndMax(s: seq<real>)
    requires |s| > 0
    ensures Min(s) <= Mean(s) <= Max(s)
  {
    var lo, hi := Min(s), Max(s);
    assert forall i :: 0 <= i < |s| ==> lo <= s[i] <= hi;
    SumBounds(s, lo, hi);
    MeanBounds(s, lo, hi);
  }

  /** The median lies between the smallest and the largest value. */
  lemma MedianBetweenMinAndMax(s: seq<real>)
    requires |s| > 0
    ensures Min(s) <= Median(s) <= Max(s)
  {
    var t := SortReals(s);
    PermutationBounds(s, t, Min(s), Max(s));
    MiddleBounds(t, Min(s), Max(s));
  }

  lemma PermutationBounds(s: seq<real>, t: seq<real>, lo: real, hi: real)
    requires multiset(t) == multiset(s)
    requires forall i :: 0 <= i < |s| ==> lo <= s[i] <= hi
    ensures forall i :: 0 <= i < |t| ==> lo <= t[i] <= hi
  {
    forall i | 0 <= i < |t| ensures lo <= t[i] <= hi {
      assert t[i] in multiset(s);
      var k :| 0 <= k < |s| && s[k] == t[i];
    }
  }

  /** The middle element, or the mean of the two middle elements, lies within any bounds of
      all the elements. */
  lemma MiddleBounds(t: seq<real>, lo: real, hi: real)
    requires |t| > 0
    requires forall i :: 0 <= i < |t| ==> lo <= t[i] <= hi
    ensures var n := |t|;
            lo <= (if n % 2 == 1 then t[n / 2] else (t[n / 2 - 1] + t[n / 2]) / 2.0) <= hi
  {
    var n := |t|;
    if n % 2 == 0 {
      assert lo <= t[n / 2 - 1] <= hi && lo <= t[n / 2] <= hi;
    }
  }

  /** The sum of two values. */
  lemma SumOfTwo(a: real, b: real)
    ensures Sum([a, b]) == a + b
  {
    assert [a, b][..1] == [a];
    assert [a][..0] == [];
    assert Sum([a]) == a;
  }

  /** Sorting two values puts the smaller first. */
  lemma SortTwo(a: real, b: real)
    ensures SortReals([a, b]) == if a <= b then [a, b] else [b, a]
  {
    assert [a, b][..1] == [a];
    assert [a][..0] == [];
    assert SortReals([a]) == [a];
    if b < a {
      assert InsertReal(b, [a]) == InsertReal(b, []) + [a];
    }
  }

  /** For two values the median, the mean of the two middle elements, equals the mean. */
  lemma MeanAndMedianOfTwo(a: real, b: real)
    ensures Mean([a, b]) == (a + b) / 2.0 && Median([a, b]) == (a + b) / 2.0
  {
    SumOfTwo(a, b);
    SortTwo(a, b);
  }
}

/** The column statistics that imputation fills with: `Series.mean()`,
    `Series.median()` and `Series.mode()[0]`, each over the non-null values
    of a column, in exact arithmetic. */
module Stats {
  import opened Values

  function Sum(xs: seq<real>): real {
    if |xs| == 0 then 0.0 else xs[0] + Sum(xs[1..])
  }

  /** Arithmetic mean of a non-empty sequence: the value whose `|xs|`
      copies add up to the sum. */
  function Mean(xs: seq<real>): (r: real)
    requires |xs| > 0
    ensures (|xs| as real) * r == Sum(xs)
  {
    Sum(xs) / (|xs| as real)
  }

  lemma {:induction false} SumBounds(xs: seq<real>, lo: real, hi: real)
    requires forall i :: 0 <= i < |xs| ==> lo <= xs[i] <= hi
    ensures (|xs| as real) * lo <= Sum(xs) <= (|xs| as real) * hi
  {
    if |xs| > 0 { SumBounds(xs[1..], lo, hi); }
  }

  /** The mean lies between any lower and upper bound of the values. */
  lemma MeanWithinBounds(xs: seq<real>, lo: real, hi: real)
    requires |xs| > 0
    requires forall i :: 0 <= i < |xs| ==> lo <= xs[i] <= hi
    ensures lo <= Mean(xs) <= hi
  {
    SumBounds(xs, lo, hi);
    var n := |xs| as real;
    assert Mean(xs) * n == Sum(xs);
  }

  predicate Sorted(s: seq<real>) {
    forall i, j :: 0 <= i < j < |s| ==> s[i] <= s[j]
  }

  function Insert(x: real, s: seq<real>): (r: seq<real>)
    ensures |r| == |s| + 1
    ensures multiset(r) == multiset(s) + multiset{x}
  {
    if |s| == 0 then [x]
    else if x <= s[0] then [x] + s
    else
      assert s == [s[0]] + s[1..];
      [s[0]] + Insert(x, s[1..])
  }

  /** Inserting into a sorted sequence keeps it sorted; the new first
      element is `x` or the old first element. */
  lemma {:induction false} InsertSorted(x: real, s: seq<real>)
    requires Sorted(s)
    ensures Sorted(Insert(x, s))
    ensures Insert(x, s)[0] == x || (|s| > 0 && Insert(x, s)[0] == s[0])
  {
    if |s| > 0 && x > s[0] {
      var rest := Insert(x, s[1..]);
      InsertSorted(x, s[1..]);
      assert s[0] <= rest[0] by {
        if rest[0] != x {
          assert rest[0] == s[1..][0] == s[1];
        }
      }
      var r := [s[0]] + rest;
      forall a, b | 0 <= a < b < |r| ensures r[a] <= r[b] {
        assert r[b] == rest[b - 1];
        if a > 0 {
          assert r[a] == rest[a - 1];
        } else {
          assert rest[0] <= rest[b - 1];
        }
      }
    }
  }

  /** Ascending sort: a sorted permutation of the input. */
  function Sort(xs: seq<real>): (r: seq<real>)
    ensures Sorted(r)
    ensures multiset(r) == multiset(xs)
  {
    if |xs| == 0 then []
    else
      assert xs == [xs[0]] + xs[1..];
      InsertSorted(xs[0], Sort(xs[1..]));
      Insert(xs[0], Sort(xs[1..]))
  }

  /** The middle element of a sorted sequence, or the average of the two
      middle elements when the count is even. */
  function MedianOfSorted(s: seq<real>): real
    requires |s| > 0
  {
    var n := |s|;
    if n % 2 == 1 then s[n / 2] else (s[n / 2 - 1] + s[n / 2]) / 2.0
  }

  /** Median as pandas computes it: the middle of the sorted values. For an
      odd count it is one of the values; otherwise it lies between two of
      them. */
  function Median(xs: seq<real>): (r: real)
    requires |xs| > 0
    ensures |xs| % 2 == 1 ==> r in xs
    ensures exists lo, hi :: lo in xs && hi in xs && lo <= r <= hi
  {
    var s := Sort(xs);
    assert |s| == |multiset(s)| == |multiset(xs)| == |xs|;
    var n := |s|;
    var m := MedianOfSorted(s);
    assert s[n / 2] in multiset(s);
    if n % 2 == 1 then
      assert s[n / 2] in xs && s[n / 2] <= m <= s[n / 2];
      m
    else
      assert s[n / 2 - 1] in multiset(s);
      assert s[n / 2 - 1] in xs && s[n / 2] in xs && s[n / 2 - 1] <= m <= s[n / 2];
      m
  }

  /** The middle of a sorted sequence splits it: the lower half is at most
      the middle and the upper half at least the middle. */
  lemma MedianOfSortedSplits(s: seq<real>)
    requires |s| > 0 && Sorted(s)
    ensures forall i :: 0 <= i < (|s| + 1) / 2 ==> s[i] <= MedianOfSorted(s)
    ensures forall i :: |s| / 2 <= i < |s| ==> MedianOfSorted(s) <= s[i]
  {
    var n := |s|;
    var half := n / 2;
    var lo := if n % 2 == 1 then s[half] else s[half - 1];
    var hi := s[half];
    assert lo <= hi;
    assert lo <= MedianOfSorted(s) <= hi;
    forall i | 0 <= i < (n + 1) / 2 ensures s[i] <= MedianOfSorted(s) {
      assert s[i] <= lo;
    }
    forall i | half <= i < n ensures MedianOfSorted(s) <= s[i] {
      assert hi <= s[i];
    }
  }

  /** The median splits the sorted values: the lower half is at most the
      median and the upper half at least the median. */
  lemma MedianSplitsSorted(xs: seq<real>)
    requires |xs| > 0
    ensures |Sort(xs)| == |xs|
    ensures forall i :: 0 <= i < (|xs| + 1) / 2 ==> Sort(xs)[i] <= Median(xs)
    ensures forall i :: |xs| / 2 <= i < |xs| ==> Median(xs) <= Sort(xs)[i]
  {
    var s := Sort(xs);
    assert |s| == |multiset(s)| == |multiset(xs)| == |xs|;
    MedianOfSortedSplits(s);
  }

  /** The median lies between any lower and upper bound of the values. */
  lemma MedianWithinBounds(xs: seq<real>, lo: real, hi: real)
    requires |xs| > 0
    requires forall i :: 0 <= i < |xs| ==> lo <= xs[i] <= hi
    ensures lo <= Median(xs) <= hi
  {
    var s := Sort(xs);
    assert |s| == |multiset(s)| == |multiset(xs)| == |xs|;
    forall k | 0 <= k < |s| ensures lo <= s[k] <= hi {
      assert s[k] in multiset(xs);
    }
  }

  function Occurrences(vs: seq<Value>, v: Value): nat {
    multiset(vs)[v]
  }

  /** The best candidate of `cs` by (most occurrences in `vs`, then smallest). */
  function ModeAmong(vs: seq<Value>, cs: seq<Value>): (m: Value)
    requires |cs| > 0
    ensures m in cs
    ensures forall c :: c in cs ==> Occurrences(vs, c) <= Occurrences(vs, m)
    ensures forall c :: c in cs && Occurrences(vs, c) == Occurrences(vs, m) ==> Le(m, c)
  {
    LeTotalOrder();
    if |cs| == 1 then cs[0]
    else
      assert cs == [cs[0]] + cs[1..];
      var b := ModeAmong(vs, cs[1..]);
      if Occurrences(vs, cs[0]) > Occurrences(vs, b)
         || (Occurrences(vs, cs[0]) == Occurrences(vs, b) && Le(cs[0], b))
      then cs[0]
      else b
  }

  /** `mode()[0]`: the smallest of the most frequent values. */
  function Mode(vs: seq<Value>): (m: Value)
    requires |vs| > 0
    ensures m in vs
    ensures forall v :: v in vs ==> Occurrences(vs, v) <= Occurrences(vs, m)
    ensures forall v :: v in vs && Occurrences(vs, v) == Occurrences(vs, m) ==> Le(m, v)
  {
    ModeAmong(vs, vs)
  }
}

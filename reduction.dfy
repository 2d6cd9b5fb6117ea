/** Reduction of the collected samples to one weight: the median of the
    samples plus the user's adjustment, converted to pounds on request. */
module Reduction {

  predicate SortedSeq(s: seq<real>)
  {
    forall i, j :: 0 <= i < j < |s| ==> s[i] <= s[j]
  }

  /** Inserts x into a sorted sequence. */
  function Insert(x: real, s: seq<real>): (r: seq<real>)
    requires SortedSeq(s)
    ensures SortedSeq(r) && multiset(r) == multiset(s) + multiset{x} && |r| == |s| + 1
    ensures r[0] == x || (s != [] && r[0] == s[0])
  {
    if s == [] || x <= s[0] then
      ConsSorted(x, s);
      [x] + s
    else
      assert s == [s[0]] + s[1..];
      var r := Insert(x, s[1..]);
      ConsSorted(s[0], r);
      [s[0]] + r
  }

  lemma ConsSorted(h: real, r: seq<real>)
    requires SortedSeq(r) && (r == [] || h <= r[0])
    ensures SortedSeq([h] + r)
  {
    var t := [h] + r;
    forall i, j | 0 <= i < j < |t| ensures t[i] <= t[j] {
      if i > 0 {
        assert t[i] == r[i - 1] && t[j] == r[j - 1];
      } else {
        assert t[j] == r[j - 1] && r[0] <= r[j - 1];
      }
    }
  }

  /** The samples in ascending order (the order a median reads them in). */
  function Sort(s: seq<real>): (t: seq<real>)
    ensures SortedSeq(t) && multiset(t) == multiset(s) && |t| == |s|
  {
    if s == [] then []
    else
      assert s == [s[0]] + s[1..];
      Insert(s[0], Sort(s[1..]))
  }

  function Min(s: seq<real>): (m: real)
    requires |s| > 0
    ensures m in s && forall x :: x in s ==> m <= x
  {
    if |s| == 1 then s[0]
    else
      var rest := Min(s[1..]);
      assert forall x :: x in s ==> x == s[0] || x in s[1..];
      if s[0] <= rest then s[0] else rest
  }

  function Max(s: seq<real>): (m: real)
    requires |s| > 0
    ensures m in s && forall x :: x in s ==> x <= m
  {
    if |s| == 1 then s[0]
    else
      var rest := Max(s[1..]);
      assert forall x :: x in s ==> x == s[0] || x in s[1..];
      if s[0] >= rest then s[0] else rest
  }

  /** The median: the middle sample in sorted order, or the mean of the two
      middle samples when there is an even number of them. */
  function Median(s: seq<real>): (m: real)
    requires |s| > 0
    ensures Min(s) <= m <= Max(s)
  {
    var t := Sort(s);
    var n := |t|;
    SortedMembers(s, t);
    if n % 2 == 1 then t[n / 2]
    else (t[n / 2 - 1] + t[n / 2]) / 2.0
  }

  /** Every element of a sorted copy lies between the minimum and the maximum. */
  lemma SortedMembers(s: seq<real>, t: seq<real>)
    requires |s| > 0 && multiset(t) == multiset(s)
    ensures forall k :: 0 <= k < |t| ==> Min(s) <= t[k] <= Max(s)
  {
    forall k | 0 <= k < |t| ensures Min(s) <= t[k] <= Max(s) {
      assert t[k] in multiset(t);
      assert t[k] in s;
    }
  }

  /** Two sorted sequences with the same elements start with the same one. */
  lemma SortedSameHead(a: seq<real>, b: seq<real>)
    requires SortedSeq(a) && SortedSeq(b) && multiset(a) == multiset(b) && a != [] && b != []
    ensures a[0] == b[0]
  {
    assert b[0] in multiset(a);
    var i :| 0 <= i < |a| && a[i] == b[0];
    assert a[0] in multiset(b);
    var j :| 0 <= j < |b| && b[j] == a[0];
    assert a[0] <= a[i] && b[0] <= b[j];
  }

  /** A sorted sequence is determined by its elements. */
  lemma {:induction false} SortedUnique(a: seq<real>, b: seq<real>)
    requires SortedSeq(a) && SortedSeq(b) && multiset(a) == multiset(b)
    ensures a == b
    decreases |a|
  {
    assert |a| == |multiset(a)| == |b|;
    if a != [] {
      SortedSameHead(a, b);
      assert a == [a[0]] + a[1..] && b == [b[0]] + b[1..];
      assert multiset(a[1..]) == multiset(b[1..]) by {
        assert multiset(a) == multiset([a[0]]) + multiset(a[1..]);
        assert multiset(b) == multiset([b[0]]) + multiset(b[1..]);
        assert multiset(a[1..]) == multiset(a) - multiset([a[0]]);
        assert multiset(b[1..]) == multiset(b) - multiset([b[0]]);
      }
      SortedUnique(a[1..], b[1..]);
    }
  }

  /** The median depends only on which samples were collected, not on the
      order they arrived in. */
  lemma MedianOfPermutation(s: seq<real>, t: seq<real>)
    requires |s| > 0 && multiset(s) == multiset(t)
    ensures |t| > 0 && Median(s) == Median(t)
  {
    assert |s| == |multiset(s)| == |t|;
    SortedUnique(Sort(s), Sort(t));
  }

  /** A constant list of samples has that constant as its median. */
  lemma MedianOfConstant(v: real, n: nat)
    requires n > 0
    ensures Median(seq(n, _ => v)) == v
  {
    var s := seq(n, _ => v);
    var t := Sort(s);
    forall k | 0 <= k < |t| ensures t[k] == v {
      assert t[k] in multiset(s);
    }
  }

  /** Occurrences of a value in a sequence never exceed its length. */
  lemma {:induction false} CountAtMost(u: seq<real>, v: real)
    ensures multiset(u)[v] <= |u|
  {
    if u != [] {
      assert u == u[..|u| - 1] + [u[|u| - 1]];
      assert multiset(u) == multiset(u[..|u| - 1]) + multiset([u[|u| - 1]]);
      CountAtMost(u[..|u| - 1], v);
    }
  }

  /** In a sorted sequence, an element below v leaves room for v only after
      it, and an element above v only before it. */
  lemma SortedRoomFor(t: seq<real>, k: nat, v: real)
    requires SortedSeq(t) && k < |t|
    ensures t[k] < v ==> multiset(t)[v] <= |t| - k - 1
    ensures t[k] > v ==> multiset(t)[v] <= k
  {
    if t[k] < v {
      assert t == t[..k + 1] + t[k + 1..];
      assert multiset(t) == multiset(t[..k + 1]) + multiset(t[k + 1..]);
      var low := t[..k + 1];
      assert v !in low by {
        forall j | 0 <= j < |low| ensures low[j] != v {
          assert low[j] == t[j] <= t[k];
        }
      }
      CountAtMost(t[k + 1..], v);
    }
    if t[k] > v {
      assert t == t[..k] + t[k..];
      assert multiset(t) == multiset(t[..k]) + multiset(t[k..]);
      var high := t[k..];
      assert v !in high by {
        forall j | 0 <= j < |high| ensures high[j] != v {
          assert high[j] == t[k + j] >= t[k];
        }
      }
      CountAtMost(t[..k], v);
    }
  }

  /** A value held by more than half of the samples is their median: a
      minority of outlying samples cannot move it. */
  lemma MedianOfMajority(s: seq<real>, v: real)
    requires |s| > 0 && multiset(s)[v] * 2 > |s|
    ensures Median(s) == v
  {
    var t := Sort(s);
    var n := |t|;
    var k := n / 2;
    assert multiset(t)[v] == multiset(s)[v];
    SortedRoomFor(t, k, v);
    assert t[k] == v;
    if n % 2 == 0 {
      SortedRoomFor(t, k - 1, v);
      assert t[k - 1] == v;
    }
  }

  /** n copies of v hold v n times. */
  lemma {:induction false} CopiesCount(v: real, n: nat)
    ensures multiset(seq(n, _ => v))[v] == n
  {
    if n > 0 {
      assert seq(n, _ => v) == seq(n - 1, _ => v) + [v];
      CopiesCount(v, n - 1);
    }
  }

  /** 199 samples of 85.0 and one of 84.0, adjusted by 1.0: the median is
      85.0, so the weight is 86.0 kg, or 86.0 times 2.20462 pounds. */
  lemma OneOutlierExample()
    ensures var s := seq(199, _ => 85.0) + [84.0];
      && |s| == 200
      && Median(s) == 85.0
      && FinalWeight(s, 1.0, "kg") == 86.0
      && FinalWeight(s, 1.0, "lbs") == 189.59732
  {
    var s := seq(199, _ => 85.0) + [84.0];
    CopiesCount(85.0, 199);
    assert multiset(s) == multiset(seq(199, _ => 85.0)) + multiset([84.0]);
    assert multiset(s)[85.0] == 199;
    MedianOfMajority(s, 85.0);
  }

  /** Pounds per kilogram, used for "lbs". */
  const LBS_PER_KG: real := 2.20462

  /** The reported weight: median plus adjustment, in pounds when the unit
      is "lbs" and unconverted for any other unit.  It lies within the
      samples' range shifted by the adjustment, scaled for pounds. */
  function FinalWeight(data: seq<real>, adjust: real, unit: string): (w: real)
    requires |data| > 0
    ensures unit != "lbs" ==> Min(data) + adjust <= w <= Max(data) + adjust
    ensures unit == "lbs" ==>
      (Min(data) + adjust) * LBS_PER_KG <= w <= (Max(data) + adjust) * LBS_PER_KG
  {
    var kg := Median(data) + adjust;
    MultiplyMonotone(Min(data) + adjust, kg, LBS_PER_KG);
    MultiplyMonotone(kg, Max(data) + adjust, LBS_PER_KG);
    if unit == "lbs" then kg * LBS_PER_KG else kg
  }

  lemma MultiplyMonotone(a: real, b: real, c: real)
    requires a <= b && c >= 0.0
    ensures a * c <= b * c
  {
  }

  /** The pound figure converts back to the kilogram figure, and a unit other
      than "lbs" reports kilograms. */
  lemma UnitRoundTrip(data: seq<real>, adjust: real, unit: string)
    requires |data| > 0
    ensures FinalWeight(data, adjust, "lbs") / LBS_PER_KG == FinalWeight(data, adjust, "kg")
    ensures unit != "lbs" ==> FinalWeight(data, adjust, unit) == FinalWeight(data, adjust, "kg")
  {
  }
}

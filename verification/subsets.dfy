/** Enumeration of the fixed-size, order-preserving subsets of a list (the
    classic "choose" recursion), with their count, their shape and their
    order. */
module Combinations {

  /** The m-element subsets of `a`, each keeping `a`'s relative order: the
      singletons when m is 1, otherwise, for each admissible first position i
      in turn, a[i] in front of every (m-1)-subset of what follows it.
      Every subset has m elements, and there are none when m exceeds |a|. */
  function Subsets<T>(a: seq<T>, m: nat): (r: seq<seq<T>>)
    requires m >= 1
    ensures |a| < m ==> r == []
    ensures forall q :: 0 <= q < |r| ==> |r[q]| == m
    decreases |a|, 1
  {
    if |a| < m then []
    else if m == 1 then seq(|a|, i requires 0 <= i < |a| => [a[i]])
    else Extend(a, m, 0)
  }

  /** The subsets whose first element sits at position i or later. */
  function Extend<T>(a: seq<T>, m: nat, i: nat): (r: seq<seq<T>>)
    requires 2 <= m <= |a| && i <= |a| - m + 1
    ensures forall q :: 0 <= q < |r| ==> |r[q]| == m
    decreases |a|, 0, |a| - m + 1 - i
  {
    if i == |a| - m + 1 then []
    else Prefixed(a[i], Subsets(a[i + 1..], m - 1)) + Extend(a, m, i + 1)
  }

  function Prefixed<T>(x: T, ss: seq<seq<T>>): (r: seq<seq<T>>)
    ensures |r| == |ss| && forall k :: 0 <= k < |ss| ==> r[k] == [x] + ss[k]
  {
    seq(|ss|, k requires 0 <= k < |ss| => [x] + ss[k])
  }

  /** Pascal's triangle. */
  function Binomial(n: nat, k: nat): nat {
    if k == 0 then 1
    else if n == 0 then 0
    else Binomial(n - 1, k - 1) + Binomial(n - 1, k)
  }

  lemma {:induction false} BinomialAbove(n: nat, k: nat)
    requires n < k
    ensures Binomial(n, k) == 0
  {
    if n > 0 { BinomialAbove(n - 1, k - 1); BinomialAbove(n - 1, k); }
  }

  lemma {:induction false} BinomialOne(n: nat)
    ensures Binomial(n, 1) == n
  {
    if n > 0 { BinomialOne(n - 1); }
  }

  /** There are exactly C(|a|, m) subsets. */
  lemma {:induction false} SubsetsCount<T>(a: seq<T>, m: nat)
    requires m >= 1
    ensures |Subsets(a, m)| == Binomial(|a|, m)
    decreases |a|, 1
  {
    if |a| < m {
      BinomialAbove(|a|, m);
    } else if m == 1 {
      BinomialOne(|a|);
    } else {
      ExtendCount(a, m, 0);
    }
  }

  lemma {:induction false} ExtendCount<T>(a: seq<T>, m: nat, i: nat)
    requires 2 <= m <= |a| && i <= |a| - m + 1
    ensures |Extend(a, m, i)| == Binomial(|a| - i, m)
    decreases |a|, 0, |a| - m + 1 - i
  {
    if i == |a| - m + 1 {
      BinomialAbove(|a| - i, m);
    } else {
      SubsetsCount(a[i + 1..], m - 1);
      ExtendCount(a, m, i + 1);
    }
  }

  /** The positions lo, lo+1, ..., hi-1. */
  function Range(lo: nat, hi: nat): (r: seq<nat>)
    requires lo <= hi
    ensures |r| == hi - lo && forall k :: 0 <= k < |r| ==> r[k] == lo + k
  {
    seq(hi - lo, k requires 0 <= k < hi - lo => lo + k)
  }

  lemma RangeSuffix(lo: nat, hi: nat, j: nat)
    requires lo + j <= hi
    ensures Range(lo, hi)[j..] == Range(lo + j, hi)
  {
  }

  predicate Increasing(s: seq<nat>) {
    forall i, j :: 0 <= i < j < |s| ==> s[i] < s[j]
  }

  /** `s` comes strictly before `t` in lexicographic order. */
  predicate LexBefore(s: seq<nat>, t: seq<nat>) {
    exists j :: 0 <= j < |s| && j < |t| && s[..j] == t[..j] && s[j] < t[j]
  }

  /** The elements of `a` at the positions `idx`. */
  function Pick<T>(a: seq<T>, idx: seq<nat>): (r: seq<T>)
    requires forall k :: 0 <= k < |idx| ==> idx[k] < |a|
    ensures |r| == |idx| && forall k :: 0 <= k < |idx| ==> r[k] == a[idx[k]]
  {
    seq(|idx|, k requires 0 <= k < |idx| => a[idx[k]])
  }

  /** `s` is an increasing run of m positions drawn from lo..hi-1. */
  predicate Run(s: seq<nat>, m: nat, lo: nat, hi: nat) {
    |s| == m && Increasing(s) && forall k :: 0 <= k < |s| ==> lo <= s[k] < hi
  }

  predicate AllRuns(ss: seq<seq<nat>>, m: nat, lo: nat, hi: nat) {
    forall q :: 0 <= q < |ss| ==> Run(ss[q], m, lo, hi)
  }

  /** Every subset of positions lo..hi-1 is an increasing run of m of those
      positions. */
  lemma {:induction false} RangeSubsetsShape(lo: nat, hi: nat, m: nat)
    requires lo <= hi && m >= 1
    ensures AllRuns(Subsets(Range(lo, hi), m), m, lo, hi)
    decreases hi - lo, 1
  {
    var a := Range(lo, hi);
    if |a| >= m && m >= 2 {
      RangeExtendShape(lo, hi, m, 0);
    }
  }

  lemma {:induction false} RangeExtendShape(lo: nat, hi: nat, m: nat, i: nat)
    requires lo <= hi && 2 <= m <= hi - lo && i <= hi - lo - m + 1
    ensures AllRuns(Extend(Range(lo, hi), m, i), m, lo + i, hi)
    decreases hi - lo, 0, hi - lo - m + 1 - i
  {
    var a := Range(lo, hi);
    if i < |a| - m + 1 {
      RangeSuffix(lo, hi, i + 1);
      var tails := Subsets(a[i + 1..], m - 1);
      var back := Extend(a, m, i + 1);
      RangeSubsetsShape(lo + i + 1, hi, m - 1);
      RangeExtendShape(lo, hi, m, i + 1);
      PrefixedShape(a[i], tails, m - 1, hi);
      RunsWeaken(back, m, lo + i, lo + i + 1, hi);
      RunsConcat(Prefixed(a[i], tails), back, m, lo + i, hi);
    }
  }

  lemma PrefixedShape(x: nat, tails: seq<seq<nat>>, n: nat, hi: nat)
    requires x < hi && AllRuns(tails, n, x + 1, hi)
    ensures AllRuns(Prefixed(x, tails), n + 1, x, hi)
  {
    var ps := Prefixed(x, tails);
    forall q | 0 <= q < |ps| ensures Run(ps[q], n + 1, x, hi) {
      var t := tails[q];
      assert Run(t, n, x + 1, hi);
      assert forall k :: 0 < k < |ps[q]| ==> ps[q][k] == t[k - 1];
    }
  }

  lemma RunsWeaken(ss: seq<seq<nat>>, m: nat, lo: nat, lo': nat, hi: nat)
    requires lo <= lo' && AllRuns(ss, m, lo', hi)
    ensures AllRuns(ss, m, lo, hi)
  {
    forall q | 0 <= q < |ss| ensures Run(ss[q], m, lo, hi) {
      assert Run(ss[q], m, lo', hi);
    }
  }

  lemma RunsConcat(xs: seq<seq<nat>>, ys: seq<seq<nat>>, m: nat, lo: nat, hi: nat)
    requires AllRuns(xs, m, lo, hi) && AllRuns(ys, m, lo, hi)
    ensures AllRuns(xs + ys, m, lo, hi)
  {
    forall q | 0 <= q < |xs + ys| ensures Run((xs + ys)[q], m, lo, hi) {
      if q < |xs| { assert (xs + ys)[q] == xs[q]; } else { assert (xs + ys)[q] == ys[q - |xs|]; }
    }
  }

  predicate LexSorted(ss: seq<seq<nat>>) {
    forall k, l :: 0 <= k < l < |ss| ==> LexBefore(ss[k], ss[l])
  }

  lemma PrefixedSorted(x: nat, ss: seq<seq<nat>>)
    requires LexSorted(ss)
    ensures LexSorted(Prefixed(x, ss))
  {
    var ps := Prefixed(x, ss);
    forall k, l | 0 <= k < l < |ps| ensures LexBefore(ps[k], ps[l]) {
      var j :| 0 <= j < |ss[k]| && j < |ss[l]| && ss[k][..j] == ss[l][..j] && ss[k][j] < ss[l][j];
      assert ps[k][..j + 1] == [x] + ss[k][..j];
      assert ps[l][..j + 1] == [x] + ss[l][..j];
      assert ps[k][j + 1] == ss[k][j] && ps[l][j + 1] == ss[l][j];
    }
  }

  /** The subsets of positions lo..hi-1 are listed in strictly increasing
      lexicographic order (hence without repetition). */
  lemma {:induction false} RangeSubsetsSorted(lo: nat, hi: nat, m: nat)
    requires lo <= hi && m >= 1
    ensures LexSorted(Subsets(Range(lo, hi), m))
    decreases hi - lo, 1
  {
    var a := Range(lo, hi);
    if |a| >= m {
      if m == 1 {
        var ss := Subsets(a, m);
        forall k, l | 0 <= k < l < |ss| ensures LexBefore(ss[k], ss[l]) {
          assert ss[k][..0] == ss[l][..0];
        }
      } else {
        RangeExtendSorted(lo, hi, m, 0);
      }
    }
  }

  lemma {:induction false} RangeExtendSorted(lo: nat, hi: nat, m: nat, i: nat)
    requires lo <= hi && 2 <= m <= hi - lo && i <= hi - lo - m + 1
    ensures LexSorted(Extend(Range(lo, hi), m, i))
    decreases hi - lo, 0, hi - lo - m + 1 - i
  {
    var a := Range(lo, hi);
    if i < |a| - m + 1 {
      RangeSuffix(lo, hi, i + 1);
      var tails := Subsets(a[i + 1..], m - 1);
      RangeSubsetsSorted(lo + i + 1, hi, m - 1);
      RangeExtendSorted(lo, hi, m, i + 1);
      PrefixedSorted(a[i], tails);
      FrontBeforeBack(lo, hi, m, i, Prefixed(a[i], tails), Extend(a, m, i + 1));
      ConcatSorted(Prefixed(a[i], tails), Extend(a, m, i + 1));
    }
  }

  /** Runs starting at position lo+i come before runs starting later. */
  lemma FrontBeforeBack(lo: nat, hi: nat, m: nat, i: nat, front: seq<seq<nat>>, back: seq<seq<nat>>)
    requires lo <= hi && 2 <= m <= hi - lo && i < hi - lo - m + 1
    requires front == Prefixed(Range(lo, hi)[i], Subsets(Range(lo, hi)[i + 1..], m - 1))
    requires back == Extend(Range(lo, hi), m, i + 1)
    ensures forall k, l :: 0 <= k < |front| && 0 <= l < |back| ==> LexBefore(front[k], back[l])
  {
    RangeExtendShape(lo, hi, m, i + 1);
    forall k, l | 0 <= k < |front| && 0 <= l < |back| ensures LexBefore(front[k], back[l]) {
      assert Run(back[l], m, lo + i + 1, hi);
      assert front[k][0] == lo + i;
      assert front[k][..0] == back[l][..0];
    }
  }

  lemma ConcatSorted(front: seq<seq<nat>>, back: seq<seq<nat>>)
    requires LexSorted(front) && LexSorted(back)
    requires forall k, l :: 0 <= k < |front| && 0 <= l < |back| ==> LexBefore(front[k], back[l])
    ensures LexSorted(front + back)
  {
    var all := front + back;
    forall k, l | 0 <= k < l < |all| ensures LexBefore(all[k], all[l]) {
      if l < |front| {
        assert all[k] == front[k] && all[l] == front[l];
      } else if k >= |front| {
        assert all[k] == back[k - |front|] && all[l] == back[l - |front|];
      } else {
        assert all[k] == front[k] && all[l] == back[l - |front|];
      }
    }
  }

  lemma {:induction false} IncreasingGap(s: seq<nat>, k: nat)
    requires Increasing(s) && k < |s|
    ensures s[k] >= s[0] + k
  {
    if k > 0 { IncreasingGap(s, k - 1); }
  }

  /** Every increasing run of m positions from lo..hi-1 is listed. */
  lemma {:induction false} RangeSubsetsComplete(lo: nat, hi: nat, m: nat, s: seq<nat>)
    requires lo <= hi && m >= 1
    requires |s| == m && Increasing(s) && forall k :: 0 <= k < |s| ==> lo <= s[k] < hi
    ensures s in Subsets(Range(lo, hi), m)
    decreases hi - lo, 1
  {
    var a := Range(lo, hi);
    IncreasingGap(s, m - 1);
    if m == 1 {
      assert s == [a[s[0] - lo]];
      assert Subsets(a, m)[s[0] - lo] == s;
    } else {
      var i := s[0] - lo;
      var tail := s[1..];
      RangeSuffix(lo, hi, i + 1);
      RangeSubsetsComplete(lo + i + 1, hi, m - 1, tail);
      assert s == [a[i]] + tail;
      var front := Prefixed(a[i], Subsets(a[i + 1..], m - 1));
      assert s in front;
      ExtendContains(a, m, 0, i, s);
    }
  }

  /** What Extend lists from position j on, it also lists from any i <= j. */
  lemma {:induction false} ExtendContains<T>(a: seq<T>, m: nat, i: nat, j: nat, s: seq<T>)
    requires 2 <= m <= |a| && i <= j < |a| - m + 1
    requires s in Prefixed(a[j], Subsets(a[j + 1..], m - 1))
    ensures s in Extend(a, m, i)
    decreases j - i
  {
    if i < j {
      ExtendContains(a, m, i + 1, j, s);
    }
  }

  /** Every position listed in `ii` is below n. */
  predicate Within(ii: seq<seq<nat>>, n: nat) {
    forall q, k :: 0 <= q < |ii| && 0 <= k < |ii[q]| ==> ii[q][k] < n
  }

  lemma WithinOf(ii: seq<seq<nat>>, m: nat, lo: nat, n: nat)
    requires AllRuns(ii, m, lo, n)
    ensures Within(ii, n)
  {
    forall q, k | 0 <= q < |ii| && 0 <= k < |ii[q]| ensures ii[q][k] < n {
      assert Run(ii[q], m, lo, n);
    }
  }

  /** The subsets of `a`, each taken through the positions it picks. */
  function PickAll<T>(a: seq<T>, ii: seq<seq<nat>>): (r: seq<seq<T>>)
    requires Within(ii, |a|)
    ensures |r| == |ii| && forall q :: 0 <= q < |ii| ==> r[q] == Pick(a, ii[q])
  {
    seq(|ii|, q requires 0 <= q < |ii| => Pick(a, ii[q]))
  }

  /** The subsets of any list are the subsets of its positions, read through
      the list, in the same order: the q-th subset of `a` consists of the
      elements at the q-th increasing run of positions.  With the lemmas on
      positions above, the q-th subset therefore picks the q-th run of m
      positions in lexicographic order, every run appears once, and there
      are C(|a|, m) of them. */
  lemma SubsetsPick<T>(a: seq<T>, m: nat)
    requires m >= 1
    ensures Within(Subsets(Range(0, |a|), m), |a|)
    ensures Subsets(a, m) == PickAll(a, Subsets(Range(0, |a|), m))
  {
    assert a[0..] == a;
    SuffixSubsetsPick(a, 0, m);
  }

  lemma {:induction false} SuffixSubsetsPick<T>(a: seq<T>, lo: nat, m: nat)
    requires lo <= |a| && m >= 1
    ensures Within(Subsets(Range(lo, |a|), m), |a|)
    ensures Subsets(a[lo..], m) == PickAll(a, Subsets(Range(lo, |a|), m))
    decreases |a| - lo, 1
  {
    RangeSubsetsShape(lo, |a|, m);
    WithinOf(Subsets(Range(lo, |a|), m), m, lo, |a|);
    var b := a[lo..];
    var r := Range(lo, |a|);
    if |b| >= m {
      if m == 1 {
        var ss := Subsets(r, m);
        forall q | 0 <= q < |b| ensures Subsets(b, m)[q] == PickAll(a, ss)[q] {
          assert ss[q] == [lo + q];
          assert Pick(a, ss[q]) == [a[lo + q]];
        }
      } else {
        SuffixExtendPick(a, lo, m, 0);
      }
    }
  }

  lemma {:induction false} SuffixExtendPick<T>(a: seq<T>, lo: nat, m: nat, i: nat)
    requires lo <= |a| && 2 <= m <= |a| - lo && i <= |a| - lo - m + 1
    ensures Within(Extend(Range(lo, |a|), m, i), |a|)
    ensures Extend(a[lo..], m, i) == PickAll(a, Extend(Range(lo, |a|), m, i))
    decreases |a| - lo, 0, |a| - lo - m + 1 - i
  {
    RangeExtendShape(lo, |a|, m, i);
    WithinOf(Extend(Range(lo, |a|), m, i), m, lo + i, |a|);
    var b := a[lo..];
    var r := Range(lo, |a|);
    if i < |b| - m + 1 {
      var c := a[lo + i + 1..];
      var tails := Subsets(Range(lo + i + 1, |a|), m - 1);
      SuffixSubsetsPick(a, lo + i + 1, m - 1);
      var picked := PickAll(a, tails);
      assert Subsets(c, m - 1) == picked;
      assert b[i + 1..] == c;
      assert Subsets(b[i + 1..], m - 1) == picked;
      SuffixExtendPick(a, lo, m, i + 1);
      var back := Extend(r, m, i + 1);
      assert Extend(b, m, i + 1) == PickAll(a, back);
      RangeSuffix(lo, |a|, i + 1);
      var front := Prefixed(r[i], tails);
      assert Extend(r, m, i) == front + back;
      assert b[i] == a[r[i]];
      PickAllPrefixed(a, r[i], tails);
      PickAllAppend(a, front, back);
      calc {
        Extend(b, m, i);
        Prefixed(b[i], picked) + Extend(b, m, i + 1);
        PickAll(a, front) + PickAll(a, back);
        PickAll(a, front + back);
      }
    }
  }

  lemma PickAllAppend<T>(a: seq<T>, xs: seq<seq<nat>>, ys: seq<seq<nat>>)
    requires Within(xs, |a|) && Within(ys, |a|)
    ensures Within(xs + ys, |a|)
    ensures PickAll(a, xs + ys) == PickAll(a, xs) + PickAll(a, ys)
  {
    forall q, k | 0 <= q < |xs + ys| && 0 <= k < |(xs + ys)[q]| ensures (xs + ys)[q][k] < |a| {
      if q >= |xs| { assert (xs + ys)[q] == ys[q - |xs|]; }
    }
  }

  lemma PickAllPrefixed<T>(a: seq<T>, x: nat, ss: seq<seq<nat>>)
    requires x < |a| && Within(ss, |a|)
    ensures Within(Prefixed(x, ss), |a|)
    ensures PickAll(a, Prefixed(x, ss)) == Prefixed(a[x], PickAll(a, ss))
  {
    var ps := Prefixed(x, ss);
    forall q, k | 0 <= q < |ss| && 0 <= k < |ps[q]| ensures ps[q][k] < |a| {
      if k > 0 { assert ps[q][k] == ss[q][k - 1]; }
    }
    forall q | 0 <= q < |ss| ensures PickAll(a, ps)[q] == Prefixed(a[x], PickAll(a, ss))[q] {
      assert Pick(a, ps[q]) == [a[x]] + Pick(a, ss[q]);
    }
  }
}

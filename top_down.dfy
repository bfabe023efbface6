/** The top-down (recursive) merge sort, as a function on values. */
module TopDownSort {
  import opened Runs
  import opened Merging

  /** The contents and comparison count the recursive sort produces on `s`:
      ranges of length at most 1 are left alone; longer ones are split at
      half their length, both halves are sorted and then merged. */
  function TopDown(s: seq<int>): (o: Outcome)
    ensures |o.list| == |s|
    decreases |s|
  {
    if |s| <= 1 then Outcome(s, 0)
    else
      var m := |s| / 2;
      var left := TopDown(s[..m]);
      var right := TopDown(s[m..]);
      Outcome(Merge(left.list, right.list),
              left.count + right.count + MergeComparisons(left.list, right.list))
  }

  /** The recursive sort produces a non-increasing permutation of its input. */
  lemma TopDownSorts(s: seq<int>)
    ensures NonIncreasing(TopDown(s).list)
    ensures multiset(TopDown(s).list) == multiset(s)
  {
    TopDownOrders(s);
    TopDownPermutes(s);
  }

  /** The recursive sort leaves its range non-increasing. */
  lemma {:induction false} TopDownOrders(s: seq<int>)
    ensures NonIncreasing(TopDown(s).list)
    decreases |s|
  {
    if |s| > 1 {
      var m := |s| / 2;
      var a, b := s[..m], s[m..];
      TopDownOrders(a);
      TopDownOrders(b);
      TopDownSplits(s, m);
      MergeNonIncreasing(TopDown(a).list, TopDown(b).list);
    }
  }

  /** The recursive sort rearranges its range and changes no value. */
  lemma {:induction false} TopDownPermutes(s: seq<int>)
    ensures multiset(TopDown(s).list) == multiset(s)
    decreases |s|
  {
    if |s| > 1 {
      var m := |s| / 2;
      var a, b := s[..m], s[m..];
      TopDownPermutes(a);
      TopDownPermutes(b);
      PermutedHalves(s, m);
    }
  }

  /** The step of TopDownPermutes: if the sorts of both halves permute
      them, the merge of those sorts permutes the whole range. */
  lemma PermutedHalves(s: seq<int>, m: nat)
    requires |s| > 1 && m == |s| / 2
    requires multiset(TopDown(s[..m]).list) == multiset(s[..m])
    requires multiset(TopDown(s[m..]).list) == multiset(s[m..])
    ensures multiset(TopDown(s).list) == multiset(s)
  {
    var a, b := s[..m], s[m..];
    TopDownSplits(s, m);
    SplitMultiset(s, m);
    MergedHalvesPermute(a, b, TopDown(a).list, TopDown(b).list, TopDown(s).list);
  }

  /** Cutting a sequence in two splits its multiset of values. */
  lemma SplitMultiset(s: seq<int>, m: nat)
    requires m <= |s|
    ensures multiset(s) == multiset(s[..m]) + multiset(s[m..])
  {
    assert s == s[..m] + s[m..];
  }

  /** Merging a permutation of `a` with one of `b` gives a permutation of
      both together. */
  lemma MergedHalvesPermute(a: seq<int>, b: seq<int>, x: seq<int>, y: seq<int>, w: seq<int>)
    requires w == Merge(x, y) && multiset(x) == multiset(a) && multiset(y) == multiset(b)
    ensures multiset(w) == multiset(a) + multiset(b)
  {
    MergePermutes(x, y);
  }

  /** A non-increasing input comes back unchanged. */
  lemma TopDownKeepsSorted(s: seq<int>)
    requires NonIncreasing(s)
    ensures TopDown(s).list == s
  {
    TopDownSorts(s);
    NonIncreasingUnique(TopDown(s).list, s);
  }

  /** Writing `x` over [l, m) of `s` changes nothing outside that window. */
  lemma Overwrite(s: seq<int>, x: seq<int>, l: nat, m: nat)
    requires l <= m <= |s| && |x| == m - l
    ensures |s[..l] + x + s[m..]| == |s|
    ensures (s[..l] + x + s[m..])[..l] == s[..l]
    ensures (s[..l] + x + s[m..])[l..m] == x
    ensures (s[..l] + x + s[m..])[m..] == s[m..]
  {
    var u := s[..l] + x + s[m..];
    assert u[..l] == s[..l];
    assert u[l..m] == x;
    assert u[m..] == s[m..];
  }

  /** Writing `left` over [l, m) and then `right` over [m, r). */
  lemma OverwriteTwice(s: seq<int>, s1: seq<int>, s2: seq<int>, left: seq<int>, right: seq<int>,
                        l: nat, m: nat, r: nat)
    requires l <= m <= r <= |s| && |left| == m - l && |right| == r - m
    requires s1 == s[..l] + left + s[m..] && s2 == s1[..m] + right + s1[r..]
    ensures s1[m..r] == s[m..r]
    ensures s2[..l] == s[..l] && s2[l..m] == left && s2[m..r] == right && s2[r..] == s[r..]
  {
    Overwrite(s, left, l, m);
    assert s1[m..r] == s1[m..][..r - m] == s[m..][..r - m] == s[m..r];
    assert s1[r..] == s1[m..][r - m..] == s[m..][r - m..] == s[r..];
    Overwrite(s1, right, m, r);
    assert s2[..l] == s2[..m][..l] == s1[..m][..l] == s1[..l];
    assert s2[l..m] == s2[..m][l..] == s1[..m][l..] == s1[l..m];
  }

  /** One call recursiveSort(list, temp, l, r) of a range longer than 1, on
      contents `s`: sorting [l, m) gives `s1`, sorting [m, r) of that gives
      `s2`, and merging [l, m) with [m, r) of that gives `s` with [l, r)
      replaced by its sort, having counted the sort's comparisons. */
  lemma TopDownRangeStep(s: seq<int>, s1: seq<int>, s2: seq<int>, l: nat, m: nat, r: nat)
    requires l < m < r <= |s| && m == l + (r - l) / 2
    requires s1 == s[..l] + TopDown(s[l..m]).list + s[m..]
    requires s2 == s1[..m] + TopDown(s1[m..r]).list + s1[r..]
    ensures MergeStep(s2, l, m, r).list == s[..l] + TopDown(s[l..r]).list + s[r..]
    ensures TopDown(s[l..m]).count + TopDown(s1[m..r]).count + MergeStep(s2, l, m, r).count
            == TopDown(s[l..r]).count
  {
    var left, right := TopDown(s[l..m]), TopDown(s1[m..r]);
    SortedHalvesMerged(s, s1, s2, left.list, right.list, l, m, r);
    assert right == TopDown(s[m..r]);
    TopDownRange(s, l, m, r);
  }

  /** The recursive sort of s[l..r), split at m, merges the sorts of
      s[l..m) and s[m..r). */
  lemma TopDownRange(s: seq<int>, l: nat, m: nat, r: nat)
    requires l < m < r <= |s| && m == l + (r - l) / 2
    ensures TopDown(s[l..r]).list == Merge(TopDown(s[l..m]).list, TopDown(s[m..r]).list)
    ensures TopDown(s[l..r]).count == TopDown(s[l..m]).count + TopDown(s[m..r]).count
                                      + MergeComparisons(TopDown(s[l..m]).list, TopDown(s[m..r]).list)
  {
    var t, h := s[l..r], m - l;
    assert |t| == r - l && h == |t| / 2;
    assert t[..h] == s[l..m] && t[h..] == s[m..r] by {
      Halves(s, l, m, r);
    }
    TopDownSplits(t, h);
  }

  /** Writing `left` over [l, m) and then `right` over [m, r), and merging
      [l, m) with [m, r), writes their merge over [l, r). */
  lemma SortedHalvesMerged(s: seq<int>, s1: seq<int>, s2: seq<int>, left: seq<int>, right: seq<int>,
                           l: nat, m: nat, r: nat)
    requires l < m < r <= |s| && |left| == m - l && |right| == r - m
    requires s1 == s[..l] + left + s[m..] && s2 == s1[..m] + right + s1[r..]
    ensures s1[m..r] == s[m..r]
    ensures MergeStep(s2, l, m, r).list == s[..l] + Merge(left, right) + s[r..]
    ensures MergeStep(s2, l, m, r).count == MergeComparisons(left, right)
  {
    OverwriteTwice(s, s1, s2, left, right, l, m, r);
    var u := MergeStep(s2, l, m, r);
    MergeStepParts(s2, l, m, r, r);
    Reassemble(u.list, l, r);
  }

  /** Cutting s[l..r) at m - l gives s[l..m) and s[m..r). */
  lemma Halves(s: seq<int>, l: nat, m: nat, r: nat)
    requires l <= m <= r <= |s|
    ensures s[l..r][..m - l] == s[l..m] && s[l..r][m - l..] == s[m..r]
  {
  }

  /** The recursive sort of a range longer than 1 merges the sorts of its
      two halves, split at half the length. */
  lemma TopDownSplits(t: seq<int>, h: nat)
    requires |t| > 1 && h == |t| / 2
    ensures TopDown(t).list == Merge(TopDown(t[..h]).list, TopDown(t[h..]).list)
    ensures TopDown(t).count == TopDown(t[..h]).count + TopDown(t[h..]).count
                                + MergeComparisons(TopDown(t[..h]).list, TopDown(t[h..]).list)
  {
  }

  /** The recursive sort of n elements counts at most n * ceil(log2 n)
      comparisons. */
  lemma {:induction false} TopDownCountBound(s: seq<int>)
    ensures TopDown(s).count <= |s| * CeilLog2(|s|)
    decreases |s|
  {
    var n := |s|;
    if n > 1 {
      var m := n / 2;
      var a, b := s[..m], s[m..];
      var left, right := TopDown(a), TopDown(b);
      var c := MergeComparisons(left.list, right.list);
      TopDownCountBound(a);
      TopDownCountBound(b);
      assert TopDown(s).count == left.count + right.count + c by {
        TopDownSplits(s, m);
      }
      LevelBound(n, |a|, |b|, left.count, right.count, c);
    }
  }

  /** One level of the split: if the halves of n elements keep within
      their bounds and the merge counts at most n, the whole keeps within
      n * ceil(log2 n). */
  lemma LevelBound(n: nat, m: nat, h: nat, ca: nat, cb: nat, c: nat)
    requires n > 1 && m == n / 2 && h == n - m
    requires ca <= m * CeilLog2(m) && cb <= h * CeilLog2(h) && c <= n
    ensures ca + cb + c <= n * CeilLog2(n)
  {
    var k, ka, kb := CeilLog2(n), CeilLog2(m), CeilLog2(h);
    assert k == 1 + kb by {
      assert (n + 1) / 2 == h;
    }
    assert ka <= kb by {
      CeilLog2Monotone(m, h);
    }
    SplitBound(m, h, ka, kb, k, ca, cb, c);
  }

  /** The arithmetic of one level of the split: two halves bounded by
      k - 1 comparisons per element plus one merge of at most n. */
  lemma SplitBound(a: nat, b: nat, ka: nat, kb: nat, k: nat, ca: nat, cb: nat, c: nat)
    requires ka <= kb && k == kb + 1
    requires ca <= a * ka && cb <= b * kb && c <= a + b
    ensures ca + cb + c <= (a + b) * k
  {
    assert a * ka <= a * kb;
    assert (a + b) * k == a * kb + b * kb + a + b;
  }
}

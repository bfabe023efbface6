/** One call of the merge step both sorts share, as a function on the
    whole array's contents, with its frame, permutation, ordering and
    comparison-count properties. */
module Merging {
  import opened Runs

  /** The right end of a merge window once it is clamped to the array. */
  function Clamp(r: nat, n: nat): nat {
    if r > n then n else r
  }

  /** One call merge(list, temp, l, m, r) on contents `s`: nothing happens
      when `m` is at or past the end; otherwise `r` is clamped to the end and
      the runs s[l..m) and s[m..r) are replaced by their merge. */
  function MergeStep(s: seq<int>, l: nat, m: nat, r: nat): (o: Outcome)
    requires l <= m <= r
    ensures |o.list| == |s|
  {
    if m >= |s| then Outcome(s, 0)
    else
      var hi := Clamp(r, |s|);
      Outcome(s[..l] + Merge(s[l..m], s[m..hi]) + s[hi..],
              MergeComparisons(s[l..m], s[m..hi]))
  }

  /** The merge step changes nothing outside [l, min(r, n)), and nothing at
      all (counting no comparison) when m >= n. */
  lemma MergeStepFrame(s: seq<int>, l: nat, m: nat, r: nat)
    requires l <= m <= r
    ensures forall i :: 0 <= i < |s| && !(l <= i < Clamp(r, |s|)) ==>
              MergeStep(s, l, m, r).list[i] == s[i]
    ensures m >= |s| ==> MergeStep(s, l, m, r) == Outcome(s, 0)
  {
    if m < |s| {
      var hi := Clamp(r, |s|);
      var mid := Merge(s[l..m], s[m..hi]);
      var o := MergeStep(s, l, m, r).list;
      forall i | 0 <= i < |s| && !(l <= i < hi)
        ensures o[i] == s[i]
      {
        if i < l {
          assert o[i] == s[..l][i];
        } else {
          assert o[i] == s[hi..][i - hi];
        }
      }
    }
  }

  /** When m < n the merge step leaves the prefix before l and the suffix
      from min(r, n) on as they were and writes the merge in between. */
  lemma MergeStepParts(s: seq<int>, l: nat, m: nat, r: nat, hi: nat)
    requires l <= m <= r && m < |s|
    requires hi == Clamp(r, |s|)
    ensures MergeStep(s, l, m, r).list[..l] == s[..l]
    ensures MergeStep(s, l, m, r).list[l..hi] == Merge(s[l..m], s[m..hi])
    ensures MergeStep(s, l, m, r).list[hi..] == s[hi..]
    ensures MergeStep(s, l, m, r).count == MergeComparisons(s[l..m], s[m..hi])
  {
    var x, y, z := s[..l], Merge(s[l..m], s[m..hi]), s[hi..];
    ThreeParts(x, y, z);
  }

  /** The three parts of a concatenation x + y + z. */
  lemma ThreeParts(x: seq<int>, y: seq<int>, z: seq<int>)
    ensures (x + y + z)[..|x|] == x
    ensures (x + y + z)[|x|..|x| + |y|] == y
    ensures (x + y + z)[|x| + |y|..] == z
  {
    var w := x + y + z;
    assert w[..|x|] == x;
    assert w[|x|..|x| + |y|] == y;
    assert w[|x| + |y|..] == z;
  }

  /** A sequence is its prefix, its window [l, r) and its suffix. */
  lemma Reassemble(u: seq<int>, l: nat, r: nat)
    requires l <= r <= |u|
    ensures u == u[..l] + u[l..r] + u[r..]
  {
  }

  /** Slices of the suffix s[p..] are slices of `s` shifted by `p`. */
  lemma SuffixSlices(s: seq<int>, p: nat, a: nat, b: nat)
    requires p + a <= p + b <= |s|
    ensures s[p..][..a] == s[p..p + a]
    ensures s[p..][a..b] == s[p + a..p + b]
    ensures s[p..][b..] == s[p + b..]
  {
  }

  /** The merge step permutes the array. */
  lemma MergeStepPermutes(s: seq<int>, l: nat, m: nat, r: nat)
    requires l <= m <= r
    ensures multiset(MergeStep(s, l, m, r).list) == multiset(s)
  {
    if m < |s| {
      var hi := Clamp(r, |s|);
      var front, a, b, back := s[..l], s[l..m], s[m..hi], s[hi..];
      assert s == front + a + b + back;
      MergePermutes(a, b);
      calc {
        multiset(MergeStep(s, l, m, r).list);
        multiset(front + Merge(a, b) + back);
        multiset(front) + multiset(Merge(a, b)) + multiset(back);
        multiset(front) + multiset(a) + multiset(b) + multiset(back);
        multiset(front + a + b + back);
      }
    }
  }

  /** When m < n, the merged window [l, min(r, n)) holds the merge of the two
      runs; so if both runs are non-increasing, so is the window. */
  lemma MergeStepSorts(s: seq<int>, l: nat, m: nat, r: nat)
    requires l <= m <= r && m < |s|
    requires NonIncreasing(s[l..m]) && NonIncreasing(s[m..Clamp(r, |s|)])
    ensures NonIncreasing(MergeStep(s, l, m, r).list[l..Clamp(r, |s|)])
  {
    var hi := Clamp(r, |s|);
    assert MergeStep(s, l, m, r).list[l..hi] == Merge(s[l..m], s[m..hi]) by {
      MergeStepParts(s, l, m, r, hi);
    }
    MergeNonIncreasing(s[l..m], s[m..hi]);
  }

  /** When m < n, the merged window [l, min(r, n)) is a permutation of its
      old contents. */
  lemma MergeStepWindowPermutes(s: seq<int>, l: nat, m: nat, r: nat)
    requires l <= m <= r && m < |s|
    ensures multiset(MergeStep(s, l, m, r).list[l..Clamp(r, |s|)]) == multiset(s[l..Clamp(r, |s|)])
  {
    var hi := Clamp(r, |s|);
    var a, b := s[l..m], s[m..hi];
    MergeStepParts(s, l, m, r, hi);
    assert s[l..hi] == a + b;
    MergedPermutes(MergeStep(s, l, m, r).list[l..hi], a, b, s[l..hi]);
  }

  /** The merge of two runs is a permutation of their concatenation. */
  lemma MergedPermutes(w: seq<int>, a: seq<int>, b: seq<int>, x: seq<int>)
    requires w == Merge(a, b) && x == a + b
    ensures multiset(w) == multiset(x)
  {
    MergePermutes(a, b);
  }

  /** A merge step that merges counts at least min(m - l, r' - m) and at
      most (r' - l) - 1 comparisons, where r' = min(r, n). */
  lemma MergeStepCount(s: seq<int>, l: nat, m: nat, r: nat)
    requires l <= m <= r && m < |s|
    ensures Min(m - l, Clamp(r, |s|) - m) <= MergeStep(s, l, m, r).count
    ensures l < Clamp(r, |s|) ==> MergeStep(s, l, m, r).count <= Clamp(r, |s|) - l - 1
  {
    var hi := Clamp(r, |s|);
    MergeComparisonsBounds(s[l..m], s[m..hi]);
  }

}

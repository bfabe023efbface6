/** Runs of integers and the merge of two runs, as values.
    The order the merge sort establishes is non-increasing: the merge step
    always emits the larger head and, on a tie, the head of the right run. */
module Runs {

  /** What a merge or a sort leaves behind: the contents of the array and the
      number of comparisons it counted. */
  datatype Outcome = Outcome(list: seq<int>, count: nat)

  /** Every element is at least as large as every element after it. */
  predicate NonIncreasing(s: seq<int>) {
    forall i, j :: 0 <= i < j < |s| ==> s[i] >= s[j]
  }

  /** The sequence the merge step writes into the scratch buffer when it
      merges run `a` (left) with run `b` (right). */
  function Merge(a: seq<int>, b: seq<int>): (r: seq<int>)
    ensures |r| == |a| + |b|
    decreases |a| + |b|
  {
    if |a| == 0 then b
    else if |b| == 0 then a
    else if b[0] < a[0] then [a[0]] + Merge(a[1..], b)
    else [b[0]] + Merge(a, b[1..])
  }

  /** The number of comparisons the merge step counts while merging `a`
      with `b`: one for every output element chosen while neither run is
      exhausted. */
  function MergeComparisons(a: seq<int>, b: seq<int>): (c: nat)
    ensures c <= |a| + |b|
    ensures c == 0 <==> |a| == 0 || |b| == 0
    decreases |a| + |b|
  {
    if |a| == 0 || |b| == 0 then 0
    else if b[0] < a[0] then 1 + MergeComparisons(a[1..], b)
    else 1 + MergeComparisons(a, b[1..])
  }

  /** One step of the merge when it emits the head of the left run: the
      right run is exhausted, or its head is smaller. */
  lemma MergeTakesLeft(a: seq<int>, b: seq<int>)
    requires a != [] && (b == [] || b[0] < a[0])
    ensures Merge(a, b) == [a[0]] + Merge(a[1..], b)
    ensures MergeComparisons(a, b) == (if b == [] then 0 else 1) + MergeComparisons(a[1..], b)
  {
  }

  /** One step of the merge when it emits the head of the right run: the
      left run is exhausted, or its head is not larger (ties go right). */
  lemma MergeTakesRight(a: seq<int>, b: seq<int>)
    requires b != [] && (a == [] || !(b[0] < a[0]))
    ensures Merge(a, b) == [b[0]] + Merge(a, b[1..])
    ensures MergeComparisons(a, b) == (if a == [] then 0 else 1) + MergeComparisons(a, b[1..])
  {
  }

  /** The merge of the runs s[i..m) and s[j..hi) of one sequence, one output
      element at a time as the merge loop produces it: the head of the
      right run when the left run is exhausted, the head of the left run
      when the right run is exhausted, and otherwise, after one counted
      comparison, the left head if the right head is smaller and else the
      right head. */
  function MergeFrom(s: seq<int>, i: nat, m: nat, j: nat, hi: nat): (o: Outcome)
    requires i <= m <= j <= hi <= |s|
    ensures |o.list| == (m - i) + (hi - j)
    decreases (m - i) + (hi - j)
  {
    if i == m && j == hi then Outcome([], 0)
    else if i == m then
      var rest := MergeFrom(s, i, m, j + 1, hi);
      Outcome([s[j]] + rest.list, rest.count)
    else if j == hi then
      var rest := MergeFrom(s, i + 1, m, j, hi);
      Outcome([s[i]] + rest.list, rest.count)
    else if s[j] < s[i] then
      var rest := MergeFrom(s, i + 1, m, j, hi);
      Outcome([s[i]] + rest.list, 1 + rest.count)
    else
      var rest := MergeFrom(s, i, m, j + 1, hi);
      Outcome([s[j]] + rest.list, 1 + rest.count)
  }

  /** The element-at-a-time merge is the merge of the two runs, with the
      comparisons MergeComparisons counts. */
  lemma {:induction false} MergeFromIsMerge(s: seq<int>, i: nat, m: nat, j: nat, hi: nat)
    requires i <= m <= j <= hi <= |s|
    ensures MergeFrom(s, i, m, j, hi) == Outcome(Merge(s[i..m], s[j..hi]), MergeComparisons(s[i..m], s[j..hi]))
    decreases (m - i) + (hi - j)
  {
    if i == m && j == hi {
    } else if i == m || (j < hi && !(s[j] < s[i])) {
      MergeFromIsMerge(s, i, m, j + 1, hi);
      MergeFromTakesRight(s, i, m, j, hi);
    } else {
      MergeFromIsMerge(s, i + 1, m, j, hi);
      MergeFromTakesLeft(s, i, m, j, hi);
    }
  }

  /** MergeFromIsMerge for one step that emits s[i]. */
  lemma MergeFromTakesLeft(s: seq<int>, i: nat, m: nat, j: nat, hi: nat)
    requires i < m <= j <= hi <= |s| && (j == hi || s[j] < s[i])
    requires MergeFrom(s, i + 1, m, j, hi) == Outcome(Merge(s[i + 1..m], s[j..hi]), MergeComparisons(s[i + 1..m], s[j..hi]))
    ensures MergeFrom(s, i, m, j, hi) == Outcome(Merge(s[i..m], s[j..hi]), MergeComparisons(s[i..m], s[j..hi]))
  {
    assert s[i..m] == [s[i]] + s[i + 1..m];
    TakeLeftStep(s[i], s[i + 1..m], s[i..m], s[j..hi], MergeFrom(s, i + 1, m, j, hi), MergeFrom(s, i, m, j, hi));
  }

  /** MergeFromIsMerge for one step that emits s[j]. */
  lemma MergeFromTakesRight(s: seq<int>, i: nat, m: nat, j: nat, hi: nat)
    requires i <= m <= j < hi <= |s| && (i == m || !(s[j] < s[i]))
    requires MergeFrom(s, i, m, j + 1, hi) == Outcome(Merge(s[i..m], s[j + 1..hi]), MergeComparisons(s[i..m], s[j + 1..hi]))
    ensures MergeFrom(s, i, m, j, hi) == Outcome(Merge(s[i..m], s[j..hi]), MergeComparisons(s[i..m], s[j..hi]))
  {
    assert s[j..hi] == [s[j]] + s[j + 1..hi];
    TakeRightStep(s[j], s[j + 1..hi], s[i..m], s[j..hi], MergeFrom(s, i, m, j + 1, hi), MergeFrom(s, i, m, j, hi));
  }

  /** The step of MergeFromIsMerge that emits the left head `x` of
      `a == [x] + t`, counting a comparison unless `b` is exhausted. */
  lemma TakeLeftStep(x: int, t: seq<int>, a: seq<int>, b: seq<int>, rest: Outcome, o: Outcome)
    requires a == [x] + t && (b == [] || b[0] < x)
    requires rest == Outcome(Merge(t, b), MergeComparisons(t, b))
    requires o == Outcome([x] + rest.list, (if b == [] then 0 else 1) + rest.count)
    ensures o == Outcome(Merge(a, b), MergeComparisons(a, b))
  {
    assert a[0] == x && a[1..] == t;
    MergeTakesLeft(a, b);
  }

  /** The step of MergeFromIsMerge that emits the right head `x` of
      `b == [x] + t`, counting a comparison unless `a` is exhausted. */
  lemma TakeRightStep(x: int, t: seq<int>, a: seq<int>, b: seq<int>, rest: Outcome, o: Outcome)
    requires b == [x] + t && (a == [] || !(x < a[0]))
    requires rest == Outcome(Merge(a, t), MergeComparisons(a, t))
    requires o == Outcome([x] + rest.list, (if a == [] then 0 else 1) + rest.count)
    ensures o == Outcome(Merge(a, b), MergeComparisons(a, b))
  {
    assert b[0] == x && b[1..] == t;
    MergeTakesRight(a, b);
  }

  /** The merge is a permutation of its two runs. */
  lemma {:induction false} MergePermutes(a: seq<int>, b: seq<int>)
    ensures multiset(Merge(a, b)) == multiset(a) + multiset(b)
    decreases |a| + |b|
  {
    if a == [] || b == [] {
    } else if b[0] < a[0] {
      MergePermutes(a[1..], b);
      MergeTakesLeft(a, b);
      PrependLeft(a[0], a[1..], a, Merge(a[1..], b), Merge(a, b), b);
    } else {
      MergePermutes(a, b[1..]);
      MergeTakesRight(a, b);
      PrependRight(b[0], b[1..], b, Merge(a, b[1..]), Merge(a, b), a);
    }
  }

  /** The permutation step when the merge emits the left head `x` of
      `a == [x] + t`: it goes in front of the merge `r` of `t` with `b`. */
  lemma PrependLeft(x: int, t: seq<int>, a: seq<int>, r: seq<int>, w: seq<int>, b: seq<int>)
    requires a == [x] + t && w == [x] + r
    requires multiset(r) == multiset(t) + multiset(b)
    ensures multiset(w) == multiset(a) + multiset(b)
  {
  }

  /** The permutation step when the merge emits the right head `x` of
      `b == [x] + t`: it goes in front of the merge `r` of `a` with `t`. */
  lemma PrependRight(x: int, t: seq<int>, b: seq<int>, r: seq<int>, w: seq<int>, a: seq<int>)
    requires b == [x] + t && w == [x] + r
    requires multiset(r) == multiset(a) + multiset(t)
    ensures multiset(w) == multiset(a) + multiset(b)
  {
  }

  /** Every element of the merge is bounded by a bound of both runs. */
  lemma MergeBounded(a: seq<int>, b: seq<int>, x: int)
    requires forall k :: 0 <= k < |a| ==> a[k] <= x
    requires forall k :: 0 <= k < |b| ==> b[k] <= x
    ensures forall k :: 0 <= k < |a| + |b| ==> Merge(a, b)[k] <= x
  {
    MergePermutes(a, b);
    forall k | 0 <= k < |a| + |b|
      ensures Merge(a, b)[k] <= x
    {
      var y := Merge(a, b)[k];
      assert y in multiset(Merge(a, b));
      assert y in multiset(a) || y in multiset(b);
    }
  }

  /** Prefixing a head that bounds a non-increasing tail keeps it non-increasing. */
  lemma ConsNonIncreasing(h: int, t: seq<int>)
    requires NonIncreasing(t)
    requires forall k :: 0 <= k < |t| ==> t[k] <= h
    ensures NonIncreasing([h] + t)
  {
    var s := [h] + t;
    forall i, j | 0 <= i < j < |s|
      ensures s[i] >= s[j]
    {
      if i > 0 {
        assert s[i] == t[i - 1] && s[j] == t[j - 1];
      } else {
        assert s[j] == t[j - 1];
      }
    }
  }

  /** Merging two non-increasing runs gives a non-increasing run. */
  lemma {:induction false} MergeNonIncreasing(a: seq<int>, b: seq<int>)
    requires NonIncreasing(a) && NonIncreasing(b)
    ensures NonIncreasing(Merge(a, b))
    decreases |a| + |b|
  {
    if a == [] || b == [] {
    } else if b[0] < a[0] {
      MergeNonIncreasing(a[1..], b);
      MergeBounded(a[1..], b, a[0]);
      ConsNonIncreasing(a[0], Merge(a[1..], b));
    } else {
      MergeNonIncreasing(a, b[1..]);
      MergeBounded(a, b[1..], b[0]);
      ConsNonIncreasing(b[0], Merge(a, b[1..]));
    }
  }

  function Min(x: int, y: int): int {
    if x <= y then x else y
  }

  /** A merge counts at least as many comparisons as the shorter run has
      elements, and fewer than it emits elements when it emits any. */
  lemma {:induction false} MergeComparisonsBounds(a: seq<int>, b: seq<int>)
    ensures Min(|a|, |b|) <= MergeComparisons(a, b)
    ensures |a| + |b| > 0 ==> MergeComparisons(a, b) <= |a| + |b| - 1
    decreases |a| + |b|
  {
    if a == [] || b == [] {
    } else if b[0] < a[0] {
      MergeComparisonsBounds(a[1..], b);
    } else {
      MergeComparisonsBounds(a, b[1..]);
    }
  }

  /** The head of a non-empty non-increasing sequence is its largest element. */
  lemma HeadIsLargest(s: seq<int>, x: int)
    requires NonIncreasing(s) && x in multiset(s)
    ensures |s| > 0 && x <= s[0]
  {
    assert x in s;
    var k :| 0 <= k < |s| && s[k] == x;
    assert k == 0 || s[0] >= s[k];
  }

  /** A multiset has exactly one non-increasing arrangement. */
  lemma {:induction false} NonIncreasingUnique(s: seq<int>, t: seq<int>)
    requires NonIncreasing(s) && NonIncreasing(t)
    requires multiset(s) == multiset(t)
    ensures s == t
    decreases |s|
  {
    if s != [] {
      assert s[0] in multiset(s);
      HeadIsLargest(t, s[0]);
      assert t[0] in multiset(t);
      HeadIsLargest(s, t[0]);
      assert s[0] == t[0];
      assert s == [s[0]] + s[1..];
      assert t == [t[0]] + t[1..];
      assert multiset(s) == multiset{s[0]} + multiset(s[1..]);
      assert multiset(t) == multiset{t[0]} + multiset(t[1..]);
      assert multiset(s[1..]) == multiset(s) - multiset{s[0]};
      assert multiset(t[1..]) == multiset(t) - multiset{t[0]};
      NonIncreasingUnique(s[1..], t[1..]);
    } else {
      assert |t| == |multiset(t)| == 0;
    }
  }

  /** 2 to the power `p`. */
  function Pow2(p: nat): (r: nat)
    ensures r >= 1
  {
    if p == 0 then 1 else 2 * Pow2(p - 1)
  }

  /** The number of halvings (rounding up) that take `n` down to at most 1;
      CeilLog2Least shows it is the least `k` with 2^k >= n. */
  function CeilLog2(n: nat): nat
    decreases n
  {
    if n <= 1 then 0 else 1 + CeilLog2((n + 1) / 2)
  }

  lemma {:induction false} CeilLog2Monotone(x: nat, y: nat)
    requires x <= y
    ensures CeilLog2(x) <= CeilLog2(y)
    decreases y
  {
    if x > 1 {
      CeilLog2Monotone((x + 1) / 2, (y + 1) / 2);
    }
  }

  /** While a run length 2^p is still below `n`, at least one more doubling
      is needed: p < CeilLog2(n). */
  lemma {:induction false} Pow2BelowCeilLog2(p: nat, n: nat)
    requires Pow2(p) < n
    ensures p < CeilLog2(n)
  {
    if p > 0 {
      Pow2BelowCeilLog2(p - 1, (n + 1) / 2);
    }
  }

  /** CeilLog2(n) is the least k with 2^k >= n: 2^k reaches n, and for
      n > 1, 2^(k-1) does not. */
  lemma {:induction false} CeilLog2Least(n: nat)
    ensures n <= Pow2(CeilLog2(n))
    ensures n > 1 ==> Pow2(CeilLog2(n) - 1) < n
    decreases n
  {
    if n > 1 {
      var h := (n + 1) / 2;
      CeilLog2Least(h);
      assert CeilLog2(n) == 1 + CeilLog2(h);
      assert Pow2(CeilLog2(n)) == 2 * Pow2(CeilLog2(h));
      if h > 1 {
        assert Pow2(CeilLog2(h)) == 2 * Pow2(CeilLog2(h) - 1);
      }
    }
  }
}

/** The bottom-up (iterative) merge sort, as functions on values. */
module BottomUpSort {
  import opened Runs
  import opened Merging

  /** One pass of the inner loop over the elements `t` from a block start
      on, with run length `size`: when a second run exists, the first two
      runs (the second cut at the end) are merged and the pass goes on after
      them; otherwise the remaining (at most one) run is left alone. */
  function Pass(t: seq<int>, size: nat): (o: Outcome)
    requires size >= 1
    ensures |o.list| == |t|
    decreases |t|
  {
    if |t| <= size then Outcome(t, 0)
    else
      var w := 2 * size;
      var hi := Clamp(w, |t|);
      var a, b := t[..size], t[size..hi];
      var rest := Pass(t[hi..], size);
      Outcome(Merge(a, b) + rest.list, MergeComparisons(a, b) + rest.count)
  }

  /** The outer loop from run length `size` on: while size < n, make one
      pass and double the run length. */
  function BottomUpFrom(s: seq<int>, size: nat): (o: Outcome)
    requires size >= 1
    ensures |o.list| == |s|
    decreases |s| - size
  {
    if size >= |s| then Outcome(s, 0)
    else
      var pass := Pass(s, size);
      var w := size * 2;
      var rest := BottomUpFrom(pass.list, w);
      Outcome(rest.list, pass.count + rest.count)
  }

  /** One round of the outer loop: a pass with run length `size`, then the
      rest from run length size * 2. */
  lemma BottomUpFromStep(s: seq<int>, size: nat)
    requires 1 <= size < |s|
    ensures BottomUpFrom(Pass(s, size).list, size * 2).list == BottomUpFrom(s, size).list
    ensures Pass(s, size).count + BottomUpFrom(Pass(s, size).list, size * 2).count == BottomUpFrom(s, size).count
  {
  }

  /** The contents and comparison count the iterative sort produces on `s`. */
  function BottomUp(s: seq<int>): (o: Outcome)
    ensures |o.list| == |s|
  {
    BottomUpFrom(s, 1)
  }

  /** The first step of the pass over s[left..] is
      merge(list, temp, left, left+size, left+2*size) on contents `s`: it
      writes that pass's first window, counts that window's comparisons, and
      leaves everything outside the window as it was. */
  lemma MergeStepStartsPass(s: seq<int>, size: nat, left: nat, m: nat, r: nat, c: nat)
    requires size >= 1 && left < |s| && m == left + size && r == left + 2 * size && c == Clamp(r, |s|)
    ensures MergeStep(s, left, m, r).list[..left] == s[..left]
    ensures MergeStep(s, left, m, r).list[c..] == s[c..]
    ensures Pass(s[left..], size).list == MergeStep(s, left, m, r).list[left..c] + Pass(s[c..], size).list
    ensures Pass(s[left..], size).count == MergeStep(s, left, m, r).count + Pass(s[c..], size).count
  {
    if m >= |s| {
      MergeStepEnd(s, size, left, m, r, c);
    } else {
      MergeStepInside(s, size, left, m, r, c);
    }
  }

  lemma MergeStepEnd(s: seq<int>, size: nat, left: nat, m: nat, r: nat, c: nat)
    requires size >= 1 && left < |s| <= m && m == left + size && r == left + 2 * size && c == Clamp(r, |s|)
    ensures MergeStep(s, left, m, r).list[..left] == s[..left]
    ensures MergeStep(s, left, m, r).list[c..] == s[c..]
    ensures Pass(s[left..], size).list == MergeStep(s, left, m, r).list[left..c] + Pass(s[c..], size).list
    ensures Pass(s[left..], size).count == MergeStep(s, left, m, r).count + Pass(s[c..], size).count
  {
    assert MergeStep(s, left, m, r) == Outcome(s, 0);
    assert c == |s| && s[c..] == [];
    var t := s[left..];
    assert Pass(t, size) == Outcome(t, 0);
    assert s[left..c] + [] == t;
  }

  lemma MergeStepInside(s: seq<int>, size: nat, left: nat, m: nat, r: nat, c: nat)
    requires size >= 1 && left < m < |s| && m == left + size && r == left + 2 * size && c == Clamp(r, |s|)
    ensures MergeStep(s, left, m, r).list[..left] == s[..left]
    ensures MergeStep(s, left, m, r).list[c..] == s[c..]
    ensures Pass(s[left..], size).list == MergeStep(s, left, m, r).list[left..c] + Pass(s[c..], size).list
    ensures Pass(s[left..], size).count == MergeStep(s, left, m, r).count + Pass(s[c..], size).count
  {
    var t := s[left..];
    var hi := Clamp(2 * size, |t|);
    assert left + hi == c;
    SuffixSlices(s, left, size, hi);
    var a, b := t[..size], t[size..hi];
    assert a == s[left..m] && b == s[m..c] && t[hi..] == s[c..];
    PassSplits(t, size, hi);
    MergeStepParts(s, left, m, r, c);
  }

  /** A pass over more than one run merges the first two runs and goes on
      after them. */
  lemma PassSplits(t: seq<int>, size: nat, hi: nat)
    requires size >= 1 && |t| > size && hi == Clamp(2 * size, |t|)
    ensures Pass(t, size).list == Merge(t[..size], t[size..hi]) + Pass(t[hi..], size).list
    ensures Pass(t, size).count == MergeComparisons(t[..size], t[size..hi]) + Pass(t[hi..], size).count
  {
  }

  /** Replacing a produced window after a common prefix: if `u` agrees with
      `s` before `left` and a pass's output from `left` on is u[left..c)
      followed by `q`, then the prefix followed by that output is u[..c)
      followed by `q`. */
  lemma PrefixAdvance(s: seq<int>, u: seq<int>, left: nat, c: nat, p: seq<int>, q: seq<int>)
    requires left <= c <= |u| && left <= |s|
    requires u[..left] == s[..left] && p == u[left..c] + q
    ensures s[..left] + p == u[..c] + q
  {
    assert u[..c] == u[..left] + u[left..c];
  }

  /** The inner loop's step: on contents `s`, whose prefix before block
      start `left` the current pass has already produced,
      merge(list, temp, left, left+size, left+2*size) advances the pass by
      one window: the pass's output and count are the same whether taken
      before or after the call. */
  lemma MergeStepAdvancesPass(s: seq<int>, size: nat, left: nat, m: nat, r: nat, c: nat)
    requires size >= 1 && left < |s| && m == left + size && r == left + 2 * size && c == Clamp(r, |s|)
    ensures s[..Clamp(left, |s|)] + Pass(s[Clamp(left, |s|)..], size).list
            == MergeStep(s, left, m, r).list[..c] + Pass(MergeStep(s, left, m, r).list[c..], size).list
    ensures Pass(s[Clamp(left, |s|)..], size).count
            == MergeStep(s, left, m, r).count + Pass(MergeStep(s, left, m, r).list[c..], size).count
  {
    var u := MergeStep(s, left, m, r);
    MergeStepStartsPass(s, size, left, m, r, c);
    var p, q := Pass(s[left..], size).list, Pass(s[c..], size).list;
    PrefixAdvance(s, u.list, left, c, p, q);
  }

  /** Before the inner loop's first step, the pass has everything left to do. */
  lemma PassStarts(s: seq<int>, size: nat)
    requires size >= 1
    ensures s[..Clamp(0, |s|)] + Pass(s[Clamp(0, |s|)..], size).list == Pass(s, size).list
    ensures Pass(s[Clamp(0, |s|)..], size).count == Pass(s, size).count
  {
    assert s[Clamp(0, |s|)..] == s;
  }

  /** Once the block start is at or past the end, the pass has nothing left
      to do. */
  lemma PassEnds(s: seq<int>, size: nat, left: nat)
    requires size >= 1 && left >= |s|
    ensures s[..Clamp(left, |s|)] + Pass(s[Clamp(left, |s|)..], size).list == s
    ensures Pass(s[Clamp(left, |s|)..], size).count == 0
  {
    assert s[..Clamp(left, |s|)] == s;
  }

  /** Cut into consecutive blocks of length `w` (the last one possibly
      shorter), every block of `t` is non-increasing. */
  predicate SortedRuns(t: seq<int>, w: nat)
    requires w >= 1
    decreases |t|
  {
    |t| == 0 || (NonIncreasing(t[..Clamp(w, |t|)]) && SortedRuns(t[Clamp(w, |t|)..], w))
  }

  /** The first block of a non-empty sequence with sorted blocks is
      sorted, and so are the blocks after it. */
  lemma SortedRunsSplit(t: seq<int>, w: nat)
    requires w >= 1 && |t| > 0 && SortedRuns(t, w)
    ensures NonIncreasing(t[..Clamp(w, |t|)]) && SortedRuns(t[Clamp(w, |t|)..], w)
  {
  }

  /** Blocks of length 1 are always sorted: the state before the first pass. */
  lemma {:induction false} UnitRunsSorted(t: seq<int>)
    ensures SortedRuns(t, 1)
    decreases |t|
  {
    if |t| > 0 {
      UnitRunsSorted(t[1..]);
    }
  }

  /** k * w, by repeated addition. */
  function BlockStart(k: nat, w: nat): (p: nat)
    ensures p == k * w
  {
    if k == 0 then 0 else BlockStart(k - 1, w) + w
  }

  /** The recursive predicate says what it promises of every block:
      block k, [k*w, min((k+1)*w, n)), is non-increasing. */
  lemma SortedRunsBlock(t: seq<int>, w: nat, k: nat)
    requires w >= 1 && SortedRuns(t, w)
    requires k * w < |t|
    ensures NonIncreasing(t[k * w .. Clamp((k + 1) * w, |t|)])
  {
    SortedRunsBlockAt(t, w, k);
  }

  lemma {:induction false} SortedRunsBlockAt(t: seq<int>, w: nat, k: nat)
    requires w >= 1 && SortedRuns(t, w)
    requires BlockStart(k, w) < |t|
    ensures NonIncreasing(t[BlockStart(k, w) .. Clamp(BlockStart(k + 1, w), |t|)])
    decreases k
  {
    var lo, top := BlockStart(k, w), BlockStart(k + 1, w);
    if k > 0 {
      var u := t[w..];
      var lo', top' := BlockStart(k - 1, w), BlockStart(k, w);
      assert lo == lo' + w;
      assert top == top' + w;
      assert Clamp(w, |t|) == w;
      assert Clamp(top, |t|) == w + Clamp(top', |u|);
      SortedRunsBlockAt(u, w, k - 1);
      assert u[lo' .. Clamp(top', |u|)] == t[lo .. Clamp(top, |t|)];
    }
  }

  /** A sequence with one sorted block is sorted. */
  lemma SingleRun(t: seq<int>, w: nat)
    requires w >= 1 && |t| <= w && SortedRuns(t, w)
    ensures NonIncreasing(t)
  {
    if |t| > 0 {
      assert t[..Clamp(w, |t|)] == t;
    }
  }

  /** A non-increasing sequence is one sorted block of any length at least its own. */
  lemma OneRun(t: seq<int>, w: nat)
    requires w >= 1 && |t| <= w && NonIncreasing(t)
    ensures SortedRuns(t, w)
  {
    if |t| > 0 {
      assert t[..Clamp(w, |t|)] == t;
      assert |t[Clamp(w, |t|)..]| == 0;
    }
  }

  /** The first two blocks of length `size` of a sequence with sorted
      blocks are sorted runs, and the blocks after them are sorted. */
  lemma FirstTwoRuns(t: seq<int>, size: nat, hi: nat)
    requires size >= 1 && |t| > size && hi == Clamp(2 * size, |t|) && SortedRuns(t, size)
    ensures NonIncreasing(t[..size]) && NonIncreasing(t[size..hi]) && SortedRuns(t[hi..], size)
  {
    var u := t[size..];
    var c := Clamp(size, |u|);
    assert NonIncreasing(t[..size]) && SortedRuns(u, size) by {
      SortedRunsSplit(t, size);
      assert Clamp(size, |t|) == size;
    }
    assert c == hi - size;
    assert u[..c] == t[size..hi] && u[c..] == t[hi..];
    SortedRunsSplit(u, size);
  }

  /** A sorted first block of length w (or the whole rest) followed by
      sorted blocks of length w. */
  lemma JoinBlock(x: seq<int>, y: seq<int>, w: nat)
    requires w >= 1 && |x| > 0 && |x| == Clamp(w, |x| + |y|)
    requires NonIncreasing(x) && SortedRuns(y, w)
    ensures SortedRuns(x + y, w)
  {
    var o := x + y;
    assert o[..|x|] == x && o[|x|..] == y;
  }

  /** The invariant of the inner loop: from sorted blocks of length `size`,
      a pass makes sorted blocks of length 2*size. */
  lemma {:induction false} PassSorts(t: seq<int>, size: nat)
    requires size >= 1 && SortedRuns(t, size)
    ensures SortedRuns(Pass(t, size).list, size * 2)
    decreases |t|
  {
    if |t| <= size {
      SingleRun(t, size);
      OneRun(t, size * 2);
    } else {
      var hi := Clamp(2 * size, |t|);
      var a, b, back := t[..size], t[size..hi], t[hi..];
      PassSplits(t, size, hi);
      FirstTwoRuns(t, size, hi);
      MergeNonIncreasing(a, b);
      PassSorts(back, size);
      JoinBlock(Merge(a, b), Pass(back, size).list, size * 2);
    }
  }

  /** A pass permutes its input. */
  lemma {:induction false} PassPermutes(t: seq<int>, size: nat)
    requires size >= 1
    ensures multiset(Pass(t, size).list) == multiset(t)
    decreases |t|
  {
    if |t| > size {
      var hi := Clamp(2 * size, |t|);
      var a, b, back := t[..size], t[size..hi], t[hi..];
      var merged, rest := Merge(a, b), Pass(back, size).list;
      assert Pass(t, size).list == merged + rest;
      calc {
        multiset(merged + rest);
        multiset(merged) + multiset(rest);
        { MergePermutes(a, b); PassPermutes(back, size); }
        multiset(a) + multiset(b) + multiset(back);
        multiset(a + b + back);
        { assert t == a + b + back; }
        multiset(t);
      }
    }
  }

  /** A pass over n elements counts at most n comparisons. */
  lemma {:induction false} PassCount(t: seq<int>, size: nat)
    requires size >= 1
    ensures Pass(t, size).count <= |t|
    decreases |t|
  {
    if |t| > size {
      var hi := Clamp(2 * size, |t|);
      var a, b, back := t[..size], t[size..hi], t[hi..];
      PassCount(back, size);
      MergeComparisonsBounds(a, b);
    }
  }

  /** From sorted blocks of length `size`, the remaining passes produce a
      non-increasing permutation. */
  lemma {:induction false} BottomUpFromSorts(s: seq<int>, size: nat)
    requires size >= 1 && SortedRuns(s, size)
    ensures NonIncreasing(BottomUpFrom(s, size).list)
    ensures multiset(BottomUpFrom(s, size).list) == multiset(s)
    decreases |s| - size
  {
    if size >= |s| {
      SingleRun(s, size);
    } else {
      var pass := Pass(s, size);
      PassSorts(s, size);
      PassPermutes(s, size);
      BottomUpFromSorts(pass.list, size * 2);
    }
  }

  /** The iterative sort produces a non-increasing permutation of its input. */
  lemma BottomUpSorts(s: seq<int>)
    ensures NonIncreasing(BottomUp(s).list)
    ensures multiset(BottomUp(s).list) == multiset(s)
  {
    UnitRunsSorted(s);
    BottomUpFromSorts(s, 1);
  }

  /** A non-increasing input comes back unchanged. */
  lemma BottomUpKeepsSorted(s: seq<int>)
    requires NonIncreasing(s)
    ensures BottomUp(s).list == s
  {
    BottomUpSorts(s);
    NonIncreasingUnique(BottomUp(s).list, s);
  }

  /** With run length 2^p, the remaining passes count at most
      n * (ceil(log2 n) - p) comparisons: at most n per pass. */
  lemma {:induction false} BottomUpFromCountBound(s: seq<int>, p: nat)
    requires p <= CeilLog2(|s|)
    ensures BottomUpFrom(s, Pow2(p)).count + |s| * p <= |s| * CeilLog2(|s|)
    decreases |s| - Pow2(p)
  {
    var n := |s|;
    var k := CeilLog2(n);
    if Pow2(p) >= n {
      MulMonotone(n, p, k);
    } else {
      var pass := Pass(s, Pow2(p));
      var rest := BottomUpFrom(pass.list, Pow2(p + 1));
      assert pass.count <= n by {
        PassCount(s, Pow2(p));
      }
      assert p + 1 <= k by {
        Pow2BelowCeilLog2(p, n);
      }
      assert rest.count + n * (p + 1) <= n * k by {
        BottomUpFromCountBound(pass.list, p + 1);
      }
      assert n * (p + 1) == n * p + n;
    }
  }

  lemma MulMonotone(n: nat, x: nat, y: nat)
    requires x <= y
    ensures n * x <= n * y
  {
  }

  /** The iterative sort of n elements counts at most n * ceil(log2 n)
      comparisons. */
  lemma BottomUpCountBound(s: seq<int>)
    ensures BottomUp(s).count <= |s| * CeilLog2(|s|)
  {
    BottomUpFromCountBound(s, 0);
  }
}

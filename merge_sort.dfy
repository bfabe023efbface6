/** The sorter object: both merge-sort variants over an int array, sharing
    one merge step, with a field counting the comparisons of the last sort. */
module MergeSortEngine {
  import opened Runs
  import opened TopDownSort
  import opened Merging
  import opened BottomUpSort

  /** The largest value of a 32-bit signed Java int. */
  const IntMax: int := 0x7fff_ffff

  /** An array of length n is small enough that neither the comparison
      counter (at most n * ceil(log2 n)) nor the block indices of the
      iterative sort (below 3n) leave the range of a 32-bit int. */
  predicate NoOverflow(n: nat) {
    n * CeilLog2(n) <= IntMax && 3 * n <= IntMax
  }

  /** The range [0, n) of an array of length n is the whole array. */
  lemma WholeRange(s: seq<int>)
    ensures s[..0] + TopDown(s[0..|s|]).list + s[|s|..] == TopDown(s).list
    ensures TopDown(s[0..|s|]).count == TopDown(s).count
  {
    assert s[0..|s|] == s;
  }

  /** Both variants leave the same contents: each produces a non-increasing
      permutation of the input, and there is only one. */
  lemma SortsAgree(s: seq<int>)
    ensures TopDown(s).list == BottomUp(s).list
  {
    TopDownSorts(s);
    BottomUpSorts(s);
    NonIncreasingUnique(TopDown(s).list, BottomUp(s).list);
  }

  /** The merges that sorting [1, 2, 3] performs. */
  lemma SmallMerges()
    ensures Merge([2], [3]) == [3, 2] && MergeComparisons([2], [3]) == 1
    ensures Merge([1], [2]) == [2, 1] && MergeComparisons([1], [2]) == 1
    ensures Merge([1], [3, 2]) == [3, 2, 1] && MergeComparisons([1], [3, 2]) == 2
    ensures Merge([2, 1], [3]) == [3, 2, 1] && MergeComparisons([2, 1], [3]) == 1
  {
    assert [3][1..] == [] && [2][1..] == [] && [3, 2][1..] == [2];
  }

  /** The recursive sort of [1, 2, 3] counts 3 comparisons. */
  lemma TopDownExample()
    ensures TopDown([1, 2, 3]) == Outcome([3, 2, 1], 3)
  {
    var s := [1, 2, 3];
    SmallMerges();
    assert TopDown([2, 3]) == Outcome([3, 2], 1) by {
      assert [2, 3][..1] == [2] && [2, 3][1..] == [3];
    }
    assert s[..1] == [1] && s[1..] == [2, 3];
  }

  /** The two passes of the iterative sort over [1, 2, 3]. */
  lemma ExamplePasses()
    ensures Pass([1, 2, 3], 1) == Outcome([2, 1, 3], 1)
    ensures Pass([2, 1, 3], 2) == Outcome([3, 2, 1], 1)
  {
    var s, t := [1, 2, 3], [2, 1, 3];
    SmallMerges();
    assert s[..1] == [1] && s[1..2] == [2] && s[2..] == [3];
    assert t[..2] == [2, 1] && t[2..3] == [3] && t[3..] == [];
  }

  /** The iterative sort of [1, 2, 3] counts 2 comparisons. */
  lemma BottomUpExample()
    ensures BottomUp([1, 2, 3]) == Outcome([3, 2, 1], 2)
  {
    ExamplePasses();
    BottomUpFromStep([1, 2, 3], 1);
    BottomUpFromStep([2, 1, 3], 2);
  }

  /** The two variants need not count the same comparisons: their results
      agree on [1, 2, 3], but not their counts. */
  lemma CountsDiffer()
    ensures TopDown([1, 2, 3]).list == BottomUp([1, 2, 3]).list
    ensures TopDown([1, 2, 3]).count != BottomUp([1, 2, 3]).count
  {
    TopDownExample();
    BottomUpExample();
  }

  /** The merges that the iterative sort of [3, 2, 1] performs. */
  lemma SortedMerges()
    ensures Merge([3], [2]) == [3, 2] && MergeComparisons([3], [2]) == 1
    ensures Merge([3, 2], [1]) == [3, 2, 1] && MergeComparisons([3, 2], [1]) == 2
  {
    assert [2][1..] == [] && [1][1..] == [] && [3, 2][1..] == [2];
    assert Merge([2], [1]) == [2, 1] && MergeComparisons([2], [1]) == 1;
  }

  /** The two passes of the iterative sort over [3, 2, 1]. */
  lemma SortedPasses()
    ensures Pass([3, 2, 1], 1) == Outcome([3, 2, 1], 1)
    ensures Pass([3, 2, 1], 2) == Outcome([3, 2, 1], 2)
  {
    var s := [3, 2, 1];
    SortedMerges();
    assert s[..1] == [3] && s[1..2] == [2] && s[2..] == [1];
    assert s[..2] == [3, 2] && s[2..3] == [1] && s[3..] == [];
  }

  /** The iterative sort of the already sorted [3, 2, 1]. */
  lemma BottomUpSortedExample()
    ensures BottomUp([3, 2, 1]) == Outcome([3, 2, 1], 3)
  {
    var s := [3, 2, 1];
    SortedPasses();
    BottomUpFromStep(s, 1);
    BottomUpFromStep(s, 2);
  }

  /** An input already in the sorts' order can cost the iterative sort more
      comparisons than another arrangement of the same values: [3, 2, 1]
      counts 3, [1, 2, 3] counts 2. */
  lemma SortedInputCountsMore()
    ensures NonIncreasing([3, 2, 1]) && multiset([3, 2, 1]) == multiset([1, 2, 3])
    ensures BottomUp([3, 2, 1]).count > BottomUp([1, 2, 3]).count
  {
    assert NonIncreasing([3, 2, 1]);
    assert multiset([3, 2, 1]) == multiset([1, 2, 3]);
    BottomUpSortedExample();
    BottomUpExample();
  }

  /** The merges that sorting [3, 1, 4, 1] performs. */
  lemma ScenarioMerges()
    ensures Merge([3], [1]) == [3, 1] && MergeComparisons([3], [1]) == 1
    ensures Merge([4], [1]) == [4, 1] && MergeComparisons([4], [1]) == 1
    ensures Merge([3, 1], [4, 1]) == [4, 3, 1, 1] && MergeComparisons([3, 1], [4, 1]) == 3
  {
    assert [1][1..] == [] && [3, 1][1..] == [1] && [4, 1][1..] == [1];
    assert Merge([1], [1]) == [1, 1] && MergeComparisons([1], [1]) == 1;
    assert Merge([3, 1], [1]) == [3, 1, 1] && MergeComparisons([3, 1], [1]) == 2;
  }

  /** The recursive sort of [3, 1, 4, 1]. */
  lemma ScenarioTopDown()
    ensures TopDown([3, 1, 4, 1]) == Outcome([4, 3, 1, 1], 5)
  {
    var s := [3, 1, 4, 1];
    ScenarioMerges();
    assert TopDown([3, 1]) == Outcome([3, 1], 1) by {
      assert [3, 1][..1] == [3] && [3, 1][1..] == [1];
    }
    assert TopDown([4, 1]) == Outcome([4, 1], 1) by {
      assert [4, 1][..1] == [4] && [4, 1][1..] == [1];
    }
    assert s[..2] == [3, 1] && s[2..] == [4, 1];
  }

  /** The two passes of the iterative sort over [3, 1, 4, 1]. */
  lemma ScenarioPasses()
    ensures Pass([3, 1, 4, 1], 1) == Outcome([3, 1, 4, 1], 2)
    ensures Pass([3, 1, 4, 1], 2) == Outcome([4, 3, 1, 1], 3)
  {
    var s := [3, 1, 4, 1];
    ScenarioMerges();
    assert Pass(s, 1) == Outcome(s, 2) by {
      assert s[..1] == [3] && s[1..2] == [1] && s[2..] == [4, 1];
      assert [4, 1][..1] == [4] && [4, 1][1..2] == [1] && [4, 1][2..] == [];
    }
    assert s[..2] == [3, 1] && s[2..4] == [4, 1] && s[4..] == [];
  }

  /** The iterative sort of [3, 1, 4, 1]. */
  lemma ScenarioBottomUp()
    ensures BottomUp([3, 1, 4, 1]) == Outcome([4, 3, 1, 1], 5)
  {
    ScenarioPasses();
    BottomUpFromStep([3, 1, 4, 1], 1);
    BottomUpFromStep([3, 1, 4, 1], 2);
  }

  /** On [3, 1, 4, 1], whose length is a power of two, both variants split
      into the same runs: they leave [4, 3, 1, 1] and count 5 comparisons. */
  lemma ScenarioExample()
    ensures TopDown([3, 1, 4, 1]) == BottomUp([3, 1, 4, 1]) == Outcome([4, 3, 1, 1], 5)
  {
    ScenarioTopDown();
    ScenarioBottomUp();
  }

  /** The merge loop emitting the head of the left run, at position k of a
      window starting at l: the right run is exhausted (no comparison) or
      its head is smaller (one comparison). */
  lemma EmitLeft(s: seq<int>, out: seq<int>, l: nat, k: nat, i: nat, m: nat, j: nat, hi: nat)
    requires i < m <= j <= hi <= |s| && (j == hi || s[j] < s[i])
    requires l <= k && k - l <= |out| && out[k - l..] == MergeFrom(s, i, m, j, hi).list
    ensures k - l < |out| && out[k - l] == s[i]
    ensures out[(k + 1) - l..] == MergeFrom(s, i + 1, m, j, hi).list
    ensures MergeFrom(s, i, m, j, hi).count == (if j == hi then 0 else 1) + MergeFrom(s, i + 1, m, j, hi).count
  {
    var p := k - l;
    assert out[p..][0] == s[i];
    assert out[p + 1..] == out[p..][1..];
  }

  /** The merge loop emitting the head of the right run: the left run is
      exhausted (no comparison) or its head is not larger (one comparison). */
  lemma EmitRight(s: seq<int>, out: seq<int>, l: nat, k: nat, i: nat, m: nat, j: nat, hi: nat)
    requires i <= m <= j < hi <= |s| && (i == m || !(s[j] < s[i]))
    requires l <= k && k - l <= |out| && out[k - l..] == MergeFrom(s, i, m, j, hi).list
    ensures k - l < |out| && out[k - l] == s[j]
    ensures out[(k + 1) - l..] == MergeFrom(s, i, m, j + 1, hi).list
    ensures MergeFrom(s, i, m, j, hi).count == (if i == m then 0 else 1) + MergeFrom(s, i, m, j + 1, hi).count
  {
    var p := k - l;
    assert out[p..][0] == s[j];
    assert out[p + 1..] == out[p..][1..];
  }

  /** A sequence that agrees with `s` outside [l, hi) and with `out` inside
      it is `s` with that window replaced by `out`. */
  lemma Spliced(s: seq<int>, out: seq<int>, res: seq<int>, l: nat, hi: nat)
    requires l <= hi <= |s| == |res| && |out| == hi - l
    requires forall t :: 0 <= t < |s| ==> res[t] == if l <= t < hi then out[t - l] else s[t]
    ensures res == s[..l] + out + s[hi..]
  {
    var want := s[..l] + out + s[hi..];
    forall t | 0 <= t < |s|
      ensures res[t] == want[t]
    {
      if t < l {
        assert want[t] == s[t];
      } else if t < hi {
        assert want[t] == out[t - l];
      } else {
        assert want[t] == s[hi..][t - hi];
      }
    }
  }

  /** System.arraycopy(src, srcPos, dest, destPos, length) for two distinct
      int arrays: dest[destPos..destPos+length) takes the values of
      src[srcPos..srcPos+length); nothing else changes. */
  method ArrayCopy(src: array<int>, srcPos: nat, dest: array<int>, destPos: nat, length: nat)
    requires src != dest
    requires srcPos + length <= src.Length && destPos + length <= dest.Length
    modifies dest
    ensures dest[..] == old(dest[..destPos]) + src[srcPos..srcPos + length] + old(dest[destPos + length..])
  {
    ghost var s := dest[..];
    forall t | destPos <= t < destPos + length {
      dest[t] := src[srcPos + t - destPos];
    }
    Spliced(s, src[srcPos..srcPos + length], dest[..], destPos, destPos + length);
  }

  class MergeSort {
    /** Comparisons counted since the last sort started. */
    var count: nat

    constructor ()
      ensures count == 0
    {
      count := 0;
    }

    /** The comparisons counted by the most recent sort. */
    function GetCount(): (c: int)
      reads this
      ensures c == count
    {
      count
    }

    /** Merges the runs list[l..m) and list[m..min(r, n)) through `temp`
        and copies the result back; does nothing when m >= n. */
    method Merge(list: array<int>, temp: array<int>, l: nat, m: nat, r: nat)
      requires list != temp && list.Length <= temp.Length
      requires l <= m <= r
      modifies this`count, list, temp
      ensures list[..] == MergeStep(old(list[..]), l, m, r).list
      ensures count == old(count) + MergeStep(old(list[..]), l, m, r).count
    {
      if m >= list.Length {
        return;
      }
      var hi := if r > list.Length then list.Length else r;
      MergeLoop(list, temp, l, m, hi);
      ArrayCopy(temp, l, list, l, hi - l);
    }

    /** The loop of the merge step: writes the merge of list[l..m) and
        list[m..hi) into temp[l..hi), counting one comparison for each
        element chosen while neither run is exhausted; a tie takes the
        element of the right run. */
    method MergeLoop(list: array<int>, temp: array<int>, l: nat, m: nat, hi: nat)
      requires list != temp && l <= m <= hi <= list.Length <= temp.Length
      modifies this`count, temp
      ensures temp[l..hi] == Runs.Merge(list[l..m], list[m..hi])
      ensures count == old(count) + MergeComparisons(list[l..m], list[m..hi])
    {
      ghost var s := list[..];
      ghost var whole := MergeFrom(s, l, m, m, hi);
      ghost var rest := whole;
      ghost var counted := count;
      var i, j := l, m;
      for k := l to hi
        invariant l <= i <= m <= j <= hi && k - l == (i - l) + (j - m)
        invariant rest == MergeFrom(s, i, m, j, hi)
        invariant forall t :: l <= t < k ==> temp[t] == whole.list[t - l]
        invariant whole.list[k - l..] == rest.list
        invariant count + rest.count == counted + whole.count
      {
        if i == m {
          EmitRight(s, whole.list, l, k, i, m, j, hi);
          temp[k] := list[j];
          rest := MergeFrom(s, i, m, j + 1, hi);
          j := j + 1;
        } else if j == hi {
          EmitLeft(s, whole.list, l, k, i, m, j, hi);
          temp[k] := list[i];
          rest := MergeFrom(s, i + 1, m, j, hi);
          i := i + 1;
        } else {
          count := count + 1;
          if list[j] < list[i] {
            EmitLeft(s, whole.list, l, k, i, m, j, hi);
            temp[k] := list[i];
            rest := MergeFrom(s, i + 1, m, j, hi);
            i := i + 1;
          } else {
            EmitRight(s, whole.list, l, k, i, m, j, hi);
            temp[k] := list[j];
            rest := MergeFrom(s, i, m, j + 1, hi);
            j := j + 1;
          }
        }
      }
      assert temp[l..hi] == whole.list;
      MergeFromIsMerge(s, l, m, m, hi);
    }

    /** Sorts list[l..r) by splitting it at l + (r - l) / 2, sorting both
        halves and merging them; ranges of length at most 1 are left as
        they are. */
    method RecursiveSortRange(list: array<int>, temp: array<int>, l: nat, r: nat)
      requires list != temp && list.Length <= temp.Length
      requires l <= r <= list.Length
      modifies this`count, list, temp
      ensures list[..] == old(list[..l]) + TopDown(old(list[l..r])).list + old(list[r..])
      ensures count == old(count) + TopDown(old(list[l..r])).count
      decreases r - l
    {
      if r - l <= 1 {
        assert list[..] == list[..l] + list[l..r] + list[r..];
        return;
      }
      if l < r {
        ghost var s := list[..];
        var m := l + (r - l) / 2;
        RecursiveSortRange(list, temp, l, m);
        ghost var s1 := list[..];
        RecursiveSortRange(list, temp, m, r);
        ghost var s2 := list[..];
        Merge(list, temp, l, m, r);
        TopDownRangeStep(s, s1, s2, l, m, r);
      }
    }

    /** Sorts the whole array recursively, counting from zero. */
    method RecursiveSort(list: array<int>)
      requires NoOverflow(list.Length)
      modifies this`count, list
      ensures list[..] == TopDown(old(list[..])).list
      ensures count == TopDown(old(list[..])).count
      ensures NonIncreasing(list[..]) && multiset(list[..]) == multiset(old(list[..]))
      ensures count <= list.Length * CeilLog2(list.Length) <= IntMax
      ensures list.Length <= 1 ==> list[..] == old(list[..]) && count == 0
    {
      ghost var input := list[..];
      count := 0;
      var n := list.Length;
      var temp := new int[n];
      RecursiveSortRange(list, temp, 0, n);
      WholeRange(input);
      TopDownSorts(input);
      TopDownCountBound(input);
    }

    /** Sorts the whole array bottom-up, counting from zero: for run
        lengths 1, 2, 4, ... below n, merges each pair of adjacent runs. */
    method IterativeSort(list: array<int>)
      requires NoOverflow(list.Length)
      modifies this`count, list
      ensures list[..] == BottomUp(old(list[..])).list
      ensures count == BottomUp(old(list[..])).count
      ensures NonIncreasing(list[..]) && multiset(list[..]) == multiset(old(list[..]))
      ensures count <= list.Length * CeilLog2(list.Length) <= IntMax
      ensures list.Length <= 1 ==> list[..] == old(list[..]) && count == 0
    {
      count := 0;
      var n := list.Length;
      var temp := new int[n];
      ghost var input := list[..];
      var size := 1;
      UnitRunsSorted(input);
      while size < n
        invariant size >= 1
        invariant BottomUpFrom(list[..], size).list == BottomUp(input).list
        invariant count + BottomUpFrom(list[..], size).count == BottomUp(input).count
        invariant SortedRuns(list[..], size)
        invariant multiset(list[..]) == multiset(input)
        decreases n - size
      {
        ghost var before, counted := list[..], count;
        var left := 0;
        PassStarts(before, size);
        while left < n
          invariant list[..Clamp(left, n)] + Pass(list[Clamp(left, n)..], size).list == Pass(before, size).list
          invariant count + Pass(list[Clamp(left, n)..], size).count == counted + Pass(before, size).count
          decreases n - left
        {
          // The block indices stay below 3n, within the range of an int.
          assert left + 2 * size < 3 * n <= IntMax;
          var m, r := left + size, left + 2 * size;
          ghost var current := list[..];
          MergeStepAdvancesPass(current, size, left, m, r, Clamp(r, n));
          Merge(list, temp, left, m, r);
          left := r;
        }
        assert list[..] == Pass(before, size).list && count == counted + Pass(before, size).count by {
          PassEnds(list[..], size, left);
        }
        assert BottomUpFrom(list[..], size * 2).list == BottomUpFrom(before, size).list
               && Pass(before, size).count + BottomUpFrom(list[..], size * 2).count == BottomUpFrom(before, size).count by {
          BottomUpFromStep(before, size);
        }
        assert SortedRuns(list[..], size * 2) by {
          PassSorts(before, size);
        }
        assert multiset(list[..]) == multiset(before) by {
          PassPermutes(before, size);
        }
        size := size * 2;
      }
      BottomUpSorts(input);
      BottomUpCountBound(input);
    }
  }
}

/**
  The top-down halving that `mergeSort` and `mergeSortWithDepth` perform,
  stated on sequences, and what the root process relies on when it runs
  `mergeSortWithDepth` over the blocks gathered from the worker processes.
*/
module Halving {
  import opened Merging

  /**
    The midpoint `(l + r) / 2` of a range with `l < r`. Both halves `[l..m]`
    and `[m+1..r]` are non-empty and strictly shorter than `[l..r]`.
  */
  function Midpoint(l: int, r: int): (m: int)
    requires 0 <= l < r
    ensures l <= m < r
    ensures m - l + 1 == LeftLength(r - l + 1)
  {
    (l + r) / 2
  }

  /**
    The length of the left half `[l..m]` of a range of `n` elements. It is the
    larger half: equal to the right half, or one longer when `n` is odd.
  */
  function LeftLength(n: int): (h: int)
    requires n >= 2
    ensures 1 <= h < n
    ensures h == n - h || h == n - h + 1
  {
    (n - 1) / 2 + 1
  }

  /**
    What `mergeSort` makes of the elements `s` of its range: fewer than two
    elements stay as they are; otherwise both halves are sorted and merged.
  */
  function FullSort(s: seq<int>): (r: seq<int>)
    ensures |r| == |s|
    decreases |s|
  {
    if |s| <= 1 then s
    else
      var h := LeftLength(|s|);
      Merge(FullSort(s[..h]), FullSort(s[h..]))
  }

  /**
    What `mergeSortWithDepth` makes of the elements `s` of its range: below
    depth 2, or on fewer than two elements, nothing changes; otherwise both
    halves are processed with half the depth and then merged.
  */
  function SortWithDepth(s: seq<int>, depth: int): (r: seq<int>)
    ensures |r| == |s|
    decreases |s|
  {
    if |s| <= 1 || depth <= 1 then s
    else
      var h := LeftLength(|s|);
      Merge(SortWithDepth(s[..h], depth / 2), SortWithDepth(s[h..], depth / 2))
  }

  /** One step of `FullSort` on two or more elements: the halves are sorted and merged. */
  lemma FullSortSplits(s: seq<int>, h: int, x: seq<int>, y: seq<int>)
    requires |s| >= 2 && h == LeftLength(|s|) && s[..h] == x && s[h..] == y
    ensures FullSort(s) == Merge(FullSort(x), FullSort(y))
  {
  }

  /** One step of `SortWithDepth` at depth above 1: the halves get half the depth and are merged. */
  lemma DepthSplits(s: seq<int>, h: int, x: seq<int>, y: seq<int>, depth: int)
    requires |s| >= 2 && h == LeftLength(|s|) && s[..h] == x && s[h..] == y && depth > 1
    ensures SortWithDepth(s, depth) == Merge(SortWithDepth(x, depth / 2), SortWithDepth(y, depth / 2))
  {
  }

  /**
    The sub-ranges at which `mergeSortWithDepth` stops halving (depth below 2,
    or at most one element) are each sorted.
  */
  ghost predicate LeavesSorted(s: seq<int>, depth: int)
    decreases |s|
  {
    if |s| <= 1 || depth <= 1 then Sorted(s)
    else
      var h := LeftLength(|s|);
      LeavesSorted(s[..h], depth / 2) && LeavesSorted(s[h..], depth / 2)
  }

  lemma SplitMultiset(s: seq<int>, h: int)
    requires 0 <= h <= |s|
    ensures multiset(s) == multiset(s[..h]) + multiset(s[h..])
  {
    assert s == s[..h] + s[h..];
  }

  /** The depth-limited sort never drops or duplicates an element. */
  lemma {:induction false} SortWithDepthPermutes(s: seq<int>, depth: int)
    ensures multiset(SortWithDepth(s, depth)) == multiset(s)
    decreases |s|
  {
    if |s| > 1 && depth > 1 {
      var h := LeftLength(|s|);
      SortWithDepthPermutes(s[..h], depth / 2);
      SortWithDepthPermutes(s[h..], depth / 2);
      MergePermutes(SortWithDepth(s[..h], depth / 2), SortWithDepth(s[h..], depth / 2));
      SplitMultiset(s, h);
    }
  }

  /** When every sub-range where the halving stops is sorted, the whole result is sorted. */
  lemma {:induction false} SortWithDepthSorts(s: seq<int>, depth: int)
    requires LeavesSorted(s, depth)
    ensures Sorted(SortWithDepth(s, depth))
    decreases |s|
  {
    if |s| > 1 && depth > 1 {
      var h := LeftLength(|s|);
      var left, right := SortWithDepth(s[..h], depth / 2), SortWithDepth(s[h..], depth / 2);
      SortWithDepthSorts(s[..h], depth / 2);
      SortWithDepthSorts(s[h..], depth / 2);
      MergeSorted(left, right);
    }
  }

  /** The full sort never drops or duplicates an element. */
  lemma {:induction false} FullSortPermutes(s: seq<int>)
    ensures multiset(FullSort(s)) == multiset(s)
    decreases |s|
  {
    if |s| > 1 {
      var h := LeftLength(|s|);
      FullSortPermutes(s[..h]);
      FullSortPermutes(s[h..]);
      MergePermutes(FullSort(s[..h]), FullSort(s[h..]));
      SplitMultiset(s, h);
    }
  }

  /** The full sort yields a non-decreasing sequence. */
  lemma {:induction false} FullSortSorts(s: seq<int>)
    ensures Sorted(FullSort(s))
    decreases |s|
  {
    if |s| > 1 {
      var h := LeftLength(|s|);
      FullSortSorts(s[..h]);
      FullSortSorts(s[h..]);
      MergeSorted(FullSort(s[..h]), FullSort(s[h..]));
    }
  }

  /** A sequence that is already sorted comes out of the full sort unchanged. */
  lemma FullSortKeepsSorted(s: seq<int>)
    requires Sorted(s)
    ensures FullSort(s) == s
  {
    FullSortSorts(s);
    FullSortPermutes(s);
    SortedPermutationIsUnique(FullSort(s), s);
  }

  /**
    With enough depth the depth-limited halving never stops early: from a
    depth of at least `2 * |s| - 2` on it is the full sort.
  */
  lemma {:induction false} DeepEnoughIsFullSort(s: seq<int>, depth: int)
    requires depth >= 2 * |s| - 2
    ensures SortWithDepth(s, depth) == FullSort(s)
    decreases |s|
  {
    if |s| > 1 {
      var h := LeftLength(|s|);
      DeepEnoughIsFullSort(s[..h], depth / 2);
      DeepEnoughIsFullSort(s[h..], depth / 2);
    }
  }

  /** The number of worker processes the halving at the root matches: 1, 2, 4, 8, ... */
  ghost predicate IsPowerOfTwo(n: int)
    decreases n
  {
    n == 1 || (n >= 2 && n % 2 == 0 && IsPowerOfTwo(n / 2))
  }

  /** The blocks laid side by side, as the gather at the root places them. */
  function Concat(blocks: seq<seq<int>>): (s: seq<int>)
    decreases |blocks|
  {
    if blocks == [] then [] else blocks[0] + Concat(blocks[1..])
  }

  lemma {:induction false} ConcatAppend(xs: seq<seq<int>>, ys: seq<seq<int>>)
    ensures Concat(xs + ys) == Concat(xs) + Concat(ys)
    decreases |xs|
  {
    if xs != [] {
      assert (xs + ys)[1..] == xs[1..] + ys;
      ConcatAppend(xs[1..], ys);
    } else {
      assert xs + ys == ys;
    }
  }

  lemma {:induction false} ConcatLength(blocks: seq<seq<int>>, size: nat)
    requires forall i :: 0 <= i < |blocks| ==> |blocks[i]| == size
    ensures |Concat(blocks)| == |blocks| * size
    decreases |blocks|
  {
    if blocks != [] {
      ConcatLength(blocks[1..], size);
      assert |Concat(blocks)| == size + (|blocks| - 1) * size;
    }
  }

  /**
    With a power-of-two number of equally long blocks, the halving with that
    number as its depth stops exactly at the block boundaries; so if each block
    is sorted, every sub-range where it stops is sorted.
  */
  lemma {:induction false} BlocksAreLeaves(blocks: seq<seq<int>>, size: nat)
    requires IsPowerOfTwo(|blocks|)
    requires forall i :: 0 <= i < |blocks| ==> |blocks[i]| == size && Sorted(blocks[i])
    ensures LeavesSorted(Concat(blocks), |blocks|)
    decreases |blocks|
  {
    var p, s := |blocks|, Concat(blocks);
    ConcatLength(blocks, size);
    if p == 1 {
      assert s == blocks[0] + Concat([]);
    } else if |s| > 1 {
      var q := p / 2;
      var lower, upper := blocks[..q], blocks[q..];
      assert blocks == lower + upper;
      ConcatAppend(lower, upper);
      ConcatLength(lower, size);
      var n := q * size;
      assert |s| == 2 * n by {
        assert p * size == 2 * (q * size);
      }
      assert LeftLength(|s|) == n;
      assert s[..n] == Concat(lower) && s[n..] == Concat(upper);
      BlocksAreLeaves(lower, size);
      BlocksAreLeaves(upper, size);
    }
  }

  /**
    The root's final step: `mergeSortWithDepth` over the gathered blocks, with
    the number of processes as the depth, yields a sorted permutation of
    everything gathered, provided that number is a power of two and every
    block was sorted by its process.
  */
  lemma MergeGatheredBlocks(blocks: seq<seq<int>>, size: nat)
    requires IsPowerOfTwo(|blocks|)
    requires forall i :: 0 <= i < |blocks| ==> |blocks[i]| == size && Sorted(blocks[i])
    ensures Sorted(SortWithDepth(Concat(blocks), |blocks|))
    ensures multiset(SortWithDepth(Concat(blocks), |blocks|)) == multiset(Concat(blocks))
  {
    BlocksAreLeaves(blocks, size);
    SortWithDepthSorts(Concat(blocks), |blocks|);
    SortWithDepthPermutes(Concat(blocks), |blocks|);
  }

  /**
    With three processes the depth 3 halves once (3 / 2 == 1) at the middle of
    the array, not at the block boundaries: three sorted one-element blocks
    [2], [1], [0] come out as [0, 2, 1].
  */
  lemma ThreeBlocksStayUnsorted()
    ensures Concat([[2], [1], [0]]) == [2, 1, 0]
    ensures SortWithDepth([2, 1, 0], 3) == [0, 2, 1]
    ensures !Sorted(SortWithDepth([2, 1, 0], 3))
  {
    var s := [2, 1, 0];
    assert LeftLength(3) == 2 && s[..2] == [2, 1] && s[2..] == [0];
    assert SortWithDepth([2, 1], 1) == [2, 1];
    assert SortWithDepth([0], 1) == [0];
    assert Merge([2, 1], [0]) == [0] + Merge([2, 1], []);
    var r := SortWithDepth(s, 3);
    assert r[1] == 2 && r[2] == 1;
  }
}

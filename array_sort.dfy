/**
  The three sorting routines of the program as they run on its integer arrays:
  `merge`, `mergeSort` and `mergeSortWithDepth`. Each works in place on the
  inclusive index range `[l..r]` of `a`, using `b` as scratch space over the
  same indices. The C parameters `int *a, int *b` become two distinct arrays
  at least `r + 1` long.
*/
module ArraySort {
  import opened Merging
  import opened Halving

  /** `s` and `t` agree everywhere except possibly on the indices `l..r`. */
  ghost predicate SameOutside(s: seq<int>, t: seq<int>, l: int, r: int) {
    |s| == |t| && forall k :: 0 <= k < |s| && !(l <= k <= r) ==> s[k] == t[k]
  }

  /**
    The state of the two-pointer loop of `merge` after it has taken `p`
    elements of the left run and `q` of the right run: the scratch contents
    `cur` are the original `b0` with the first `p + q` elements of `merged`
    written from `l`, and what is left of the two runs merges into the rest
    of `merged`.
  */
  ghost predicate MergedSoFar(left: seq<int>, right: seq<int>, merged: seq<int>, b0: seq<int>,
                              l: int, p: int, q: int, cur: seq<int>) {
    0 <= l && 0 <= p <= |left| && 0 <= q <= |right| && l + |left| + |right| <= |b0|
    && |merged| == |left| + |right|
    && Merge(left[p..], right[q..]) == merged[p + q..]
    && cur == b0[..l] + merged[..p + q] + b0[l + p + q..]
  }

  /** Before the loop nothing is taken and the scratch array is as it was. */
  lemma StartMerge(left: seq<int>, right: seq<int>, b0: seq<int>, l: int)
    requires 0 <= l && l + |left| + |right| <= |b0|
    ensures MergedSoFar(left, right, Merge(left, right), b0, l, 0, 0, b0)
  {
    assert left[0..] == left && right[0..] == right;
    assert b0 == b0[..l] + [] + b0[l..];
  }

  /**
    Writing `merged[o]` at `l + o` over a scratch array that holds
    `merged[..o]` from `l` extends the written part by one element.
  */
  lemma Fill(b0: seq<int>, merged: seq<int>, l: int, o: int, i: int, cur: seq<int>)
    requires 0 <= l && 0 <= o < |merged| && i == l + o < |b0|
    requires cur == b0[..l] + merged[..o] + b0[i..]
    ensures cur[i := merged[o]] == b0[..l] + merged[..o + 1] + b0[i + 1..]
  {
    var next := b0[..l] + merged[..o + 1] + b0[i + 1..];
    assert |next| == |cur|;
    forall k | 0 <= k < |cur| ensures cur[i := merged[o]][k] == next[k] {
      if l <= k < i + 1 {
        assert next[k] == merged[..o + 1][k - l];
      }
    }
  }

  /**
    Taking the left head `left[p]` when the right run is exhausted or its
    head is not smaller: it is the next element of the merge, and writing it
    at `i` keeps the loop state.
  */
  lemma TakeLeft(left: seq<int>, right: seq<int>, merged: seq<int>, b0: seq<int>,
                 l: int, p: int, q: int, cur: seq<int>, i: int, v: int)
    requires MergedSoFar(left, right, merged, b0, l, p, q, cur)
    requires p < |left| && (q == |right| || left[p] <= right[q]) && i == l + p + q && v == left[p]
    ensures MergedSoFar(left, right, merged, b0, l, p + 1, q, cur[i := v])
  {
    assert left[p..][1..] == left[p + 1..];
    assert merged[p + q..][1..] == merged[p + q + 1..];
    Fill(b0, merged, l, p + q, i, cur);
  }

  /** Taking the right head `right[q]` when the left run is exhausted or its head is larger. */
  lemma TakeRight(left: seq<int>, right: seq<int>, merged: seq<int>, b0: seq<int>,
                  l: int, p: int, q: int, cur: seq<int>, i: int, v: int)
    requires MergedSoFar(left, right, merged, b0, l, p, q, cur)
    requires q < |right| && (p == |left| || right[q] < left[p]) && i == l + p + q && v == right[q]
    ensures MergedSoFar(left, right, merged, b0, l, p, q + 1, cur[i := v])
  {
    assert right[q..][1..] == right[q + 1..];
    assert merged[p + q..][1..] == merged[p + q + 1..];
    Fill(b0, merged, l, p + q, i, cur);
  }

  /** With both runs taken completely, the scratch range holds the whole merge. */
  lemma FinishMerge(left: seq<int>, right: seq<int>, merged: seq<int>, b0: seq<int>, l: int, r: int, cur: seq<int>)
    requires MergedSoFar(left, right, merged, b0, l, |left|, |right|, cur) && l + |left| + |right| == r + 1
    ensures cur == b0[..l] + merged + b0[r + 1..]
  {
    assert merged[..|left| + |right|] == merged;
  }

  /**
    One pass of the two-pointer loop of `merge`: the smaller head (the left
    one on a tie) is written to `b[i]` and its index advances.
  */
  method MergeStep(a: array<int>, b: array<int>, l: int, m: int, r: int, h: int, j: int, i: int,
                   ghost left: seq<int>, ghost right: seq<int>, ghost merged: seq<int>, ghost b0: seq<int>,
                   ghost p: int, ghost q: int)
      returns (h': int, j': int, ghost p': int, ghost q': int)
    requires a != b
    requires 0 <= l <= h <= m < j <= r < a.Length && r < b.Length && i == h + j - m - 1
    requires left == a[l..m + 1] && right == a[m + 1..r + 1]
    requires p == h - l && q == j - m - 1 && MergedSoFar(left, right, merged, b0, l, p, q, b[..])
    modifies b
    ensures a[..] == old(a[..])
    ensures (h', j') == (if a[h] <= a[j] then (h + 1, j) else (h, j + 1))
    ensures p' == h' - l && q' == j' - m - 1 && MergedSoFar(left, right, merged, b0, l, p', q', b[..])
  {
    assert a[h] == left[p] && a[j] == right[q];
    if a[h] <= a[j] {
      TakeLeft(left, right, merged, b0, l, p, q, b[..], i, a[h]);
      b[i] := a[h];
      h', j', p', q' := h + 1, j, p + 1, q;
    } else {
      TakeRight(left, right, merged, b0, l, p, q, b[..], i, a[j]);
      b[i] := a[j];
      h', j', p', q' := h, j + 1, p, q + 1;
    }
  }

  /**
    One pass of either tail loop of `merge`: one run is exhausted, and the
    next element `a[k]` of the other is written to `b[i]`.
  */
  method TailStep(a: array<int>, b: array<int>, l: int, m: int, r: int, k: int, i: int,
                  ghost left: seq<int>, ghost right: seq<int>, ghost merged: seq<int>, ghost b0: seq<int>,
                  ghost p: int, ghost q: int)
      returns (ghost p': int, ghost q': int)
    requires a != b
    requires 0 <= l <= m + 1 <= r + 1 <= a.Length && r < b.Length
    requires left == a[l..m + 1] && right == a[m + 1..r + 1]
    requires MergedSoFar(left, right, merged, b0, l, p, q, b[..]) && i == l + p + q
    requires (p == |left| && q < |right| && k == m + 1 + q) || (q == |right| && p < |left| && k == l + p)
    modifies b
    ensures a[..] == old(a[..])
    ensures (p', q') == (if p == |left| then (p, q + 1) else (p + 1, q))
    ensures MergedSoFar(left, right, merged, b0, l, p', q', b[..])
  {
    if m < k {
      assert a[k] == right[q];
      TakeRight(left, right, merged, b0, l, p, q, b[..], i, a[k]);
      b[i] := a[k];
      p', q' := p, q + 1;
    } else {
      assert a[k] == left[p];
      TakeLeft(left, right, merged, b0, l, p, q, b[..], i, a[k]);
      b[i] := a[k];
      p', q' := p + 1, q;
    }
  }

  /**
    The merging phase of `merge`: the two-pointer loop over the adjacent runs
    `a[l..m]` and `a[m+1..r]`, then the copy of whichever run has elements
    left. The output index runs from `l` up to exactly `r + 1`, so it fills
    `b[l..r]` with the merge and writes nothing else.
  */
  method MergeIntoScratch(a: array<int>, b: array<int>, l: int, m: int, r: int)
    requires a != b
    requires 0 <= l <= m + 1 <= r + 1 <= a.Length && r < b.Length
    modifies b
    ensures b[..] == old(b[..l]) + Merge(old(a[l..m + 1]), old(a[m + 1..r + 1])) + old(b[r + 1..])
  {
    ghost var A, b0 := a[..], b[..];
    ghost var left, right := A[l..m + 1], A[m + 1..r + 1];
    ghost var merged := Merge(left, right);
    var h, i, j := l, l, m + 1;
    ghost var p, q := 0, 0;
    StartMerge(left, right, b0, l);
    while h <= m && j <= r
      invariant l <= h <= m + 1 && m + 1 <= j <= r + 1 && i == h + j - m - 1
      invariant a[..] == A
      invariant p == h - l && q == j - m - 1 && MergedSoFar(left, right, merged, b0, l, p, q, b[..])
    {
      h, j, p, q := MergeStep(a, b, l, m, r, h, j, i, left, right, merged, b0, p, q);
      i := i + 1;
    }

    if m < h {
      for k := j to r + 1
        invariant i == h + k - m - 1
        invariant a[..] == A
        invariant p == |left| && q == k - m - 1 && MergedSoFar(left, right, merged, b0, l, p, q, b[..])
      {
        p, q := TailStep(a, b, l, m, r, k, i, left, right, merged, b0, p, q);
        i := i + 1;
      }
    } else {
      for k := h to m + 1
        invariant i == k + j - m - 1
        invariant a[..] == A
        invariant q == |right| && p == k - l && MergedSoFar(left, right, merged, b0, l, p, q, b[..])
      {
        p, q := TailStep(a, b, l, m, r, k, i, left, right, merged, b0, p, q);
        i := i + 1;
      }
    }
    FinishMerge(left, right, merged, b0, l, r, b[..]);
  }

  /**
    The last loop of `merge`: copies the scratch range `b[l..r]` back into
    `a[l..r]` and writes nothing else.
  */
  method CopyBack(a: array<int>, b: array<int>, l: int, r: int)
    requires a != b
    requires 0 <= l <= r + 1 <= a.Length && r < b.Length
    modifies a
    ensures a[..] == old(a[..l]) + b[l..r + 1] + old(a[r + 1..])
  {
    ghost var run, a0 := b[l..r + 1], a[..];
    ghost var o := 0;
    assert a0 == a0[..l] + run[..0] + a0[l..];
    for k := l to r + 1
      invariant o == k - l
      invariant a[..] == a0[..l] + run[..o] + a0[k..]
    {
      assert b[k] == run[o];
      Fill(a0, run, l, o, k, a[..]);
      a[k] := b[k];
      o := o + 1;
    }
    assert run[..o] == run;
  }

  /** A range placed over `s0` from `l` on can be read back, and nothing else changed. */
  lemma Placed(s0: seq<int>, x: seq<int>, l: int, r: int, s: seq<int>)
    requires 0 <= l <= r + 1 <= |s0| && |x| == r + 1 - l
    requires s == s0[..l] + x + s0[r + 1..]
    ensures s[l..r + 1] == x && SameOutside(s, s0, l, r)
  {
  }

  /** A sequence is its range `[l..r]` put back in place. */
  lemma InPlace(s: seq<int>, l: int, r: int)
    requires 0 <= l <= r + 1 <= |s|
    ensures s == s[..l] + s[l..r + 1] + s[r + 1..]
  {
  }

  /**
    `merge`: merges the adjacent runs `a[l..m]` and `a[m+1..r]` (both
    inclusive) into `b[l..r]`, then copies `b[l..r]` back into `a[l..r]`.
    Both arrays end up holding the merge over `[l..r]` and are untouched
    elsewhere.
  */
  method MergeRuns(a: array<int>, b: array<int>, l: int, m: int, r: int)
    requires a != b
    requires 0 <= l <= m + 1 <= r + 1 <= a.Length && r < b.Length
    modifies a, b
    ensures a[..] == old(a[..l]) + Merge(old(a[l..m + 1]), old(a[m + 1..r + 1])) + old(a[r + 1..])
    ensures b[..] == old(b[..l]) + Merge(old(a[l..m + 1]), old(a[m + 1..r + 1])) + old(b[r + 1..])
  {
    ghost var merged := Merge(a[l..m + 1], a[m + 1..r + 1]);
    ghost var b0 := b[..];
    MergeIntoScratch(a, b, l, m, r);
    Placed(b0, merged, l, r, b[..]);
    CopyBack(a, b, l, r);
  }

  /**
    Sorting the two halves one after the other, on snapshots: `s0`/`t0` of
    `a`/`b` before, `s1`/`t1` after the left half `[l..m]` became `x`,
    `s2`/`t2` after the right half `[m+1..r]` became `y`. The right half is
    untouched by the left call, and nothing outside `[l..r]` changes.
  */
  lemma Halves(s0: seq<int>, s1: seq<int>, s2: seq<int>, t0: seq<int>, t1: seq<int>, t2: seq<int>,
               x: seq<int>, y: seq<int>, l: int, m: int, r: int)
    requires 0 <= l <= m < r < |s0| && |x| == m + 1 - l && |y| == r - m
    requires s1 == s0[..l] + x + s0[m + 1..] && SameOutside(t1, t0, l, m)
    requires s2 == s1[..m + 1] + y + s1[r + 1..] && SameOutside(t2, t1, m + 1, r)
    ensures s1[m + 1..r + 1] == s0[m + 1..r + 1]
    ensures s2 == s0[..l] + x + y + s0[r + 1..] && SameOutside(t2, t0, l, r)
  {
  }

  /**
    Merging two halves `x` and `y` that were placed side by side over `s0`
    places their merge there, on `a` and on `b` alike.
  */
  lemma MergeHalves(s0: seq<int>, s2: seq<int>, s3: seq<int>, t0: seq<int>, t2: seq<int>, t3: seq<int>,
                    x: seq<int>, y: seq<int>, l: int, m: int, r: int)
    requires 0 <= l <= m < r < |s0| && r < |t0| && |x| == m + 1 - l && |y| == r - m
    requires s2 == s0[..l] + x + y + s0[r + 1..] && SameOutside(t2, t0, l, r)
    requires s3 == s2[..l] + Merge(s2[l..m + 1], s2[m + 1..r + 1]) + s2[r + 1..]
    requires t3 == t2[..l] + Merge(s2[l..m + 1], s2[m + 1..r + 1]) + t2[r + 1..]
    ensures s3 == s0[..l] + Merge(x, y) + s0[r + 1..] && SameOutside(t3, t0, l, r)
  {
    SideBySide(s0, s2, x, y, l, m, r);
    Placed(t2, Merge(x, y), l, r, t3);
  }

  /** The pieces of a sequence made of `x` and `y` placed side by side over `s0` from `l`. */
  lemma SideBySide(s0: seq<int>, s2: seq<int>, x: seq<int>, y: seq<int>, l: int, m: int, r: int)
    requires 0 <= l <= m < r < |s0| && |x| == m + 1 - l && |y| == r - m
    requires s2 == s0[..l] + x + y + s0[r + 1..]
    ensures s2[l..m + 1] == x && s2[m + 1..r + 1] == y
    ensures s2[..l] == s0[..l] && s2[r + 1..] == s0[r + 1..]
  {
  }

  /** The halves of the range `[l..r]` of `s`, split after `m`. */
  lemma RangeHalves(s: seq<int>, l: int, m: int, r: int)
    requires 0 <= l <= m < r < |s|
    ensures |s[l..r + 1]| == r - l + 1
    ensures s[l..r + 1][..m + 1 - l] == s[l..m + 1] && s[l..r + 1][m + 1 - l..] == s[m + 1..r + 1]
  {
  }

  /** The full sort of the range `[l..r]` merges the full sorts of its halves at the midpoint. */
  lemma FullSortRange(s: seq<int>, l: int, m: int, r: int)
    requires 0 <= l < r < |s| && m == Midpoint(l, r)
    ensures FullSort(s[l..r + 1]) == Merge(FullSort(s[l..m + 1]), FullSort(s[m + 1..r + 1]))
  {
    RangeHalves(s, l, m, r);
    FullSortSplits(s[l..r + 1], m + 1 - l, s[l..m + 1], s[m + 1..r + 1]);
  }

  /** The same split for the depth-limited halving, with half the depth on each side. */
  lemma DepthRange(s: seq<int>, l: int, m: int, r: int, depth: int)
    requires 0 <= l < r < |s| && m == Midpoint(l, r) && depth > 1
    ensures SortWithDepth(s[l..r + 1], depth)
         == Merge(SortWithDepth(s[l..m + 1], depth / 2), SortWithDepth(s[m + 1..r + 1], depth / 2))
  {
    RangeHalves(s, l, m, r);
    DepthSplits(s[l..r + 1], m + 1 - l, s[l..m + 1], s[m + 1..r + 1], depth);
  }

  /**
    `mergeSort`: sorts `a[l..r]` (inclusive) in place by recursive halving at
    `(l + r) / 2` and merging; the range becomes its `FullSort`, and the rest
    of `a` and everything of `b` outside the range stay as they were. When it
    merges (`l < r`), the last merge leaves the same contents in `b[l..r]`;
    otherwise `b` is not touched.
  */
  method MergeSort(a: array<int>, b: array<int>, l: int, r: int)
    requires a != b
    requires 0 <= l <= r + 1 <= a.Length && r < b.Length
    modifies a, b
    ensures a[..] == old(a[..l]) + FullSort(old(a[l..r + 1])) + old(a[r + 1..])
    ensures SameOutside(b[..], old(b[..]), l, r)
    ensures l < r ==> b[l..r + 1] == a[l..r + 1]
    ensures r <= l ==> b[..] == old(b[..])
    decreases r - l, 1
  {
    if l < r {
      var m := Midpoint(l, r);
      ghost var s0, t0 := a[..], b[..];
      SortHalves(a, b, l, m, r);
      ghost var s2, t2 := a[..], b[..];
      MergeRuns(a, b, l, m, r);
      MergeHalves(s0, s2, a[..], t0, t2, b[..], FullSort(s0[l..m + 1]), FullSort(s0[m + 1..r + 1]), l, m, r);
      FullSortRange(s0, l, m, r);
      assert a[l..r + 1] == Merge(s2[l..m + 1], s2[m + 1..r + 1]) == b[l..r + 1];
    } else {
      InPlace(a[..], l, r);
    }
  }

  /** The two recursive calls of `mergeSort`, on `[l..m]` and then on `[m+1..r]`. */
  method SortHalves(a: array<int>, b: array<int>, l: int, m: int, r: int)
    requires a != b
    requires 0 <= l <= m < r < a.Length && r < b.Length
    modifies a, b
    ensures a[..] == old(a[..l]) + FullSort(old(a[l..m + 1])) + FullSort(old(a[m + 1..r + 1])) + old(a[r + 1..])
    ensures SameOutside(b[..], old(b[..]), l, r)
    decreases r - l, 0
  {
    ghost var s0, t0 := a[..], b[..];
    MergeSort(a, b, l, m);
    ghost var s1, t1 := a[..], b[..];
    MergeSort(a, b, m + 1, r);
    Halves(s0, s1, a[..], t0, t1, b[..], FullSort(s0[l..m + 1]), FullSort(s1[m + 1..r + 1]), l, m, r);
  }

  /**
    `mergeSortWithDepth`: the same recursion as `mergeSort`, but it halves
    only while `depth > 1`, passing `depth / 2` down; where it stops, the
    sub-range is left as it is. The range becomes its `SortWithDepth`, and
    `b` ends as for `MergeSort`, with `l < r && depth > 1` deciding whether
    it merged.
  */
  method MergeSortWithDepth(a: array<int>, b: array<int>, l: int, r: int, depth: int)
    requires a != b
    requires 0 <= l <= r + 1 <= a.Length && r < b.Length
    modifies a, b
    ensures a[..] == old(a[..l]) + SortWithDepth(old(a[l..r + 1]), depth) + old(a[r + 1..])
    ensures SameOutside(b[..], old(b[..]), l, r)
    ensures l < r && depth > 1 ==> b[l..r + 1] == a[l..r + 1]
    ensures !(l < r && depth > 1) ==> b[..] == old(b[..])
    decreases r - l, 1
  {
    if l < r && depth > 1 {
      var m := Midpoint(l, r);
      ghost var s0, t0 := a[..], b[..];
      SortHalvesWithDepth(a, b, l, m, r, depth / 2);
      ghost var s2, t2 := a[..], b[..];
      MergeRuns(a, b, l, m, r);
      MergeHalves(s0, s2, a[..], t0, t2, b[..], SortWithDepth(s0[l..m + 1], depth / 2), SortWithDepth(s0[m + 1..r + 1], depth / 2), l, m, r);
      DepthRange(s0, l, m, r, depth);
      assert a[l..r + 1] == Merge(s2[l..m + 1], s2[m + 1..r + 1]) == b[l..r + 1];
    } else {
      InPlace(a[..], l, r);
    }
  }

  /** The two recursive calls of `mergeSortWithDepth`, each with the halved depth `d`. */
  method SortHalvesWithDepth(a: array<int>, b: array<int>, l: int, m: int, r: int, d: int)
    requires a != b
    requires 0 <= l <= m < r < a.Length && r < b.Length
    modifies a, b
    ensures a[..] == old(a[..l]) + SortWithDepth(old(a[l..m + 1]), d) + SortWithDepth(old(a[m + 1..r + 1]), d) + old(a[r + 1..])
    ensures SameOutside(b[..], old(b[..]), l, r)
    decreases r - l, 0
  {
    ghost var s0, t0 := a[..], b[..];
    MergeSortWithDepth(a, b, l, m, d);
    ghost var s1, t1 := a[..], b[..];
    MergeSortWithDepth(a, b, m + 1, r, d);
    Halves(s0, s1, a[..], t0, t1, b[..], SortWithDepth(s0[l..m + 1], d), SortWithDepth(s1[m + 1..r + 1], d), l, m, r);
  }

  /** The range `[l..r]` is its two runs `[l..m]` and `[m+1..r]` side by side. */
  lemma JoinHalves(s: seq<int>, l: int, m: int, r: int)
    requires 0 <= l <= m + 1 <= r + 1 <= |s|
    ensures s[l..r + 1] == s[l..m + 1] + s[m + 1..r + 1]
  {
  }

  /**
    What a state left by `merge` means: `[l..r]` holds the elements it held
    before, sorted when both runs were sorted, and nothing outside it changed.
  */
  lemma MergeOutcome(s0: seq<int>, s: seq<int>, l: int, m: int, r: int)
    requires 0 <= l <= m + 1 <= r + 1 <= |s0|
    requires s == s0[..l] + Merge(s0[l..m + 1], s0[m + 1..r + 1]) + s0[r + 1..]
    ensures |s| == |s0| && SameOutside(s, s0, l, r)
    ensures multiset(s[l..r + 1]) == multiset(s0[l..r + 1])
    ensures Sorted(s0[l..m + 1]) && Sorted(s0[m + 1..r + 1]) ==> Sorted(s[l..r + 1])
  {
    var x, y := s0[l..m + 1], s0[m + 1..r + 1];
    Placed(s0, Merge(x, y), l, r, s);
    MergePermutes(x, y);
    JoinHalves(s0, l, m, r);
    if Sorted(x) && Sorted(y) {
      MergeSorted(x, y);
    }
  }

  /**
    What a state left by `mergeSort` means: `[l..r]` is sorted and holds the
    elements it held before, nothing outside it changed, and a range of at
    most one element was left as it was.
  */
  lemma MergeSortOutcome(s0: seq<int>, s: seq<int>, l: int, r: int)
    requires 0 <= l <= r + 1 <= |s0|
    requires s == s0[..l] + FullSort(s0[l..r + 1]) + s0[r + 1..]
    ensures |s| == |s0| && SameOutside(s, s0, l, r)
    ensures Sorted(s[l..r + 1]) && multiset(s[l..r + 1]) == multiset(s0[l..r + 1])
    ensures r <= l ==> s == s0
  {
    var x := s0[l..r + 1];
    Placed(s0, FullSort(x), l, r, s);
    FullSortSorts(x);
    FullSortPermutes(x);
    if r <= l {
      assert s0 == s0[..l] + x + s0[r + 1..];
    }
  }

  /**
    What a state left by `mergeSortWithDepth` means: `[l..r]` holds the
    elements it held before, it is sorted when every sub-range where the
    halving stops was sorted, nothing outside it changed, and with at most one
    element or a depth below 2 nothing changed at all.
  */
  lemma MergeSortWithDepthOutcome(s0: seq<int>, s: seq<int>, l: int, r: int, depth: int)
    requires 0 <= l <= r + 1 <= |s0|
    requires s == s0[..l] + SortWithDepth(s0[l..r + 1], depth) + s0[r + 1..]
    ensures |s| == |s0| && SameOutside(s, s0, l, r)
    ensures multiset(s[l..r + 1]) == multiset(s0[l..r + 1])
    ensures LeavesSorted(s0[l..r + 1], depth) ==> Sorted(s[l..r + 1])
    ensures r <= l || depth <= 1 ==> s == s0
  {
    var x := s0[l..r + 1];
    Placed(s0, SortWithDepth(x, depth), l, r, s);
    SortWithDepthPermutes(x, depth);
    if LeavesSorted(x, depth) {
      SortWithDepthSorts(x, depth);
    }
    if r <= l || depth <= 1 {
      assert s0 == s0[..l] + x + s0[r + 1..];
    }
  }
}

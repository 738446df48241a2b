/**
  The merge of two adjacent runs that the array routines perform, stated on
  sequences. `Merge` follows the two-pointer rule of `merge`: while both runs
  have elements, the head of the left run is taken when it is at most the head
  of the right run (so ties go left); once one run is empty the rest of the
  other is appended unchanged.
*/
module Merging {

  /** `s` is non-decreasing. */
  ghost predicate Sorted(s: seq<int>) {
    forall i, j :: 0 <= i < j < |s| ==> s[i] <= s[j]
  }

  function Merge(xs: seq<int>, ys: seq<int>): (r: seq<int>)
    ensures |r| == |xs| + |ys|
    decreases |xs| + |ys|
  {
    if |xs| == 0 then ys
    else if |ys| == 0 then xs
    else if xs[0] <= ys[0] then [xs[0]] + Merge(xs[1..], ys)
    else [ys[0]] + Merge(xs, ys[1..])
  }

  /** The merge holds exactly the elements of both runs: nothing is dropped or duplicated. */
  lemma {:induction false} MergePermutes(xs: seq<int>, ys: seq<int>)
    ensures multiset(Merge(xs, ys)) == multiset(xs) + multiset(ys)
    decreases |xs| + |ys|
  {
    if xs != [] && ys != [] {
      if xs[0] <= ys[0] {
        MergePermutes(xs[1..], ys);
        assert Merge(xs, ys) == [xs[0]] + Merge(xs[1..], ys);
        assert xs == [xs[0]] + xs[1..];
        assert multiset(xs) == multiset{xs[0]} + multiset(xs[1..]);
      } else {
        MergePermutes(xs, ys[1..]);
        assert Merge(xs, ys) == [ys[0]] + Merge(xs, ys[1..]);
        assert ys == [ys[0]] + ys[1..];
        assert multiset(ys) == multiset{ys[0]} + multiset(ys[1..]);
      }
    }
  }

  /** The head of a sorted run is at most each of its elements. */
  lemma SortedHeadIsLeast(s: seq<int>, x: int)
    requires Sorted(s) && x in multiset(s)
    ensures s[0] <= x
  {
    var p :| 0 <= p < |s| && s[p] == x;
  }

  /** Every element of the merge of `xs` and `ys` is at least any common lower bound `z` of both. */
  lemma MergeBounded(xs: seq<int>, ys: seq<int>, z: int)
    requires forall k :: 0 <= k < |xs| ==> z <= xs[k]
    requires forall k :: 0 <= k < |ys| ==> z <= ys[k]
    ensures forall k :: 0 <= k < |Merge(xs, ys)| ==> z <= Merge(xs, ys)[k]
  {
    var r := Merge(xs, ys);
    MergePermutes(xs, ys);
    forall k | 0 <= k < |r| ensures z <= r[k] {
      assert r[k] in multiset(r);
      if r[k] in multiset(xs) {
        var p :| 0 <= p < |xs| && xs[p] == r[k];
      } else {
        var p :| 0 <= p < |ys| && ys[p] == r[k];
      }
    }
  }

  /** Prepending a lower bound of a sorted sequence keeps it sorted. */
  lemma ConsSorted(x: int, rest: seq<int>)
    requires Sorted(rest)
    requires forall k :: 0 <= k < |rest| ==> x <= rest[k]
    ensures Sorted([x] + rest)
  {
    var s := [x] + rest;
    forall i, j | 0 <= i < j < |s| ensures s[i] <= s[j] {
      assert s[j] == rest[j - 1];
      if i > 0 {
        assert s[i] == rest[i - 1];
      }
    }
  }

  /** Taking the left head `xs[0]` in front of a sorted merge of the rest keeps the merge sorted. */
  lemma TakeLeftSorted(xs: seq<int>, ys: seq<int>)
    requires Sorted(xs) && Sorted(ys) && |xs| > 0 && |ys| > 0 && xs[0] <= ys[0]
    requires Sorted(Merge(xs[1..], ys))
    ensures Sorted(Merge(xs, ys))
  {
    forall k | 0 <= k < |xs[1..]| ensures xs[0] <= xs[1..][k] {
      assert xs[1..][k] == xs[k + 1];
    }
    forall k | 0 <= k < |ys| ensures xs[0] <= ys[k] {
      assert ys[0] <= ys[k];
    }
    MergeBounded(xs[1..], ys, xs[0]);
    ConsSorted(xs[0], Merge(xs[1..], ys));
    assert Merge(xs, ys) == [xs[0]] + Merge(xs[1..], ys);
  }

  /** Taking the smaller right head `ys[0]` in front of a sorted merge of the rest keeps it sorted. */
  lemma TakeRightSorted(xs: seq<int>, ys: seq<int>)
    requires Sorted(xs) && Sorted(ys) && |xs| > 0 && |ys| > 0 && ys[0] < xs[0]
    requires Sorted(Merge(xs, ys[1..]))
    ensures Sorted(Merge(xs, ys))
  {
    forall k | 0 <= k < |ys[1..]| ensures ys[0] <= ys[1..][k] {
      assert ys[1..][k] == ys[k + 1];
    }
    forall k | 0 <= k < |xs| ensures ys[0] <= xs[k] {
      assert xs[0] <= xs[k];
    }
    MergeBounded(xs, ys[1..], ys[0]);
    ConsSorted(ys[0], Merge(xs, ys[1..]));
    assert Merge(xs, ys) == [ys[0]] + Merge(xs, ys[1..]);
  }

  /** Merging two sorted runs gives a sorted result. */
  lemma {:induction false} MergeSorted(xs: seq<int>, ys: seq<int>)
    requires Sorted(xs) && Sorted(ys)
    ensures Sorted(Merge(xs, ys))
    decreases |xs| + |ys|
  {
    if |xs| > 0 && |ys| > 0 {
      if xs[0] <= ys[0] {
        MergeSorted(xs[1..], ys);
        TakeLeftSorted(xs, ys);
      } else {
        MergeSorted(xs, ys[1..]);
        TakeRightSorted(xs, ys);
      }
    }
  }

  /** Two sorted sequences with the same elements are equal. */
  lemma {:induction false} SortedPermutationIsUnique(s: seq<int>, t: seq<int>)
    requires Sorted(s) && Sorted(t) && multiset(s) == multiset(t)
    ensures s == t
    decreases |s|
  {
    if s != [] && t != [] {
      SameHeads(s, t);
      var s', t' := s[1..], t[1..];
      assert s == [s[0]] + s' && t == [t[0]] + t';
      assert multiset(s') == multiset(t') by {
        assert multiset(s) == multiset{s[0]} + multiset(s');
        assert multiset(t) == multiset{t[0]} + multiset(t');
        assert multiset(s') == multiset(s) - multiset{s[0]};
        assert multiset(t') == multiset(t) - multiset{t[0]};
      }
      SortedPermutationIsUnique(s', t');
    } else {
      assert |multiset(s)| == |s| && |multiset(t)| == |t|;
    }
  }

  /** Two non-empty sorted sequences with the same elements start with the same least element. */
  lemma SameHeads(s: seq<int>, t: seq<int>)
    requires Sorted(s) && Sorted(t) && multiset(s) == multiset(t) && s != [] && t != []
    ensures s[0] == t[0]
  {
    assert s[0] in multiset(t) && t[0] in multiset(s);
    SortedHeadIsLeast(t, s[0]);
    SortedHeadIsLeast(s, t[0]);
  }

  /**
    An integer labelled with where it came from. Plain integers that are equal
    cannot be told apart, so stability is stated on labelled elements: the
    merge is stable when equal values keep the order of their labels.
  */
  datatype Tagged = Tagged(value: int, origin: int)

  /**
    The two-pointer merge carrying the labels along: it compares values only,
    with the same rule as `Merge` (`MergeForgetsTags` proves the two agree).
  */
  function MergeTagged(xs: seq<Tagged>, ys: seq<Tagged>): (r: seq<Tagged>)
    decreases |xs| + |ys|
  {
    if |xs| == 0 then ys
    else if |ys| == 0 then xs
    else if xs[0].value <= ys[0].value then [xs[0]] + MergeTagged(xs[1..], ys)
    else [ys[0]] + MergeTagged(xs, ys[1..])
  }

  /** The values of `s`, labels dropped. */
  function Values(s: seq<Tagged>): (v: seq<int>) {
    seq(|s|, k requires 0 <= k < |s| => s[k].value)
  }

  /** Labels `s` with the positions `base`, `base + 1`, ... */
  function Tag(s: seq<int>, base: int): (t: seq<Tagged>) {
    seq(|s|, k requires 0 <= k < |s| => Tagged(s[k], base + k))
  }

  /** Dropping the labels of the labelled merge gives exactly the integer merge. */
  lemma {:induction false} MergeForgetsTags(xs: seq<Tagged>, ys: seq<Tagged>)
    ensures Values(MergeTagged(xs, ys)) == Merge(Values(xs), Values(ys))
    decreases |xs| + |ys|
  {
    if xs != [] && ys != [] {
      assert Values(xs)[1..] == Values(xs[1..]);
      assert Values(ys)[1..] == Values(ys[1..]);
      if xs[0].value <= ys[0].value {
        MergeForgetsTags(xs[1..], ys);
      } else {
        MergeForgetsTags(xs, ys[1..]);
      }
    }
  }

  lemma {:induction false} MergeTaggedPermutes(xs: seq<Tagged>, ys: seq<Tagged>)
    ensures multiset(MergeTagged(xs, ys)) == multiset(xs) + multiset(ys)
    decreases |xs| + |ys|
  {
    if |xs| > 0 && |ys| > 0 {
      if xs[0].value <= ys[0].value {
        MergeTaggedPermutes(xs[1..], ys);
        assert MergeTagged(xs, ys) == [xs[0]] + MergeTagged(xs[1..], ys);
        assert xs == [xs[0]] + xs[1..];
        assert multiset(xs) == multiset{xs[0]} + multiset(xs[1..]);
      } else {
        MergeTaggedPermutes(xs, ys[1..]);
        assert MergeTagged(xs, ys) == [ys[0]] + MergeTagged(xs, ys[1..]);
        assert ys == [ys[0]] + ys[1..];
        assert multiset(ys) == multiset{ys[0]} + multiset(ys[1..]);
      }
    }
  }

  /** `t` comes before `u` in value order, ties broken by origin. */
  ghost predicate Precedes(t: Tagged, u: Tagged) {
    t.value < u.value || (t.value == u.value && t.origin < u.origin)
  }

  ghost predicate StablyOrdered(s: seq<Tagged>) {
    forall i, j :: 0 <= i < j < |s| ==> Precedes(s[i], s[j])
  }

  lemma StablyOrderedHead(s: seq<Tagged>, x: Tagged)
    requires StablyOrdered(s) && s != [] && x in multiset(s) && x != s[0]
    ensures Precedes(s[0], x)
  {
    var p :| 0 <= p < |s| && s[p] == x;
  }

  lemma ConsStablyOrdered(x: Tagged, rest: seq<Tagged>)
    requires StablyOrdered(rest)
    requires forall y :: y in multiset(rest) ==> Precedes(x, y)
    ensures StablyOrdered([x] + rest)
  {
    var s := [x] + rest;
    forall i, j | 0 <= i < j < |s| ensures Precedes(s[i], s[j]) {
      if i == 0 {
        assert s[j] == rest[j - 1] && s[j] in multiset(rest);
      } else {
        assert s[i] == rest[i - 1] && s[j] == rest[j - 1];
      }
    }
  }

  /** The left head, when it is taken, precedes everything still to be merged. */
  lemma LeftHeadPrecedesRest(xs: seq<Tagged>, ys: seq<Tagged>)
    requires StablyOrdered(xs) && StablyOrdered(ys) && xs != [] && ys != []
    requires forall x, y :: x in xs && y in ys ==> x.origin < y.origin
    requires xs[0].value <= ys[0].value
    ensures forall y :: y in multiset(xs[1..]) + multiset(ys) ==> Precedes(xs[0], y)
  {
    forall y | y in multiset(xs[1..]) + multiset(ys) ensures Precedes(xs[0], y) {
      if y in multiset(xs[1..]) {
        var p :| 0 <= p < |xs[1..]| && xs[1..][p] == y;
        assert xs[p + 1] == y;
      } else if y != ys[0] {
        StablyOrderedHead(ys, y);
      }
    }
  }

  /** The right head is taken only when strictly smaller, so it precedes everything left. */
  lemma RightHeadPrecedesRest(xs: seq<Tagged>, ys: seq<Tagged>)
    requires StablyOrdered(xs) && StablyOrdered(ys) && xs != [] && ys != []
    requires ys[0].value < xs[0].value
    ensures forall y :: y in multiset(xs) + multiset(ys[1..]) ==> Precedes(ys[0], y)
  {
    forall y | y in multiset(xs) + multiset(ys[1..]) ensures Precedes(ys[0], y) {
      if y in multiset(ys[1..]) {
        var p :| 0 <= p < |ys[1..]| && ys[1..][p] == y;
        assert ys[p + 1] == y;
      } else if y != xs[0] {
        StablyOrderedHead(xs, y);
      }
    }
  }

  /**
    Stability: if each run is ordered by value and then by origin, and every
    origin in the left run is below every origin in the right run, the merge is
    ordered by value and then by origin, so equal values leave the left run first.
  */
  lemma {:induction false} MergeIsStable(xs: seq<Tagged>, ys: seq<Tagged>)
    requires StablyOrdered(xs) && StablyOrdered(ys)
    requires forall x, y :: x in xs && y in ys ==> x.origin < y.origin
    ensures StablyOrdered(MergeTagged(xs, ys))
    decreases |xs| + |ys|
  {
    if xs != [] && ys != [] {
      if xs[0].value <= ys[0].value {
        assert forall x :: x in xs[1..] ==> x in xs;
        MergeIsStable(xs[1..], ys);
        MergeTaggedPermutes(xs[1..], ys);
        LeftHeadPrecedesRest(xs, ys);
        ConsStablyOrdered(xs[0], MergeTagged(xs[1..], ys));
      } else {
        assert forall y :: y in ys[1..] ==> y in ys;
        MergeIsStable(xs, ys[1..]);
        MergeTaggedPermutes(xs, ys[1..]);
        RightHeadPrecedesRest(xs, ys);
        ConsStablyOrdered(ys[0], MergeTagged(xs, ys[1..]));
      }
    }
  }

  /**
    The merge of two sorted adjacent runs is stable: label every element with
    its position in the range, left run first; the labelled merge orders equal
    values by position, and without the labels it is exactly `Merge`.
  */
  lemma MergeOfRunsIsStable(left: seq<int>, right: seq<int>)
    requires Sorted(left) && Sorted(right)
    ensures var tagged := MergeTagged(Tag(left, 0), Tag(right, |left|));
      StablyOrdered(tagged) && Values(tagged) == Merge(left, right)
  {
    var tl, tr := Tag(left, 0), Tag(right, |left|);
    assert Values(tl) == left && Values(tr) == right;
    TaggedRunsOrdered(left, right);
    MergeIsStable(tl, tr);
    MergeForgetsTags(tl, tr);
  }

  /** A sorted sequence labelled with increasing positions is ordered by value, then by label. */
  lemma TagSorted(s: seq<int>, base: int)
    requires Sorted(s)
    ensures StablyOrdered(Tag(s, base))
  {
    var t := Tag(s, base);
    forall i, j | 0 <= i < j < |t| ensures Precedes(t[i], t[j]) {
      assert t[i] == Tagged(s[i], base + i) && t[j] == Tagged(s[j], base + j);
      assert s[i] <= s[j];
    }
  }

  /** Labelled with positions, each sorted run is ordered stably, and the left labels come first. */
  lemma TaggedRunsOrdered(left: seq<int>, right: seq<int>)
    requires Sorted(left) && Sorted(right)
    ensures StablyOrdered(Tag(left, 0)) && StablyOrdered(Tag(right, |left|))
    ensures forall x, y :: x in Tag(left, 0) && y in Tag(right, |left|) ==> x.origin < y.origin
  {
    var tl, tr := Tag(left, 0), Tag(right, |left|);
    TagSorted(left, 0);
    TagSorted(right, |left|);
    forall x, y | x in tl && y in tr ensures x.origin < y.origin {
      var p :| 0 <= p < |tl| && tl[p] == x;
      var q :| 0 <= q < |tr| && tr[q] == y;
      assert x.origin == p < |left| <= |left| + q == y.origin;
    }
  }
}

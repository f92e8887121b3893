/**
  Top-down merge sort over the inclusive index range `[L, R]` of an array,
  as used to put the retained largest values in ascending order.  The array
  is modelled as a sequence that each step replaces with its updated copy;
  `Merge` copies both halves out and writes them back one slot at a time,
  taking from the right half on ties.
 */
module Sorting {

  predicate Sorted(s: seq<int>) {
    forall i, j :: 0 <= i < j < |s| ==> s[i] <= s[j]
  }

  /** Appending a value no smaller than the last keeps a sequence sorted. */
  lemma SortedAppend(s: seq<int>, x: int)
    requires Sorted(s) && (|s| > 0 ==> s[|s| - 1] <= x)
    ensures Sorted(s + [x])
  {
  }

  /**
    The state of the merge loop after taking `i1` values from the left copy
    and `i2` from the right copy: the values written so far, `out`, are
    exactly those, in ascending order, and the last is no larger than either
    next candidate.
   */
  ghost predicate Merging(out: seq<int>, left: seq<int>, right: seq<int>, i1: nat, i2: nat)
  {
    && i1 <= |left| && i2 <= |right| && |out| == i1 + i2
    && Sorted(out)
    && multiset(out) == multiset(left[..i1]) + multiset(right[..i2])
    && (|out| > 0 && i1 < |left| ==> out[|out| - 1] <= left[i1])
    && (|out| > 0 && i2 < |right| ==> out[|out| - 1] <= right[i2])
  }

  lemma TakeNext(s: seq<int>, i: nat)
    requires i < |s|
    ensures multiset(s[..i + 1]) == multiset(s[..i]) + multiset{s[i]}
  {
    assert s[..i + 1] == s[..i] + [s[i]];
  }

  /** Taking the next left value, when it is no larger than the next right one, keeps the merge state. */
  lemma TakeLeft(out: seq<int>, left: seq<int>, right: seq<int>, i1: nat, i2: nat)
    requires Merging(out, left, right, i1, i2)
    requires i1 < |left| && (i2 < |right| ==> left[i1] <= right[i2])
    requires i1 + 1 < |left| ==> left[i1] <= left[i1 + 1]
    ensures Merging(out + [left[i1]], left, right, i1 + 1, i2)
  {
    SortedAppend(out, left[i1]);
    TakeNext(left, i1);
  }

  /** Taking the next right value, when it is no larger than the next left one, keeps the merge state. */
  lemma TakeRight(out: seq<int>, left: seq<int>, right: seq<int>, i1: nat, i2: nat)
    requires Merging(out, left, right, i1, i2)
    requires i2 < |right| && (i1 < |left| ==> right[i2] <= left[i1])
    requires i2 + 1 < |right| ==> right[i2] <= right[i2 + 1]
    ensures Merging(out + [right[i2]], left, right, i1, i2 + 1)
  {
    SortedAppend(out, right[i2]);
    TakeNext(right, i2);
  }

  /** One of `merge`'s drain loops: copy the values `src[i..]` not yet taken after `out`. */
  method AppendRest(out: seq<int>, src: seq<int>, i: nat) returns (r: seq<int>)
    requires i <= |src|
    ensures r == out + src[i..]
  {
    var k := i;
    r := out;
    while k < |src|
      invariant i <= k <= |src|
      invariant r == out + src[i..k]
    {
      assert src[i..k + 1] == src[i..k] + [src[k]];
      r := r + [src[k]];
      k := k + 1;
    }
  }

  /** A sorted sequence followed by a sorted one whose first value is no smaller than its last is sorted. */
  lemma SortedConcat(s: seq<int>, t: seq<int>)
    requires Sorted(s) && Sorted(t)
    requires |s| > 0 && |t| > 0 ==> s[|s| - 1] <= t[0]
    ensures Sorted(s + t)
  {
    var u := s + t;
    forall i, j | 0 <= i < j < |u|
      ensures u[i] <= u[j]
    {
      if i < |s| && j >= |s| {
        assert s[i] <= s[|s| - 1];
        assert t[0] <= t[j - |s|];
      }
    }
  }

  /** When one copy is used up, draining both finishes the merge. */
  lemma MergingFinish(out: seq<int>, left: seq<int>, right: seq<int>, i1: nat, i2: nat)
    requires Merging(out, left, right, i1, i2) && Sorted(left) && Sorted(right)
    requires i1 == |left| || i2 == |right|
    ensures Sorted(out + left[i1..] + right[i2..])
    ensures multiset(out + left[i1..] + right[i2..]) == multiset(left) + multiset(right)
  {
    if i1 == |left| {
      LeftUsedUp(out, left, right, i2);
    } else {
      RightUsedUp(out, left, right, i1);
    }
  }

  lemma LeftUsedUp(out: seq<int>, left: seq<int>, right: seq<int>, i2: nat)
    requires Merging(out, left, right, |left|, i2) && Sorted(right)
    ensures Sorted(out + left[|left|..] + right[i2..])
    ensures multiset(out + left[|left|..] + right[i2..]) == multiset(left) + multiset(right)
  {
    assert left[..|left|] == left;
    DrainRest(out, left, right, i2);
    assert out + left[|left|..] + right[i2..] == out + right[i2..];
  }

  lemma RightUsedUp(out: seq<int>, left: seq<int>, right: seq<int>, i1: nat)
    requires Merging(out, left, right, i1, |right|) && Sorted(left)
    ensures Sorted(out + left[i1..] + right[|right|..])
    ensures multiset(out + left[i1..] + right[|right|..]) == multiset(left) + multiset(right)
  {
    assert right[..|right|] == right;
    DrainRest(out, right, left, i1);
    assert out + left[i1..] + right[|right|..] == out + left[i1..];
  }

  /** Draining the copy `rest` after everything of `done` was taken finishes the merge. */
  lemma DrainRest(out: seq<int>, done: seq<int>, rest: seq<int>, i: nat)
    requires i <= |rest| && Sorted(rest)
    requires Sorted(out) && multiset(out) == multiset(done) + multiset(rest[..i])
    requires |out| > 0 && i < |rest| ==> out[|out| - 1] <= rest[i]
    ensures Sorted(out + rest[i..])
    ensures multiset(out + rest[i..]) == multiset(done) + multiset(rest)
  {
    assert rest == rest[..i] + rest[i..];
    SortedConcat(out, rest[i..]);
  }

  /**
    The merge loops of `merge`: fill the output from the two sorted copies,
    taking the left value only when it is strictly smaller (so ties take
    the right value first), then drain whichever copy has values left.
   */
  method MergeCopies(left: seq<int>, right: seq<int>) returns (out: seq<int>)
    requires Sorted(left) && Sorted(right)
    ensures |out| == |left| + |right|
    ensures Sorted(out)
    ensures multiset(out) == multiset(left) + multiset(right)
  {
    var n1, n2 := |left|, |right|;
    var i1: nat, i2: nat := 0, 0;
    out := [];
    while i1 < n1 && i2 < n2
      invariant Merging(out, left, right, i1, i2)
      decreases n1 + n2 - i1 - i2
    {
      if left[i1] < right[i2] {
        TakeLeft(out, left, right, i1, i2);
        out := out + [left[i1]];
        i1 := i1 + 1;
      } else {
        TakeRight(out, left, right, i1, i2);
        out := out + [right[i2]];
        i2 := i2 + 1;
      }
    }
    MergingFinish(out, left, right, i1, i2);
    ghost var merged := out + left[i1..] + right[i2..];
    out := AppendRest(out, left, i1);
    out := AppendRest(out, right, i2);
    assert out == merged;
  }

  /**
    Merges the sorted runs `a[L..M]` and `a[M+1..R]` (inclusive bounds) into
    one sorted run in `a[L..R]`; slots outside the range are untouched.  Both
    runs are copied out first and the merged values written back over `[L, R]`.
   */
  method Merge(a: seq<int>, L: nat, M: nat, R: nat) returns (r: seq<int>)
    requires L <= M < R < |a|
    requires Sorted(a[L..M + 1]) && Sorted(a[M + 1..R + 1])
    ensures |r| == |a|
    ensures r[..L] == a[..L] && r[R + 1..] == a[R + 1..]
    ensures Sorted(r[L..R + 1])
    ensures multiset(r[L..R + 1]) == multiset(a[L..R + 1])
  {
    var left := a[L..M + 1];
    var right := a[M + 1..R + 1];
    var out := MergeCopies(left, right);
    assert a[L..R + 1] == left + right;
    r := a[..L] + out + a[R + 1..];
    assert r[L..R + 1] == out;
  }

  /**
    Sorts `a[L..R]` (inclusive bounds) ascending: sort both halves, split at
    `M = L + (R - L) / 2`, then merge them.  An empty or one-slot range is
    left as it is.
   */
  method MergeSort(a: seq<int>, L: nat, R: int) returns (r: seq<int>)
    requires L <= R + 1 <= |a|
    ensures |r| == |a|
    ensures r[..L] == a[..L] && r[R + 1..] == a[R + 1..]
    ensures Sorted(r[L..R + 1])
    ensures multiset(r[L..R + 1]) == multiset(a[L..R + 1])
    decreases R - L
  {
    r := a;
    if L < R {
      var M := L + (R - L) / 2;
      var r1 := MergeSort(a, L, M);
      var r2 := MergeSort(r1, M + 1, R);
      // The second call leaves the sorted left half alone.
      assert r2[L..M + 1] == r1[L..M + 1] by {
        assert r2[..M + 1] == r1[..M + 1];
      }
      r := Merge(r2, L, M, R);
      assert a[L..R + 1] == a[L..M + 1] + a[M + 1..R + 1];
      assert r1[L..R + 1] == r1[L..M + 1] + r1[M + 1..R + 1];
      assert r1[M + 1..R + 1] == a[M + 1..R + 1] by {
        assert r1[M + 1..] == a[M + 1..];
      }
      assert r2[L..R + 1] == r2[L..M + 1] + r2[M + 1..R + 1];
      assert r[..L] == a[..L] by {
        assert r2[..L] == r1[..L];
      }
      assert r[R + 1..] == a[R + 1..] by {
        assert r1[R + 1..] == a[R + 1..];
      }
    }
  }

  /** The first value of a non-empty sorted sequence is its smallest. */
  lemma SortedHeadIsMin(a: seq<int>, x: int)
    requires Sorted(a) && x in multiset(a)
    ensures a[0] <= x
  {
    var i :| 0 <= i < |a| && a[i] == x;
  }

  /** Removing the first value from the sequence removes it from the multiset. */
  lemma DropHead(a: seq<int>)
    requires |a| > 0
    ensures multiset(a[1..]) == multiset(a) - multiset{a[0]}
  {
    assert a == [a[0]] + a[1..];
  }

  /** Two sorted sequences with the same values start with the same value. */
  lemma HeadsAgree(a: seq<int>, b: seq<int>)
    requires Sorted(a) && Sorted(b) && multiset(a) == multiset(b) && |a| > 0 && |b| > 0
    ensures a[0] == b[0]
  {
    assert a[0] in multiset(a) && b[0] in multiset(b);
    SortedHeadIsMin(a, b[0]);
    SortedHeadIsMin(b, a[0]);
  }

  /** Sorting has one answer: two sorted sequences with the same values are equal. */
  lemma {:induction false} SortedUnique(a: seq<int>, b: seq<int>)
    requires Sorted(a) && Sorted(b) && multiset(a) == multiset(b)
    ensures a == b
    decreases |a|
  {
    assert |a| == |multiset(a)| == |multiset(b)| == |b|;
    if |a| > 0 {
      HeadsAgree(a, b);
      DropHead(a);
      DropHead(b);
      SortedUnique(a[1..], b[1..]);
      assert a == [a[0]] + a[1..];
      assert b == [b[0]] + b[1..];
    }
  }
}

/**
  The array min-heap behind the top-K selector: `heapify` (sift-down) and
  `create_min_heap` (bottom-up construction), modelled as pure functions on
  the array contents.  The children of slot `p` are `2p + 1` and `2p + 2`;
  only the first `n` slots belong to the heap.
 */
module MinHeap {

  /** `k` lies in the subtree rooted at `i`: following parent links from `k` reaches `i`. */
  ghost predicate InSubtree(i: nat, k: nat)
    decreases k
  {
    k == i || (i < k && InSubtree(i, (k - 1) / 2))
  }

  /** Slot `k` is no larger than each of its children inside the first `n` slots. */
  ghost predicate HeapAt(a: seq<int>, n: nat, k: nat)
    requires n <= |a|
  {
    && (2 * k + 1 < n ==> a[k] <= a[2 * k + 1])
    && (2 * k + 2 < n ==> a[k] <= a[2 * k + 2])
  }

  /** The subtree rooted at `i` is a min-heap. */
  ghost predicate SubHeap(a: seq<int>, n: nat, i: nat)
    requires n <= |a|
  {
    forall k: nat :: InSubtree(i, k) && k < n ==> HeapAt(a, n, k)
  }

  /** The first `n` slots form a min-heap. */
  ghost predicate IsHeap(a: seq<int>, n: nat)
    requires n <= |a|
  {
    forall k: nat :: k < n ==> HeapAt(a, n, k)
  }

  // ---------------------------------------------------------------------------
  // Shape of the implicit tree

  lemma SubtreeChildren(i: nat, k: nat)
    requires InSubtree(i, k)
    ensures i <= k && InSubtree(i, 2 * k + 1) && InSubtree(i, 2 * k + 2)
  {
    assert (2 * k + 1 - 1) / 2 == k && (2 * k + 2 - 1) / 2 == k;
  }

  lemma {:induction false} SubtreeTrans(i: nat, j: nat, k: nat)
    requires InSubtree(i, j) && InSubtree(j, k)
    ensures InSubtree(i, k)
    decreases k
  {
    if k != j {
      SubtreeTrans(i, j, (k - 1) / 2);
    }
  }

  /** Two roots whose subtrees share a slot lie on one path: the lower-numbered one is the ancestor. */
  lemma {:induction false} SubtreeNested(i: nat, j: nat, k: nat)
    requires InSubtree(i, k) && InSubtree(j, k) && i <= j
    ensures InSubtree(i, j)
    decreases k
  {
    if k != j {
      SubtreeNested(i, j, (k - 1) / 2);
    }
  }

  /** Below its root, a subtree is the union of its two children's subtrees. */
  lemma {:induction false} SubtreeSplit(i: nat, k: nat)
    requires InSubtree(i, k) && k != i
    ensures InSubtree(2 * i + 1, k) || InSubtree(2 * i + 2, k)
    decreases k
  {
    var p := (k - 1) / 2;
    if p != i {
      SubtreeSplit(i, p);
      if InSubtree(2 * i + 1, p) {
        SubtreeChildren(2 * i + 1, p);
      } else {
        SubtreeChildren(2 * i + 2, p);
      }
      assert k == 2 * p + 1 || k == 2 * p + 2;
    }
  }

  /** The two children's subtrees are disjoint. */
  lemma SiblingsDisjoint(i: nat, k: nat)
    ensures !(InSubtree(2 * i + 1, k) && InSubtree(2 * i + 2, k))
  {
    assert !InSubtree(2 * i + 1, 2 * i + 2) by {
      assert !InSubtree(2 * i + 1, i);
    }
    if InSubtree(2 * i + 1, k) && InSubtree(2 * i + 2, k) {
      SubtreeNested(2 * i + 1, 2 * i + 2, k);
    }
  }

  lemma {:induction false} SubtreeOfRoot(k: nat)
    ensures InSubtree(0, k)
    decreases k
  {
    if k != 0 {
      SubtreeOfRoot((k - 1) / 2);
    }
  }

  /** The root of a heap-ordered subtree is its minimum. */
  lemma {:induction false} RootIsMin(a: seq<int>, n: nat, i: nat, k: nat)
    requires n <= |a| && SubHeap(a, n, i)
    requires InSubtree(i, k) && k < n
    ensures a[i] <= a[k]
    decreases k
  {
    if k != i {
      var p := (k - 1) / 2;
      RootIsMin(a, n, i, p);
      assert HeapAt(a, n, p);
      assert k == 2 * p + 1 || k == 2 * p + 2;
    }
  }

  lemma SubHeapNested(a: seq<int>, n: nat, i: nat, j: nat)
    requires n <= |a| && SubHeap(a, n, i) && InSubtree(i, j)
    ensures SubHeap(a, n, j)
  {
    forall k: nat | InSubtree(j, k) && k < n
      ensures HeapAt(a, n, k)
    {
      SubtreeTrans(i, j, k);
    }
  }

  /** A heap of `n` slots is exactly a heap-ordered tree under the root. */
  lemma HeapIsRootSubHeap(a: seq<int>, n: nat)
    requires n <= |a|
    ensures IsHeap(a, n) <==> SubHeap(a, n, 0)
  {
    forall k: nat {
      SubtreeOfRoot(k);
    }
  }

  // ---------------------------------------------------------------------------
  // heapify

  function Swap(a: seq<int>, i: nat, j: nat): (b: seq<int>)
    requires i < |a| && j < |a|
    ensures |b| == |a| && b[i] == a[j] && b[j] == a[i]
    ensures forall k :: 0 <= k < |a| && k != i && k != j ==> b[k] == a[k]
    ensures multiset(b) == multiset(a)
  {
    a[i := a[j]][j := a[i]]
  }

  /**
    The slot `heapify` moves `i`'s value towards: the left child if it is
    strictly smaller than slot `i`, then the right child if it is strictly
    smaller than that; otherwise `i` itself.
   */
  function Smallest(a: seq<int>, n: nat, i: nat): (s: nat)
    requires n <= |a|
    ensures s == i || s == 2 * i + 1 || s == 2 * i + 2
    ensures s != i ==> s < n && a[s] < a[i]
    ensures 2 * i + 1 < n ==> a[s] <= a[2 * i + 1]
    ensures 2 * i + 2 < n ==> a[s] <= a[2 * i + 2]
  {
    var l, r := 2 * i + 1, 2 * i + 2;
    var s := if l < n && a[l] < a[i] then l else i;
    if r < n && a[r] < a[s] then r else s
  }

  /**
    Sift-down from slot `i` within the first `n` slots: swap with the
    smallest child while one is strictly smaller.
   */
  function Heapify(a: seq<int>, n: nat, i: nat): (r: seq<int>)
    requires n <= |a|
    ensures |r| == |a|
    ensures multiset(r) == multiset(a)
    decreases n - i
  {
    var s := Smallest(a, n, i);
    if s == i then a else Heapify(Swap(a, i, s), n, s)
  }

  /** `heapify` changes nothing outside the part of `i`'s subtree that lies in the heap. */
  lemma {:induction false} HeapifyFrame(a: seq<int>, n: nat, i: nat)
    requires n <= |a|
    ensures forall k :: 0 <= k < |a| && !(InSubtree(i, k) && k < n) ==> Heapify(a, n, i)[k] == a[k]
    decreases n - i
  {
    var s := Smallest(a, n, i);
    if s != i {
      var b := Swap(a, i, s);
      HeapifyFrame(b, n, s);
      forall k | 0 <= k < |a| && !(InSubtree(i, k) && k < n)
        ensures Heapify(a, n, i)[k] == a[k]
      {
        if InSubtree(s, k) && k < n {
          SubtreeTrans(i, s, k);
        }
      }
    }
  }

  /** A lower bound on every slot of `i`'s subtree survives `heapify`. */
  lemma {:induction false} HeapifyBound(a: seq<int>, n: nat, i: nat, lo: int)
    requires n <= |a|
    requires forall k: nat :: InSubtree(i, k) && k < n ==> lo <= a[k]
    ensures forall k: nat :: InSubtree(i, k) && k < n ==> lo <= Heapify(a, n, i)[k]
    decreases n - i
  {
    var s := Smallest(a, n, i);
    if s != i {
      var b := Swap(a, i, s);
      assert InSubtree(i, s) && InSubtree(i, i);
      forall k: nat | InSubtree(s, k) && k < n
        ensures lo <= b[k]
      {
        SubtreeTrans(i, s, k);
      }
      HeapifyBound(b, n, s, lo);
      HeapifyFrame(b, n, s);
    }
  }

  /** A node no larger than its children, over two heap-ordered child subtrees, heads a heap. */
  lemma JoinSubHeaps(a: seq<int>, n: nat, i: nat)
    requires n <= |a|
    requires HeapAt(a, n, i) && SubHeap(a, n, 2 * i + 1) && SubHeap(a, n, 2 * i + 2)
    ensures SubHeap(a, n, i)
  {
    forall k: nat | InSubtree(i, k) && k < n
      ensures HeapAt(a, n, k)
    {
      if k != i {
        SubtreeSplit(i, k);
      }
    }
  }

  /** A subtree on whose in-heap slots two arrays agree is a heap in one exactly when in the other. */
  lemma SubHeapAgree(a: seq<int>, b: seq<int>, n: nat, o: nat)
    requires n <= |a| && n <= |b|
    requires forall k: nat :: InSubtree(o, k) && k < n ==> a[k] == b[k]
    requires SubHeap(a, n, o)
    ensures SubHeap(b, n, o)
  {
    forall k: nat | InSubtree(o, k) && k < n
      ensures HeapAt(b, n, k)
    {
      SubtreeChildren(o, k);
      assert HeapAt(a, n, k);
    }
  }

  /** Swapping `i` with its child `s` leaves the subtrees below `s` as they were. */
  lemma SwapKeepsGrandchildren(a: seq<int>, n: nat, i: nat, s: nat)
    requires n <= |a| && (s == 2 * i + 1 || s == 2 * i + 2) && s < n
    requires SubHeap(a, n, s)
    ensures SubHeap(Swap(a, i, s), n, 2 * s + 1) && SubHeap(Swap(a, i, s), n, 2 * s + 2)
  {
    var b := Swap(a, i, s);
    forall c: nat | c == 2 * s + 1 || c == 2 * s + 2
      ensures SubHeap(b, n, c)
    {
      assert InSubtree(s, c);
      SubHeapNested(a, n, s, c);
      forall k: nat | InSubtree(c, k) && k < n
        ensures a[k] == b[k]
      {
        SubtreeChildren(c, k);
      }
      SubHeapAgree(a, b, n, c);
    }
  }

  /** After the swap, every slot of `s`'s subtree is at least `a[s]`, the value moved up to `i`. */
  lemma SwapBound(a: seq<int>, n: nat, i: nat, s: nat)
    requires n <= |a| && (s == 2 * i + 1 || s == 2 * i + 2) && s < n
    requires SubHeap(a, n, s) && a[s] < a[i]
    ensures forall k: nat :: InSubtree(s, k) && k < n ==> a[s] <= Swap(a, i, s)[k]
  {
    forall k: nat | InSubtree(s, k) && k < n
      ensures a[s] <= Swap(a, i, s)[k]
    {
      if k != s {
        RootIsMin(a, n, s, k);
        SubtreeChildren(s, k);
      }
    }
  }

  /** If both children's subtrees are heaps, `heapify(i)` makes `i`'s subtree a heap. */
  lemma {:induction false} HeapifyRestores(a: seq<int>, n: nat, i: nat)
    requires n <= |a|
    requires SubHeap(a, n, 2 * i + 1) && SubHeap(a, n, 2 * i + 2)
    ensures SubHeap(Heapify(a, n, i), n, i)
    decreases n - i
  {
    var s := Smallest(a, n, i);
    if s == i {
      JoinSubHeaps(a, n, i);
    } else {
      var o := if s == 2 * i + 1 then 2 * i + 2 else 2 * i + 1;
      var b := Swap(a, i, s);
      SwapKeepsGrandchildren(a, n, i, s);
      HeapifyRestores(b, n, s);
      SwapBound(a, n, i, s);
      HeapifyBound(b, n, s, a[s]);
      HeapifyFrame(b, n, s);
      var r := Heapify(b, n, s);
      assert !InSubtree(s, i) by {
        if InSubtree(s, i) { SubtreeChildren(s, i); }
      }
      assert r[i] == a[s];
      assert InSubtree(s, s);
      // The other child's subtree is disjoint from `s`'s, so nothing there moved.
      forall k: nat | InSubtree(o, k) && k < n
        ensures a[k] == r[k]
      {
        SiblingsDisjoint(i, k);
        SubtreeChildren(o, k);
      }
      SubHeapAgree(a, r, n, o);
      if o < n {
        assert InSubtree(o, o);
      }
      assert HeapAt(r, n, i);
      JoinSubHeaps(r, n, i);
    }
  }

  // ---------------------------------------------------------------------------
  // create_min_heap

  /** Calls `heapify` on slots `k - 1`, `k - 2`, ..., `0`, in that order. */
  function BuildHeapFrom(a: seq<int>, n: nat, k: nat): (r: seq<int>)
    requires n <= |a|
    ensures |r| == |a|
    ensures multiset(r) == multiset(a)
    decreases k
  {
    if k == 0 then a else BuildHeapFrom(Heapify(a, n, k - 1), n, k - 1)
  }

  /** Slots at or past `n / 2` have no child inside the heap, so their subtrees are heaps. */
  lemma LeavesAreHeaps(a: seq<int>, n: nat)
    requires n <= |a|
    ensures forall j: nat :: n / 2 <= j ==> SubHeap(a, n, j)
  {
    forall j: nat, k: nat | n / 2 <= j && InSubtree(j, k) && k < n
      ensures HeapAt(a, n, k)
    {
      SubtreeChildren(j, k);
    }
  }

  /** Sifting down at `i` leaves a later subtree disjoint from `i`'s a heap, since it touches none of its slots. */
  lemma DisjointSubHeapKept(a: seq<int>, n: nat, i: nat, j: nat)
    requires n <= |a| && i < j && !InSubtree(i, j) && SubHeap(a, n, j)
    ensures SubHeap(Heapify(a, n, i), n, j)
  {
    var b := Heapify(a, n, i);
    HeapifyFrame(a, n, i);
    forall m: nat | InSubtree(j, m) && m < n
      ensures HeapAt(b, n, m)
    {
      SubtreeChildren(j, m);
      if InSubtree(i, m) { SubtreeNested(i, j, m); }
      if InSubtree(i, 2 * m + 1) { SubtreeNested(i, j, 2 * m + 1); }
      if InSubtree(i, 2 * m + 2) { SubtreeNested(i, j, 2 * m + 2); }
      assert HeapAt(a, n, m);
    }
  }

  lemma {:induction false} BuildHeapFromHeap(a: seq<int>, n: nat, k: nat)
    requires n <= |a|
    requires forall j: nat :: k <= j ==> SubHeap(a, n, j)
    ensures forall j: nat :: SubHeap(BuildHeapFrom(a, n, k), n, j)
    decreases k
  {
    if k > 0 {
      var i := k - 1;
      var b := Heapify(a, n, i);
      HeapifyRestores(a, n, i);
      HeapifyFrame(a, n, i);
      forall j: nat | i <= j
        ensures SubHeap(b, n, j)
      {
        if j == i {
        } else if InSubtree(i, j) {
          SubHeapNested(b, n, i, j);
        } else {
          DisjointSubHeapKept(a, n, i, j);
        }
      }
      BuildHeapFromHeap(b, n, i);
    }
  }

  /**
    Bottom-up heap construction, scanning from slot `n / 2` down to the
    root.  Slot `n / 2` is already a leaf, so its call does nothing.
   */
  function BuildHeap(a: seq<int>, n: nat): (r: seq<int>)
    requires n <= |a|
    ensures |r| == |a|
    ensures multiset(r) == multiset(a)
    ensures IsHeap(r, n)
  {
    LeavesAreHeaps(a, n);
    BuildHeapFromHeap(a, n, n / 2 + 1);
    var r := BuildHeapFrom(a, n, n / 2 + 1);
    HeapIsRootSubHeap(r, n);
    r
  }

  /** Starting the scan at `n / 2` instead of `n / 2 - 1` only adds a call that changes nothing. */
  lemma ScanStartIsLeaf(a: seq<int>, n: nat)
    requires n <= |a|
    ensures Heapify(a, n, n / 2) == a
    ensures BuildHeap(a, n) == BuildHeapFrom(a, n, n / 2)
  {
  }

  // ---------------------------------------------------------------------------
  // Replacing the root

  /**
    Overwriting the root of a heap and sifting it down gives a heap again,
    holding the old values with the root's value traded for the new one.
   */
  lemma ReplaceRoot(a: seq<int>, n: nat, v: int)
    requires 0 < n <= |a| && IsHeap(a, n)
    ensures IsHeap(Heapify(a[0 := v], n, 0), n)
    ensures multiset(Heapify(a[0 := v], n, 0)) == multiset(a) - multiset{a[0]} + multiset{v}
  {
    var b := a[0 := v];
    HeapIsRootSubHeap(a, n);
    forall c: nat | c == 1 || c == 2
      ensures SubHeap(b, n, c)
    {
      SubtreeChildren(0, 0);
      SubHeapNested(a, n, 0, c);
      forall k: nat | InSubtree(c, k) && k < n
        ensures a[k] == b[k]
      {
        SubtreeChildren(c, k);
      }
      SubHeapAgree(a, b, n, c);
    }
    HeapifyRestores(b, n, 0);
    HeapIsRootSubHeap(Heapify(b, n, 0), n);
  }

  /** The root of a heap is no larger than any slot of the heap. */
  lemma HeapRootIsMin(a: seq<int>, n: nat, k: nat)
    requires n <= |a| && IsHeap(a, n) && k < n
    ensures a[0] <= a[k]
  {
    HeapIsRootSubHeap(a, n);
    SubtreeOfRoot(k);
    RootIsMin(a, n, 0, k);
  }
}

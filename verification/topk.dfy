/**
  The top-K selector: keeps the 32 largest samples seen so far.  The first
  32 samples are stored in arrival order; on the 33rd the store is turned
  into a min-heap once, and from then on a sample larger than the root
  replaces it and is sifted down, while any other sample is dropped.
 */
module TopK {
  import opened MinHeap
  import opened Sorting

  /** Number of samples the selector keeps. */
  const HeapSize: nat := 32

  /**
    `storage` is the fixed-size store, `count` how many of its slots are in
    use (it stops growing at `HeapSize`) and `heapified` whether the store
    has been turned into a heap yet.
   */
  datatype Selector = Selector(count: nat, storage: seq<int>, heapified: bool)

  /** The selector before any sample: an all-zero store, nothing in use. */
  const Empty: Selector := Selector(0, seq(HeapSize, _ => 0), false)

  ghost predicate Valid(s: Selector) {
    && |s.storage| == HeapSize
    && s.count <= HeapSize
    && (s.heapified ==> s.count == HeapSize && IsHeap(s.storage, HeapSize))
  }

  /** The samples the selector holds. */
  function Retained(s: Selector): multiset<int>
    requires s.count <= |s.storage|
  {
    multiset(s.storage[..s.count])
  }

  /** The smallest value of a non-empty sequence. */
  function Minimum(xs: seq<int>): (m: int)
    requires |xs| > 0
    ensures m in xs
    ensures forall i :: 0 <= i < |xs| ==> m <= xs[i]
  {
    if |xs| == 1 then xs[0]
    else var m := Minimum(xs[1..]); if xs[0] <= m then xs[0] else m
  }

  /** A heap's root is the minimum of the whole heap. */
  lemma HeapRootIsMinimum(h: seq<int>)
    requires |h| == HeapSize && IsHeap(h, HeapSize)
    ensures h[0] == Minimum(h)
  {
    var m := Minimum(h);
    var k :| 0 <= k < |h| && h[k] == m;
    HeapRootIsMin(h, HeapSize, k);
  }

  /** The minimum depends only on the values, not their order. */
  lemma MinimumOfPermutation(a: seq<int>, b: seq<int>)
    requires |a| > 0 && |b| > 0 && multiset(a) == multiset(b)
    ensures Minimum(a) == Minimum(b)
  {
    var ma, mb := Minimum(a), Minimum(b);
    assert ma in multiset(b) && mb in multiset(a);
    var i :| 0 <= i < |b| && b[i] == ma;
    var j :| 0 <= j < |a| && a[j] == mb;
  }

  /**
    The full store as a heap: built from the stored samples the first time,
    taken as it is afterwards.  Its root is the smallest sample held.
   */
  function HeapOf(s: Selector): (h: seq<int>)
    requires Valid(s) && s.count == HeapSize
    ensures |h| == HeapSize && IsHeap(h, HeapSize)
    ensures multiset(h) == Retained(s)
    ensures h[0] == Minimum(s.storage)
    ensures s.heapified ==> h == s.storage
  {
    var h := if s.heapified then s.storage else BuildHeap(s.storage, HeapSize);
    assert s.storage[..s.count] == s.storage;
    MinimumOfPermutation(s.storage, h);
    HeapRootIsMinimum(h);
    h
  }

  /**
    An offer once the store is full: a sample strictly larger than the
    smallest held replaces it, any other sample is dropped.
   */
  function OfferFull(s: Selector, v: int): (r: Selector)
    requires Valid(s) && s.count == HeapSize
    ensures Valid(r) && r.count == HeapSize && r.heapified
    ensures s.heapified && v <= s.storage[0] ==> r == s
    ensures var m := Minimum(s.storage);
      Retained(r) == if m < v then Retained(s) - multiset{m} + multiset{v} else Retained(s)
  {
    var h := HeapOf(s);
    var h' := if v > h[0] then SiftIn(h, v) else h;
    assert multiset(h'[..HeapSize]) == multiset(h') by {
      assert h'[..HeapSize] == h';
    }
    Selector(s.count, h', true)
  }

  /** Overwrites the root of the full heap with a larger sample and sifts it down. */
  function SiftIn(h: seq<int>, v: int): (h': seq<int>)
    requires |h| == HeapSize && IsHeap(h, HeapSize)
    ensures |h'| == HeapSize && IsHeap(h', HeapSize)
    ensures multiset(h') == multiset(h) - multiset{h[0]} + multiset{v}
  {
    ReplaceRoot(h, HeapSize, v);
    Heapify(h[0 := v], HeapSize, 0)
  }

  /**
    Offers one sample.  While the store has room the sample goes into the
    next slot.  Once it is full the store is made a heap (only the first
    time), and a sample strictly larger than the root replaces it.
   */
  function Offer(s: Selector, v: int): (r: Selector)
    requires Valid(s)
    ensures Valid(r)
    ensures s.count < HeapSize ==>
      && r.count == s.count + 1 && !r.heapified
      && r.storage[s.count] == v
      && (forall k :: 0 <= k < HeapSize && k != s.count ==> r.storage[k] == s.storage[k])
      && r.storage[..r.count] == s.storage[..s.count] + [v]
    ensures s.count == HeapSize ==> r.count == HeapSize && r.heapified
    ensures s.heapified && v <= s.storage[0] ==> r == s
    ensures s.count == HeapSize ==>
      var m := Minimum(s.storage);
      Retained(r) == if m < v then Retained(s) - multiset{m} + multiset{v} else Retained(s)
  {
    if s.count < HeapSize then
      var r := Selector(s.count + 1, s.storage[s.count := v], s.heapified);
      assert r.storage[..r.count] == s.storage[..s.count] + [v];
      r
    else
      OfferFull(s, v)
  }

  /** Offers every sample of `vs`, in order. */
  function OfferAll(s: Selector, vs: seq<int>): (r: Selector)
    requires Valid(s)
    ensures Valid(r)
    decreases |vs|
  {
    if |vs| == 0 then s else Offer(OfferAll(s, vs[..|vs| - 1]), vs[|vs| - 1])
  }

  /**
    `kept` is a choice of the largest values of `offered`: drawn from it,
    as many as the selector holds (or all of them), and none of the values
    left behind larger than any kept one.
   */
  ghost predicate KeepsLargest(kept: multiset<int>, offered: seq<int>) {
    && kept <= multiset(offered)
    && |kept| == (if |offered| < HeapSize then |offered| else HeapSize)
    && forall x, y :: x in kept && y in multiset(offered) - kept ==> y <= x
  }

  /** Multiset bookkeeping of one offer once the store is full. */
  lemma OfferStep(K: multiset<int>, O: multiset<int>, m: int, v: int)
    requires K <= O && m in K
    requires forall x :: x in K ==> m <= x
    requires forall x, y :: x in K && y in O - K ==> y <= x
    ensures var K' := if m < v then K - multiset{m} + multiset{v} else K;
      && K' <= O + multiset{v} && |K'| == |K|
      && forall x, y :: x in K' && y in O + multiset{v} - K' ==> y <= x
  {
    var O' := O + multiset{v};
    if m < v {
      var K' := K - multiset{m} + multiset{v};
      assert O' - K' == O - K + multiset{m};
      forall x, y | x in K' && y in O' - K'
        ensures y <= x
      {
        if y != m {
          assert y in O - K;
          if x != v {
            assert x in K;
          }
        }
      }
    } else {
      assert O' - K == O - K + multiset{v};
    }
  }

  /**
    The selector invariant after the samples `vs`: as many held as it can
    hold, those held are the largest offered, and before the store fills
    they sit in arrival order.
   */
  ghost predicate Tracks(s: Selector, vs: seq<int>) {
    && Valid(s)
    && s.count == (if |vs| < HeapSize then |vs| else HeapSize)
    && KeepsLargest(Retained(s), vs)
    && (|vs| <= HeapSize ==> s.storage[..s.count] == vs)
  }

  lemma EmptyTracksNothing()
    ensures Tracks(Empty, [])
  {
  }

  /** An offer while the store has room keeps the invariant: everything offered is held. */
  lemma OfferFillTracks(s: Selector, vs: seq<int>, v: int)
    requires Tracks(s, vs) && |vs| < HeapSize
    ensures Tracks(Offer(s, v), vs + [v])
  {
    var r := Offer(s, v);
    assert r.storage[..r.count] == vs + [v];
    assert multiset(vs + [v]) - multiset(vs + [v]) == multiset{};
  }

  /** An offer to the full store keeps the invariant: the smallest held gives way only to a larger sample. */
  lemma OfferFullTracks(s: Selector, vs: seq<int>, v: int)
    requires Tracks(s, vs) && |vs| >= HeapSize
    ensures Tracks(Offer(s, v), vs + [v])
  {
    assert s.storage[..s.count] == s.storage;
    var m := Minimum(s.storage);
    forall x | x in Retained(s)
      ensures m <= x
    {
      var i :| 0 <= i < |s.storage| && s.storage[i] == x;
    }
    OfferStep(Retained(s), multiset(vs), m, v);
    assert multiset(vs + [v]) == multiset(vs) + multiset{v};
  }

  /** Every offer keeps the selector invariant. */
  lemma OfferTracks(s: Selector, vs: seq<int>, v: int)
    requires Tracks(s, vs)
    ensures Tracks(Offer(s, v), vs + [v])
  {
    if |vs| < HeapSize {
      OfferFillTracks(s, vs, v);
    } else {
      OfferFullTracks(s, vs, v);
    }
  }

  /**
    Selection is correct: after any sequence of offers to an empty
    selector it holds the largest samples offered, as many as it can,
    and while it has not filled up it holds them in arrival order.
   */
  lemma {:induction false} SelectionCorrect(vs: seq<int>)
    ensures Tracks(OfferAll(Empty, vs), vs)
    decreases |vs|
  {
    if |vs| == 0 {
      EmptyTracksNothing();
    } else {
      var ws, v := vs[..|vs| - 1], vs[|vs| - 1];
      assert ws + [v] == vs;
      SelectionCorrect(ws);
      OfferTracks(OfferAll(Empty, ws), ws, v);
    }
  }

  /**
    The final readout: the slots in use sorted ascending.  Before the store
    fills, only the first `count` slots are sorted; afterwards all of them.
   */
  method Finalize(s: Selector) returns (largest: seq<int>)
    requires Valid(s)
    ensures Sorted(largest)
    ensures multiset(largest) == Retained(s)
  {
    if s.count < HeapSize {
      var sorted := MergeSort(s.storage, 0, s.count - 1);
      largest := sorted[..s.count];
    } else {
      var sorted := MergeSort(s.storage, 0, HeapSize - 1);
      assert sorted[0..HeapSize] == sorted && s.storage[0..HeapSize] == s.storage;
      largest := sorted;
    }
  }

  /** Before the store fills, the selector holds exactly the samples offered. */
  lemma ShortStreamRetained(vs: seq<int>)
    requires |vs| <= HeapSize
    ensures Retained(OfferAll(Empty, vs)) == multiset(vs)
  {
    SelectionCorrect(vs);
  }

  lemma SortedThree(largest: seq<int>)
    requires Sorted(largest) && multiset(largest) == multiset([5, 3, 9])
    ensures largest == [3, 5, 9]
  {
    var expected := [3, 5, 9];
    assert Sorted(expected);
    assert multiset(expected) == multiset([5, 3, 9]);
    SortedUnique(largest, expected);
  }

  /** Three samples, fewer than the selector holds, read out as all three in ascending order. */
  lemma FewSamplesExample(largest: seq<int>)
    requires Sorted(largest) && multiset(largest) == Retained(OfferAll(Empty, [5, 3, 9]))
    ensures largest == [3, 5, 9]
  {
    ShortStreamRetained([5, 3, 9]);
    SortedThree(largest);
  }
}

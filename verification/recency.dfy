/**
  The recency window: a ring of 32 slots that always holds the most recent
  samples.  Sample number `g` (counting from zero) is written to slot
  `g % 32`, so once more than 32 samples have arrived the oldest slot is the
  one the next sample will overwrite.
 */
module Recency {

  /** Number of recent samples the ring keeps. */
  const RecentSize: nat := 32

  /** `slots` is the ring and `seen` the number of samples written so far. */
  datatype Ring = Ring(slots: seq<int>, seen: nat)

  /** The ring before any sample: all slots zero. */
  const EmptyRing: Ring := Ring(seq(RecentSize, _ => 0), 0)

  predicate ValidRing(r: Ring) {
    |r.slots| == RecentSize
  }

  /** Writes the next sample over the slot the sample count selects. */
  function Record(r: Ring, v: int): (r': Ring)
    requires ValidRing(r)
    ensures ValidRing(r') && r'.seen == r.seen + 1
    ensures r'.slots[r.seen % RecentSize] == v
    ensures forall k :: 0 <= k < RecentSize && k != r.seen % RecentSize ==> r'.slots[k] == r.slots[k]
  {
    Ring(r.slots[r.seen % RecentSize := v], r.seen + 1)
  }

  /** Writes every sample of `vs`, in order. */
  function RecordAll(r: Ring, vs: seq<int>): (r': Ring)
    requires ValidRing(r)
    ensures ValidRing(r') && r'.seen == r.seen + |vs|
    decreases |vs|
  {
    if |vs| == 0 then r else Record(RecordAll(r, vs[..|vs| - 1]), vs[|vs| - 1])
  }

  /**
    The readout of the ring, oldest first.  With fewer than 32 samples the
    first `seen` slots are read in order; otherwise all 32 slots are read
    starting from slot `seen % 32` and wrapping around.
   */
  function Snapshot(r: Ring): (out: seq<int>)
    requires ValidRing(r)
    ensures |out| == if r.seen < RecentSize then r.seen else RecentSize
    ensures r.seen >= RecentSize ==>
      forall c :: 0 <= c < RecentSize ==> out[c] == r.slots[(r.seen - RecentSize + c) % RecentSize]
  {
    if r.seen < RecentSize then r.slots[..r.seen]
    else
      var out := seq(RecentSize, c => ReadFrom(r, c));
      assert forall c :: 0 <= c < RecentSize ==> out[c] == r.slots[(r.seen - RecentSize + c) % RecentSize] by {
        forall c | 0 <= c < RecentSize {
          ReadFromSlot(r, c);
        }
      }
      out
  }

  /** The `c`-th slot read when reading from slot `seen % 32` onwards, wrapping around. */
  function ReadFrom(r: Ring, c: int): int
    requires ValidRing(r)
  {
    r.slots[(r.seen % RecentSize + c) % RecentSize]
  }

  /** The reference: the last 32 samples of a stream (all of it when shorter). */
  function LastValues(vs: seq<int>): (w: seq<int>)
    ensures |w| == if |vs| < RecentSize then |vs| else RecentSize
  {
    if |vs| <= RecentSize then vs else vs[|vs| - RecentSize..]
  }

  /** Two sample numbers less than 32 apart land in different slots. */
  lemma DistinctSlots(j: int, g: int)
    requires g - RecentSize < j < g
    ensures j % RecentSize != g % RecentSize
  {
  }

  /** Reading from slot `seen % 32` onwards, the `c`-th slot read is the one sample `seen - 32 + c` went to. */
  lemma ReadFromSlot(r: Ring, c: int)
    requires ValidRing(r)
    ensures ReadFrom(r, c) == r.slots[(r.seen - RecentSize + c) % RecentSize]
  {
    var g := r.seen;
    assert (g % RecentSize + c) % RecentSize == (g - RecentSize + c) % RecentSize;
  }

  /**
    The ring invariant after the samples `vs`: the count matches, and each of
    the last 32 samples sits in the slot its number selects.
   */
  ghost predicate HoldsRecent(r: Ring, vs: seq<int>) {
    && ValidRing(r) && r.seen == |vs|
    && forall j :: 0 <= j < |vs| && |vs| - RecentSize <= j ==> r.slots[j % RecentSize] == vs[j]
  }

  /** The empty ring holds the empty stream. */
  lemma EmptyHoldsNothing()
    ensures HoldsRecent(EmptyRing, [])
  {
  }

  /** Recording one more sample keeps the invariant: the overwritten slot held a sample 32 back. */
  lemma RecordKeepsRecent(r: Ring, vs: seq<int>, v: int)
    requires HoldsRecent(r, vs)
    ensures HoldsRecent(Record(r, v), vs + [v])
  {
    var r', ws := Record(r, v), vs + [v];
    forall j | 0 <= j < |ws| && |ws| - RecentSize <= j
      ensures r'.slots[j % RecentSize] == ws[j]
    {
      if j < |vs| {
        DistinctSlots(j, |vs|);
        assert r'.slots[j % RecentSize] == r.slots[j % RecentSize];
      }
    }
  }

  /** Recording a whole stream into the empty ring establishes the invariant for it. */
  lemma {:induction false} RecordAllHoldsRecent(vs: seq<int>)
    ensures HoldsRecent(RecordAll(EmptyRing, vs), vs)
    decreases |vs|
  {
    if |vs| == 0 {
      EmptyHoldsNothing();
    } else {
      var ws, v := vs[..|vs| - 1], vs[|vs| - 1];
      assert ws + [v] == vs;
      RecordAllHoldsRecent(ws);
      RecordKeepsRecent(RecordAll(EmptyRing, ws), ws, v);
    }
  }

  /** Before the ring wraps, its readout is the whole stream. */
  lemma ShortWindow(r: Ring, vs: seq<int>)
    requires HoldsRecent(r, vs) && |vs| < RecentSize
    ensures Snapshot(r) == vs
  {
    forall c | 0 <= c < |vs|
      ensures r.slots[c] == vs[c]
    {
      assert c % RecentSize == c;
    }
  }

  /** Once the ring has wrapped, the `c`-th slot read holds the `c`-th of the last 32 samples. */
  lemma FullSlot(r: Ring, vs: seq<int>, c: int)
    requires HoldsRecent(r, vs) && |vs| >= RecentSize && 0 <= c < RecentSize
    ensures ReadFrom(r, c) == vs[|vs| - RecentSize + c]
  {
    ReadFromSlot(r, c);
    var j := |vs| - RecentSize + c;
    assert r.slots[j % RecentSize] == vs[j];
  }

  /** Once the ring has wrapped, its readout is the last 32 samples, oldest first. */
  lemma FullWindow(r: Ring, vs: seq<int>)
    requires HoldsRecent(r, vs) && |vs| >= RecentSize
    ensures Snapshot(r) == vs[|vs| - RecentSize..]
  {
    forall c | 0 <= c < RecentSize
      ensures Snapshot(r)[c] == vs[|vs| - RecentSize + c]
    {
      FullSlot(r, vs, c);
    }
  }

  /** Whatever ring holds the invariant for `vs` reads out as the last 32 samples of `vs`. */
  lemma Readout(r: Ring, vs: seq<int>)
    requires HoldsRecent(r, vs)
    ensures Snapshot(r) == LastValues(vs)
  {
    if |vs| < RecentSize {
      ShortWindow(r, vs);
    } else {
      FullWindow(r, vs);
    }
  }

  /** The readout after any stream is exactly its last 32 samples, oldest first. */
  lemma RecencyWindow(vs: seq<int>)
    ensures Snapshot(RecordAll(EmptyRing, vs)) == LastValues(vs)
  {
    RecordAllHoldsRecent(vs);
    Readout(RecordAll(EmptyRing, vs), vs);
  }

  /** Forty samples `1..40` read back as `9..40`. */
  lemma RecencyExample()
    ensures Snapshot(RecordAll(EmptyRing, seq(40, i => i + 1))) == seq(32, i => i + 9)
  {
    var vs := seq(40, i => i + 1);
    RecencyWindow(vs);
    assert LastValues(vs) == seq(32, i => i + 9);
  }
}

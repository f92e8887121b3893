/**
  The driver: reads the byte stream three bytes at a time, feeds every
  sample to both the recency ring and the top-K selector, and at the end
  produces the report, or notes that the stream held no samples.
 */
module Driver {
  import opened Bytes
  import opened Unpacker
  import opened Sorting
  import opened TopK
  import opened Recency

  /**
    The outcome of a run: no samples at all, or the retained largest
    samples in ascending order, the most recent samples oldest first, and
    the number of samples read.
   */
  datatype Report =
    | EmptyStream
    | Summary(largest: seq<int>, recent: seq<int>, total: nat)

  /** The size of the next read: three bytes, or what is left of the stream. */
  function ReadSize(remaining: nat): (n: nat)
    ensures n <= remaining && n <= 3
    ensures n < 3 ==> n == remaining
  {
    if remaining < 3 then remaining else 3
  }

  /** Reading one more chunk after a whole number of groups (or an empty read) appends its samples. */
  lemma ChunkStep(bytes: seq<byte>, pos: nat, n: nat)
    requires pos + n <= |bytes| && (pos % 3 == 0 || n == 0)
    ensures Unpack(bytes[..pos + n]) == Unpack(bytes[..pos]) + Unpack(bytes[pos..pos + n])
  {
    assert bytes[..pos + n] == bytes[..pos] + bytes[pos..pos + n];
    if n > 0 {
      UnpackAppend(bytes[..pos], bytes[pos..pos + n]);
    }
  }

  /** Hands one sample to the recency ring and the selector; both keep their invariants. */
  method Feed(ring: Ring, sel: Selector, v: int, ghost seen: seq<int>) returns (ring': Ring, sel': Selector)
    requires HoldsRecent(ring, seen) && Tracks(sel, seen)
    ensures HoldsRecent(ring', seen + [v]) && Tracks(sel', seen + [v])
  {
    RecordKeepsRecent(ring, seen, v);
    OfferTracks(sel, seen, v);
    ring' := Record(ring, v);
    sel' := Offer(sel, v);
  }

  /** Hands two samples, in order, to both consumers. */
  method FeedPair(ring: Ring, sel: Selector, v0: int, v1: int, ghost seen: seq<int>)
    returns (ring': Ring, sel': Selector)
    requires HoldsRecent(ring, seen) && Tracks(sel, seen)
    ensures HoldsRecent(ring', seen + [v0, v1]) && Tracks(sel', seen + [v0, v1])
  {
    ring', sel' := Feed(ring, sel, v0, seen);
    ring', sel' := Feed(ring', sel', v1, seen + [v0]);
    assert seen + [v0] + [v1] == seen + [v0, v1];
  }

  /**
    The body of the reader loop for one read of up to three bytes: unpack
    the chunk and hand each of its samples, in order, to both consumers.
   */
  method ConsumeChunk(chunk: seq<byte>, ring: Ring, sel: Selector, count: nat, ghost seen: seq<int>)
    returns (ring': Ring, sel': Selector, count': nat)
    requires |chunk| <= 3
    requires HoldsRecent(ring, seen) && Tracks(sel, seen) && count == |seen|
    ensures var seen' := seen + Unpack(chunk);
      HoldsRecent(ring', seen') && Tracks(sel', seen') && count' == |seen'|
  {
    if |chunk| == 3 {
      var v0, v1 := FirstOfGroup(chunk[0], chunk[1]), SecondOfGroup(chunk[1], chunk[2]);
      assert chunk[3..] == [];
      assert Unpack(chunk) == [v0, v1];
      ring', sel' := FeedPair(ring, sel, v0, v1, seen);
      count' := count + 2;
    } else if |chunk| == 2 {
      var v0, v1 := FirstOfGroup(chunk[0], chunk[1]), TailNibble(chunk[1]);
      assert Unpack(chunk) == [v0, v1];
      ring', sel' := FeedPair(ring, sel, v0, v1, seen);
      count' := count + 2;
    } else if |chunk| == 1 {
      var v0 := chunk[0] as int;
      assert Unpack(chunk) == [v0];
      ring', sel' := Feed(ring, sel, v0, seen);
      count' := count + 1;
    } else {
      assert seen + Unpack(chunk) == seen;
      ring', sel', count' := ring, sel, count;
    }
  }

  /**
    The end of a run: no samples gives the empty-stream outcome; otherwise
    the retained samples sorted and the ring read oldest first.
   */
  method Conclude(ring: Ring, sel: Selector, count: nat, ghost vs: seq<int>) returns (rep: Report)
    requires HoldsRecent(ring, vs) && Tracks(sel, vs) && count == |vs|
    ensures rep.EmptyStream? <==> |vs| == 0
    ensures rep.Summary? ==>
      && rep.total == |vs|
      && rep.recent == LastValues(vs)
      && Sorted(rep.largest)
      && KeepsLargest(multiset(rep.largest), vs)
  {
    if count == 0 {
      rep := EmptyStream;
    } else {
      var largest := Finalize(sel);
      Readout(ring, vs);
      rep := Summary(largest, Snapshot(ring), count);
    }
  }

  /**
    One read of up to three bytes at `pos`: the chunk read and the position
    after it.  A read of fewer than three bytes reaches the end of the
    stream, and unpacking up to the new position appends the chunk's samples.
   */
  method ReadChunk(bytes: seq<byte>, pos: nat) returns (chunk: seq<byte>, pos': nat)
    requires pos <= |bytes| && (pos % 3 == 0 || pos == |bytes|)
    ensures pos <= pos' <= |bytes| && chunk == bytes[pos..pos'] && |chunk| <= 3
    ensures pos' % 3 == 0 || pos' == |bytes|
    ensures |chunk| != 3 ==> pos' == |bytes|
    ensures Unpack(bytes[..pos']) == Unpack(bytes[..pos]) + Unpack(chunk)
  {
    var n := ReadSize(|bytes| - pos);
    chunk := bytes[pos..pos + n];
    ChunkStep(bytes, pos, n);
    pos' := pos + n;
  }

  /** One pass of the reader loop: read a chunk and hand its samples to both consumers. */
  method ReadStep(bytes: seq<byte>, pos: nat, ring: Ring, sel: Selector, count: nat, ghost seen: seq<int>)
    returns (pos': nat, numBytes: nat, ring': Ring, sel': Selector, count': nat, ghost seen': seq<int>)
    requires pos <= |bytes| && (pos % 3 == 0 || pos == |bytes|)
    requires seen == Unpack(bytes[..pos])
    requires HoldsRecent(ring, seen) && Tracks(sel, seen) && count == |seen|
    ensures pos' == pos + numBytes <= |bytes| && numBytes <= 3
    ensures pos' % 3 == 0 || pos' == |bytes|
    ensures numBytes != 3 ==> pos' == |bytes|
    ensures seen' == Unpack(bytes[..pos'])
    ensures HoldsRecent(ring', seen') && Tracks(sel', seen') && count' == |seen'|
  {
    var chunk;
    chunk, pos' := ReadChunk(bytes, pos);
    numBytes := |chunk|;
    ring', sel', count' := ConsumeChunk(chunk, ring, sel, count, seen);
    seen' := seen + Unpack(chunk);
  }

  /**
    The reader loop: reads up to three bytes at a time and stops at the
    first read that returns nothing; a full read yields two samples, a
    one-byte read one sample and a two-byte read two.  Every sample goes to
    both consumers as it is read.
   */
  method ReadAll(bytes: seq<byte>) returns (ring: Ring, sel: Selector, count: nat)
    ensures HoldsRecent(ring, Unpack(bytes)) && Tracks(sel, Unpack(bytes)) && count == |Unpack(bytes)|
  {
    var pos: nat := 0;
    var numBytes: nat := 3;
    ring, sel, count := EmptyRing, Empty, 0;
    ghost var seen: seq<int> := [];
    EmptyHoldsNothing();
    EmptyTracksNothing();
    while numBytes != 0
      invariant pos <= |bytes|
      invariant pos % 3 == 0 || pos == |bytes|
      invariant numBytes != 3 ==> pos == |bytes|
      invariant seen == Unpack(bytes[..pos])
      invariant HoldsRecent(ring, seen) && Tracks(sel, seen) && count == |seen|
      decreases |bytes| - pos + numBytes
    {
      pos, numBytes, ring, sel, count, seen := ReadStep(bytes, pos, ring, sel, count, seen);
    }
    assert bytes[..pos] == bytes;
  }

  /**
    One run over a whole byte stream: read every sample, then report the
    empty-stream outcome or the largest and most recent samples.
   */
  method Process(bytes: seq<byte>) returns (rep: Report)
    ensures var vs := Unpack(bytes);
      && (rep.EmptyStream? <==> |vs| == 0)
      && (rep.Summary? ==>
            && rep.total == |vs|
            && rep.recent == LastValues(vs)
            && Sorted(rep.largest)
            && KeepsLargest(multiset(rep.largest), vs))
  {
    var ring, sel, count := ReadAll(bytes);
    rep := Conclude(ring, sel, count, Unpack(bytes));
  }
}

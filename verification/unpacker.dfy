/**
  The bit unpacker: a byte stream holds 12-bit samples packed two to every
  three bytes, big-end first.  A trailing group of one or two bytes follows
  its own policy: one byte is a sample on its own, and two bytes give the
  first 12 bits as one sample and the last 4 bits as another.

  Bytes are unsigned.  The reader loop's shifts and masks are written here
  as the arithmetic they perform on such bytes: `x << 4` is `x * 16`,
  `(x & 0xF0) >> 4` is `x / 16`, `x & 0x0F` is `x % 16`, `x << 8` is
  `x * 256`, and `|` joins bit fields that do not overlap, so it adds.
 */
module Unpacker {
  import opened Bytes

  /** Samples are 12 bits wide. */
  const SampleLimit: int := 4096

  predicate IsSample(v: int) {
    0 <= v < SampleLimit
  }

  predicate AllSamples(vs: seq<int>) {
    forall i :: 0 <= i < |vs| ==> IsSample(vs[i])
  }

  /** The first sample of a group: all eight bits of `b0`, then the high nibble of `b1`. */
  function FirstOfGroup(b0: byte, b1: byte): (v: int)
    ensures IsSample(v)
  {
    b0 as int * 16 + b1 as int / 16
  }

  /** The second sample of a full group: the low nibble of `b1`, then all eight bits of `b2`. */
  function SecondOfGroup(b1: byte, b2: byte): (v: int)
    ensures IsSample(v)
  {
    (b1 as int % 16) * 256 + b2 as int
  }

  /** The second sample of a two-byte tail: the low nibble of `b1` alone. */
  function TailNibble(b1: byte): (v: int)
    ensures 0 <= v < 16
  {
    b1 as int % 16
  }

  /** Number of samples an `n`-byte stream yields. */
  function SampleCount(n: nat): nat {
    2 * (n / 3) + n % 3
  }

  /**
    Turns a byte stream into samples, three bytes at a time, with the
    one- and two-byte tail policies at the end.
   */
  function Unpack(bytes: seq<byte>): (vs: seq<int>)
    ensures |vs| == SampleCount(|bytes|)
    decreases |bytes|
  {
    if |bytes| == 0 then []
    else if |bytes| == 1 then [bytes[0] as int]
    else if |bytes| == 2 then [FirstOfGroup(bytes[0], bytes[1]), TailNibble(bytes[1])]
    else [FirstOfGroup(bytes[0], bytes[1]), SecondOfGroup(bytes[1], bytes[2])] + Unpack(bytes[3..])
  }

  /** Every value unpacked is a 12-bit sample. */
  lemma {:induction false} UnpackSamples(bytes: seq<byte>)
    ensures AllSamples(Unpack(bytes))
    decreases |bytes|
  {
    if |bytes| >= 3 {
      UnpackSamples(bytes[3..]);
    }
  }

  /**
    Closed form of the `k`-th sample, by position: sample `k` comes from the
    group starting at byte `3 * (k / 2)`, and which formula applies depends
    only on how many bytes that group has.
   */
  ghost function SampleAt(bytes: seq<byte>, k: nat): int
    requires k < SampleCount(|bytes|)
  {
    var b := 3 * (k / 2);
    if k % 2 == 0 then
      if b + 1 < |bytes| then bytes[b] as int * 16 + bytes[b + 1] as int / 16
      else bytes[b] as int
    else if b + 2 < |bytes| then (bytes[b + 1] as int % 16) * 256 + bytes[b + 2] as int
    else bytes[b + 1] as int % 16
  }

  /** Past the first group, the closed form of the rest is the closed form shifted by one group. */
  lemma LayoutShift(bytes: seq<byte>, k: nat)
    requires |bytes| >= 3 && 2 <= k < SampleCount(|bytes|)
    ensures SampleAt(bytes, k) == SampleAt(bytes[3..], k - 2)
  {
    assert 3 * (k / 2) == 3 * ((k - 2) / 2) + 3;
  }

  /** Every sample `Unpack` emits is the one the closed form places at that position. */
  lemma {:induction false} UnpackLayout(bytes: seq<byte>)
    ensures forall k :: 0 <= k < |Unpack(bytes)| ==> Unpack(bytes)[k] == SampleAt(bytes, k)
    decreases |bytes|
  {
    if |bytes| >= 3 {
      var rest := bytes[3..];
      UnpackLayout(rest);
      forall k | 2 <= k < |Unpack(bytes)|
        ensures Unpack(bytes)[k] == SampleAt(bytes, k)
      {
        LayoutShift(bytes, k);
        assert Unpack(bytes)[k] == Unpack(rest)[k - 2];
      }
    }
  }

  /** Unpacking a whole number of groups followed by anything is unpacking each part. */
  lemma {:induction false} UnpackAppend(xs: seq<byte>, ys: seq<byte>)
    requires |xs| % 3 == 0
    ensures Unpack(xs + ys) == Unpack(xs) + Unpack(ys)
    decreases |xs|
  {
    if |xs| == 0 {
      assert xs + ys == ys;
    } else {
      assert (xs + ys)[3..] == xs[3..] + ys;
      UnpackAppend(xs[3..], ys);
    }
  }

  /** The three bytes that carry two 12-bit samples as one full group. */
  function GroupBytes(v0: int, v1: int): (g: seq<byte>)
    requires IsSample(v0) && IsSample(v1)
    ensures |g| == 3
  {
    [(v0 / 16) as byte, ((v0 % 16) * 16 + v1 / 256) as byte, (v1 % 256) as byte]
  }

  /** The inverse of unpacking for whole groups: two 12-bit samples become three bytes. */
  function Pack(vs: seq<int>): (bytes: seq<byte>)
    requires |vs| % 2 == 0 && AllSamples(vs)
    ensures |bytes| == 3 * (|vs| / 2)
  {
    if |vs| == 0 then [] else GroupBytes(vs[0], vs[1]) + Pack(vs[2..])
  }

  /** One group: the three bytes written for two samples unpack to those samples. */
  lemma GroupFromSamples(v0: int, v1: int)
    requires IsSample(v0) && IsSample(v1)
    ensures var g := GroupBytes(v0, v1);
      FirstOfGroup(g[0], g[1]) == v0 && SecondOfGroup(g[1], g[2]) == v1
  {
  }

  /** One group: the samples three bytes unpack to are written back as those bytes. */
  lemma SamplesFromGroup(b0: byte, b1: byte, b2: byte)
    ensures GroupBytes(FirstOfGroup(b0, b1), SecondOfGroup(b1, b2)) == [b0, b1, b2]
  {
  }

  /** Packing and then unpacking an even number of samples gives them back. */
  lemma {:induction false} UnpackPack(vs: seq<int>)
    requires |vs| % 2 == 0 && AllSamples(vs)
    ensures Unpack(Pack(vs)) == vs
    decreases |vs|
  {
    if |vs| > 0 {
      var g := GroupBytes(vs[0], vs[1]);
      var bytes := g + Pack(vs[2..]);
      assert bytes[3..] == Pack(vs[2..]);
      UnpackPack(vs[2..]);
      GroupFromSamples(vs[0], vs[1]);
      assert Unpack(bytes) == [vs[0], vs[1]] + vs[2..];
      assert vs == [vs[0], vs[1]] + vs[2..];
    }
  }

  /** Unpacking and then packing a whole number of groups gives the bytes back. */
  lemma {:induction false} PackUnpack(bytes: seq<byte>)
    requires |bytes| % 3 == 0
    ensures AllSamples(Unpack(bytes)) && Pack(Unpack(bytes)) == bytes
    decreases |bytes|
  {
    if |bytes| > 0 {
      var vs := Unpack(bytes);
      UnpackSamples(bytes);
      UnpackSamples(bytes[3..]);
      assert vs[2..] == Unpack(bytes[3..]);
      PackUnpack(bytes[3..]);
      SamplesFromGroup(bytes[0], bytes[1], bytes[2]);
      assert Pack(vs) == GroupBytes(vs[0], vs[1]) + Pack(vs[2..]);
      assert bytes == [bytes[0], bytes[1], bytes[2]] + bytes[3..];
    }
  }
}

/** Concrete streams and what they unpack to: the fixed vectors of the format description. */
module UnpackExamples {
  import opened Bytes
  import opened Unpacker

  lemma EmptyStreamExample()
    ensures Unpack([]) == []
  {
  }

  /** A group whose first two bytes are zero unpacks to zero and its last byte. */
  lemma LeadingZeroGroup(b2: byte)
    ensures Unpack([0x00, 0x00, b2]) == [0, b2 as int]
  {
    var g: seq<byte> := [0x00, 0x00, b2];
    assert g[3..] == [];
  }

  /** A two-byte tail led by a zero byte, with a second byte below 16, unpacks to zero and that byte. */
  lemma LeadingZeroTail(b1: byte)
    requires b1 < 16
    ensures Unpack([0x00, b1]) == [0, b1 as int]
  {
  }

  lemma FullGroupExample()
    ensures Unpack([0xFF, 0xFF, 0xFF]) == [4095, 4095]
  {
  }

  lemma OneByteTailExample()
    ensures Unpack([0x0F]) == [15]
  {
  }

  lemma TwoByteTailExample()
    ensures Unpack([0xAB, 0xCD]) == [0xABC, 0x0D]
  {
  }

  /**
    The two-byte tail policy makes the output alone ambiguous: for any `b`
    below 16, the tail `[0x00, b]` and the full group `[0x00, 0x00, b]`
    unpack alike.
   */
  lemma TailLooksLikeGroup(b: byte)
    requires b < 16
    ensures Unpack([0x00, b]) == Unpack([0x00, 0x00, b]) == [0, b as int]
  {
    LeadingZeroTail(b);
    LeadingZeroGroup(b);
  }
}

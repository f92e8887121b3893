/**
  The reader loop as written, on a target where `char` is signed: each byte
  of the read buffer is sign-extended to a 32-bit `int` before the shifts
  and masks, so a byte from 0x80 up carries a run of one bits into the
  sample.  Shifts follow two's complement, as common compilers do.
 */
module SignedReader {
  import opened Bytes
  import opened Unpacker

  /** A byte stored in a signed `char` and promoted to a 32-bit `int`: from 0x80 up the high bits fill with ones. */
  function Promote(b: byte): bv32 {
    var x := b as bv8;
    if x < 0x80 then x as bv32 else (x as bv32) | 0xFFFF_FF00
  }

  /** The value a 32-bit two's-complement word stands for. */
  function Signed32(w: bv32): int {
    if w < 0x8000_0000 then w as int else w as int - 0x1_0000_0000
  }

  function FirstAsWritten(b0: byte, b1: byte): int {
    Signed32((Promote(b0) << 4) | ((Promote(b1) & 0xF0) >> 4))
  }

  function SecondAsWritten(b1: byte, b2: byte): int {
    Signed32(((Promote(b1) & 0x0F) << 8) | Promote(b2))
  }

  function TailAsWritten(b1: byte): int {
    Signed32(Promote(b1) & 0x0F)
  }

  /** The reader loop's samples with the signed buffer. */
  function UnpackAsWritten(bytes: seq<byte>): (vs: seq<int>)
    ensures |vs| == SampleCount(|bytes|)
    decreases |bytes|
  {
    if |bytes| == 0 then []
    else if |bytes| == 1 then [Signed32(Promote(bytes[0]))]
    else if |bytes| == 2 then [FirstAsWritten(bytes[0], bytes[1]), TailAsWritten(bytes[1])]
    else [FirstAsWritten(bytes[0], bytes[1]), SecondAsWritten(bytes[1], bytes[2])] + UnpackAsWritten(bytes[3..])
  }

  lemma NegativeWord(w: bv32)
    requires w >= 0x8000_0000
    ensures Signed32(w) < 0
  {
  }

  /**
    A leading byte from 0x80 up makes the first sample of its group
    negative, where the format calls for a value in `0..4095`.
   */
  lemma HighLeadByteGoesNegative(b0: byte, b1: byte)
    requires b0 >= 0x80
    ensures FirstAsWritten(b0, b1) < 0
    ensures IsSample(FirstOfGroup(b0, b1))
  {
    var f := (Promote(b0) << 4) | ((Promote(b1) & 0xF0) >> 4);
    assert f >= 0x8000_0000;
    NegativeWord(f);
  }

  /** The all-ones group reads as two `-1` samples instead of two `4095` samples. */
  lemma AllOnesGroup()
    ensures UnpackAsWritten([0xFF, 0xFF, 0xFF]) == [-1, -1]
    ensures Unpack([0xFF, 0xFF, 0xFF]) == [4095, 4095]
  {
    assert Promote(0xFF) == 0xFFFF_FFFF;
    assert (Promote(0xFF) << 4) | ((Promote(0xFF) & 0xF0) >> 4) == 0xFFFF_FFFF;
    assert ((Promote(0xFF) & 0x0F) << 8) | Promote(0xFF) == 0xFFFF_FFFF;
    assert Signed32(0xFFFF_FFFF) == -1;
  }
}

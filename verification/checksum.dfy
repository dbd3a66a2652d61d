/**
  The sensor frame's additive checksum, as `MainActivity.checkSum` computes
  it: add the unsigned payload bytes 1..7 into an `int`, take
  `Byte.toUnsignedInt((byte) ~sum) + 1` as the expected trailer and compare it
  with the unsigned trailer byte. The `+ 1` comes after the unsigned
  conversion and is not masked to 8 bits, so the expected trailer ranges over
  1..256 and a payload summing to a multiple of 256 never passes.
 */
module Checksum {
  import opened JavaPrimitives
  import opened Frame

  /** `Byte.toUnsignedInt((byte) ~sum) + 1`: the trailer a frame must carry. */
  function ExpectedTrailer(sum: Int32): (t: int)
    ensures 1 <= t <= 256
    ensures t == 256 - (sum as int) % 256
  {
    UnsignedOfComplement(sum);
    ToUnsignedInt(NarrowToByte(BitNot(sum) as int)) + 1
  }

  /** `checkSum(buffer)`: does the trailer byte match the expected trailer? */
  predicate CheckSum(f: Frame)
    ensures CheckSum(f) <==> ToUnsignedInt(f[TrailerIndex]) + Sum17(f) % 256 == 256
  {
    ExpectedTrailer(Sum17(f) as Int32) == ToUnsignedInt(f[TrailerIndex])
  }

  /**
    The loop of `checkSum` as written: an `int` accumulator over indices
    `1 <= i < buffer.length - 1`, then the comparison with `buffer[8]`.
   */
  method CheckSumLoop(buffer: Frame) returns (pass: bool)
    ensures pass == CheckSum(buffer)
    ensures pass <==> ToUnsignedInt(buffer[TrailerIndex]) == 256 - Sum17(buffer) % 256
  {
    var sum: Int32 := 0;
    var i := 1;
    while i < |buffer| - 1
      invariant PayloadStart <= i <= PayloadEnd
      invariant sum as int == SumUnsigned(buffer, PayloadStart, i)
    {
      SumUnsignedExtend(buffer, PayloadStart, i);
      sum := sum + ToUnsignedInt(buffer[i]) as Int32;
      i := i + 1;
    }
    var result := ToUnsignedInt(NarrowToByte(BitNot(sum) as int)) + 1;
    UnsignedOfComplement(sum);
    pass := result == ToUnsignedInt(buffer[TrailerIndex]);
  }

  /** The start marker, byte 0, never affects the checksum verdict. */
  lemma CheckSumIgnoresMarker(f: Frame, b: JByte)
    ensures CheckSum(f[0 := b]) == CheckSum(f)
  {
    Sum17IgnoresMarkerAndTrailer(f, 0, b);
  }

  /**
    A payload whose bytes sum to a multiple of 256 fails the check whatever
    its trailer: the expected trailer is then 256, which no byte can hold.
   */
  lemma ZeroSumNeverPasses(f: Frame, b: JByte)
    requires Sum17(f) % 256 == 0
    ensures ExpectedTrailer(Sum17(f) as Int32) == 256
    ensures !CheckSum(f[TrailerIndex := b])
  {
    Sum17IgnoresMarkerAndTrailer(f, TrailerIndex, b);
  }

  /** The trailer byte that makes a frame's checksum pass, when one exists. */
  function TrailerFor(f: Frame): JByte
  {
    NarrowToByte(256 - Sum17(f) % 256)
  }

  /**
    Round trip: when the payload sum is not a multiple of 256, writing
    `TrailerFor` into byte 8 makes the check pass, and it is the only trailer
    that does.
   */
  lemma TrailerRoundTrip(f: Frame, b: JByte)
    requires Sum17(f) % 256 != 0
    ensures CheckSum(f[TrailerIndex := TrailerFor(f)])
    ensures CheckSum(f[TrailerIndex := b]) <==> b == TrailerFor(f)
  {
    Sum17IgnoresMarkerAndTrailer(f, TrailerIndex, TrailerFor(f));
    Sum17IgnoresMarkerAndTrailer(f, TrailerIndex, b);
    UnsignedNarrowRoundTrip(256 - Sum17(f) % 256);
    NarrowUnsignedRoundTrip(b);
  }

  /** Arithmetic behind `CheckSumIffWholeSum`, for any sum and byte value. */
  lemma {:induction false} TrailerComplementsSum(s: nat, t: int)
    requires 0 <= t < 256
    ensures t + s % 256 == 256 <==> (s + t) % 256 == 0 && t != 0
  {
    var m := s % 256;
    assert s == 256 * (s / 256) + m;
    if t + m == 256 {
      assert s + t == 256 * (s / 256 + 1);
    }
    if (s + t) % 256 == 0 && t != 0 {
      var k := (s + t) / 256;
      assert m + t == 256 * (k - s / 256);
      assert 0 < m + t < 512;
    }
  }

  /**
    The same condition from the receiver's side: a frame passes exactly when
    bytes 1..8 together sum to a multiple of 256 and the trailer is not zero.
   */
  lemma CheckSumIffWholeSum(f: Frame)
    ensures CheckSum(f) <==>
              SumUnsigned(f, PayloadStart, TrailerIndex + 1) % 256 == 0 && ToUnsignedInt(f[TrailerIndex]) != 0
  {
    SumUnsignedExtend(f, PayloadStart, TrailerIndex);
    TrailerComplementsSum(Sum17(f), ToUnsignedInt(f[TrailerIndex]));
  }

  /**
    The textbook two's-complement checksum masks the trailer to 8 bits
    (`(~sum + 1) & 0xFF`), which expects a zero trailer when the payload sums
    to a multiple of 256.
   */
  predicate CheckSumMasked(f: Frame)
  {
    ToUnsignedInt(f[TrailerIndex]) == (256 - Sum17(f) % 256) % 256
  }

  /** Arithmetic behind `CheckSumVersusMasked`, for any residue and byte value. */
  lemma MaskedTrailer(m: int, t: int)
    requires 0 <= m < 256 && 0 <= t < 256
    ensures t == (256 - m) % 256 <==> t + m == 256 || (m == 0 && t == 0)
  {
  }

  /** Only the zero byte reads as unsigned zero. */
  lemma UnsignedZero(b: JByte)
    ensures ToUnsignedInt(b) == 0 <==> b == 0
  {
  }

  /**
    The check as written accepts exactly the frames the masked check accepts,
    less those with a zero trailer.
   */
  lemma CheckSumVersusMasked(f: Frame)
    ensures CheckSum(f) <==> CheckSumMasked(f) && ToUnsignedInt(f[TrailerIndex]) != 0
    ensures CheckSumMasked(f) && !CheckSum(f) <==> Sum17(f) % 256 == 0 && f[TrailerIndex] == 0
  {
    MaskedTrailer(Sum17(f) % 256, ToUnsignedInt(f[TrailerIndex]));
    UnsignedZero(f[TrailerIndex]);
  }

  /** The sensor frame `FF 00 00 00 03 41 00 00 BC` passes the check. */
  lemma ExampleFramePasses()
    ensures CheckSum([-1, 0, 0, 0, 3, 0x41, 0, 0, -68])
  {
    var f: Frame := [-1, 0, 0, 0, 3, 0x41, 0, 0, -68];
    Sum17Expanded(f);
    assert Sum17(f) == 0x44;
  }
}

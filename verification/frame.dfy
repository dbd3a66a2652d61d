/**
  The 9-byte report frame of the formaldehyde sensor, as the activity's read
  buffer holds it: a sequence of Java (signed) bytes. Byte 0 is a start
  marker that is never checked, bytes 1..7 are the payload covered by the
  checksum, bytes 4 and 5 hold the big-endian raw count and byte 8 is the
  checksum trailer.
 */
module Frame {
  import opened JavaPrimitives

  const FrameSize: nat := 9
  /** The first and one-past-last index the checksum adds up. */
  const PayloadStart: nat := 1
  const PayloadEnd: nat := 8
  const CountHighIndex: nat := 4
  const CountLowIndex: nat := 5
  const TrailerIndex: nat := 8

  /** One buffer-full as read from the UART: exactly nine bytes. */
  type Frame = s: seq<JByte> | |s| == FrameSize witness [0, 0, 0, 0, 0, 0, 0, 0, 0]

  /**
    The sum of the unsigned values of `bytes[lo..hi]`, accumulated left to
    right as the checksum loop does.
   */
  function SumUnsigned(bytes: seq<JByte>, lo: nat, hi: nat): (s: nat)
    requires lo <= hi <= |bytes|
    ensures s <= 255 * (hi - lo)
    ensures hi == lo + 1 ==> s == ToUnsignedInt(bytes[lo])
    decreases hi - lo
  {
    if lo == hi then 0 else SumUnsigned(bytes, lo, hi - 1) + ToUnsignedInt(bytes[hi - 1])
  }

  /** Changing a byte outside `lo..hi` does not change the sum over `lo..hi`. */
  lemma {:induction false} SumUnsignedOutside(bytes: seq<JByte>, lo: nat, hi: nat, i: nat, b: JByte)
    requires lo <= hi <= |bytes|
    requires i < |bytes| && (i < lo || hi <= i)
    ensures SumUnsigned(bytes[i := b], lo, hi) == SumUnsigned(bytes, lo, hi)
    decreases hi - lo
  {
    if lo < hi {
      SumUnsignedOutside(bytes, lo, hi - 1, i, b);
    }
  }

  /**
    Changing a byte inside `lo..hi` changes the sum by exactly the difference
    of the old and new unsigned values: every such byte is counted once.
   */
  lemma {:induction false} SumUnsignedInside(bytes: seq<JByte>, lo: nat, hi: nat, i: nat, b: JByte)
    requires lo <= i < hi <= |bytes|
    ensures SumUnsigned(bytes[i := b], lo, hi)
         == SumUnsigned(bytes, lo, hi) - ToUnsignedInt(bytes[i]) + ToUnsignedInt(b)
    decreases hi - lo
  {
    if i < hi - 1 {
      SumUnsignedInside(bytes, lo, hi - 1, i, b);
    } else {
      SumUnsignedOutside(bytes, lo, hi - 1, i, b);
    }
  }

  /** Splitting the range: the sum over `lo..hi` extends by one byte at the top. */
  lemma SumUnsignedExtend(bytes: seq<JByte>, lo: nat, hi: nat)
    requires lo <= hi < |bytes|
    ensures SumUnsigned(bytes, lo, hi + 1) == SumUnsigned(bytes, lo, hi) + ToUnsignedInt(bytes[hi])
  {
  }

  /** The checksum's running sum: unsigned bytes 1 through 7. */
  function Sum17(f: Frame): (s: nat)
    ensures s <= 7 * 255
  {
    SumUnsigned(f, PayloadStart, PayloadEnd)
  }

  /** `Sum17` is the plain sum of the seven payload bytes, read unsigned. */
  lemma Sum17Expanded(f: Frame)
    ensures Sum17(f) == ToUnsignedInt(f[1]) + ToUnsignedInt(f[2]) + ToUnsignedInt(f[3])
                      + ToUnsignedInt(f[4]) + ToUnsignedInt(f[5]) + ToUnsignedInt(f[6])
                      + ToUnsignedInt(f[7])
  {
  }

  /** Byte 0 (the start marker) and byte 8 (the trailer) are not in the sum. */
  lemma Sum17IgnoresMarkerAndTrailer(f: Frame, i: nat, b: JByte)
    requires i == 0 || i == TrailerIndex
    ensures Sum17(f[i := b]) == Sum17(f)
  {
    SumUnsignedOutside(f, PayloadStart, PayloadEnd, i, b);
  }

  /** Every payload byte 1..7 enters the sum exactly once. */
  lemma Sum17CountsPayload(f: Frame, i: nat, b: JByte)
    requires PayloadStart <= i < PayloadEnd
    ensures Sum17(f[i := b]) == Sum17(f) - ToUnsignedInt(f[i]) + ToUnsignedInt(b)
  {
    SumUnsignedInside(f, PayloadStart, PayloadEnd, i, b);
  }
}

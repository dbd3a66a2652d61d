/**
  Decoding one frame inside `transferUartData`: the raw count is read from
  bytes 4 and 5 as a big-endian unsigned 16-bit number and converted to a
  concentration, and the checksum verdict is reported beside it. Both
  branches of the checksum test compute the reading the same way, so a
  failing checksum still yields a reading.
 */
module Decoder {
  import opened JavaPrimitives
  import opened Frame
  import opened Checksum

  /** What one decoded frame yields: the raw count, the verdict, mg/m³. */
  datatype Reading = Reading(rawCount: nat, checkSumPass: bool, concentration: real)

  /** `Byte.toUnsignedInt(buffer[4]) * 256 + Byte.toUnsignedInt(buffer[5])`. */
  function RawCount(f: Frame): (n: nat)
    ensures n < 0x1_0000
    ensures n / 256 == ToUnsignedInt(f[CountHighIndex])
    ensures n % 256 == ToUnsignedInt(f[CountLowIndex])
  {
    ToUnsignedInt(f[CountHighIndex]) * 256 + ToUnsignedInt(f[CountLowIndex])
  }

  /**
    `ppbCh2o / 66.64 * 0.08` in exact real arithmetic: 0.08 mg/m³ per 66.64
    raw units, so 833 raw units make 1 mg/m³.
   */
  function Concentration(raw: nat): (c: real)
    ensures c * 833.0 == raw as real
    ensures 0.0 <= c
  {
    raw as real / 66.64 * 0.08
  }

  /** More raw counts never mean a lower concentration. */
  lemma ConcentrationMonotonic(a: nat, b: nat)
    requires a <= b
    ensures Concentration(a) <= Concentration(b)
  {
  }

  /**
    The body of the read loop for one buffer: compute the checksum verdict,
    then the raw count and concentration in whichever branch is taken.
   */
  function Decode(f: Frame): (r: Reading)
    ensures r.checkSumPass <==> ToUnsignedInt(f[TrailerIndex]) == 256 - Sum17(f) % 256
    ensures r.rawCount < 0x1_0000
    ensures r.rawCount / 256 == ToUnsignedInt(f[CountHighIndex])
    ensures r.rawCount % 256 == ToUnsignedInt(f[CountLowIndex])
    ensures r.concentration * 833.0 == r.rawCount as real
  {
    var checkSum := CheckSum(f);
    if checkSum then
      var ppb := RawCount(f);
      Reading(ppb, checkSum, Concentration(ppb))
    else
      var ppb := RawCount(f);
      Reading(ppb, checkSum, Concentration(ppb))
  }

  /**
    The big-endian split is a round trip: any count below 65536 written into
    bytes 4 and 5 (high byte first) is read back unchanged.
   */
  lemma RawCountRoundTrip(f: Frame, n: nat)
    requires n < 0x1_0000
    ensures RawCount(f[CountHighIndex := NarrowToByte(n / 256)][CountLowIndex := NarrowToByte(n % 256)]) == n
  {
    var g := f[CountHighIndex := NarrowToByte(n / 256)][CountLowIndex := NarrowToByte(n % 256)];
    UnsignedNarrowRoundTrip(n / 256);
    UnsignedNarrowRoundTrip(n % 256);
    assert g[CountHighIndex] == NarrowToByte(n / 256);
  }

  /**
    The raw count depends on bytes 4 and 5 and on nothing else: two frames
    give the same count exactly when they agree on those two bytes.
   */
  lemma RawCountOnlyBytes45(f: Frame, g: Frame)
    ensures RawCount(f) == RawCount(g) <==>
              f[CountHighIndex] == g[CountHighIndex] && f[CountLowIndex] == g[CountLowIndex]
  {
    if RawCount(f) == RawCount(g) {
      NarrowUnsignedRoundTrip(f[CountHighIndex]);
      NarrowUnsignedRoundTrip(g[CountHighIndex]);
      NarrowUnsignedRoundTrip(f[CountLowIndex]);
      NarrowUnsignedRoundTrip(g[CountLowIndex]);
    }
  }

  /**
    Whether the checksum passes or fails, the count and concentration are the
    same: rewriting the trailer byte can only change the verdict.
   */
  lemma DecodeIgnoresVerdict(f: Frame, b: JByte)
    ensures Decode(f[TrailerIndex := b]).rawCount == Decode(f).rawCount == RawCount(f)
    ensures Decode(f[TrailerIndex := b]).concentration == Decode(f).concentration
  {
    RawCountOnlyBytes45(f, f[TrailerIndex := b]);
  }

  /** The unchecked start marker, byte 0, has no influence on the reading. */
  lemma DecodeIgnoresMarker(f: Frame, b: JByte)
    ensures Decode(f[0 := b]) == Decode(f)
  {
    CheckSumIgnoresMarker(f, b);
    RawCountOnlyBytes45(f, f[0 := b]);
  }

  /**
    The sensor frame `FF 00 00 00 03 41 00 00 BC` decodes to a passing reading
    of 833 raw units, 1 mg/m³; with any other trailer the verdict fails and
    the reading is the same.
   */
  lemma ExampleFrameDecodes(b: JByte)
    requires b != -68
    ensures Decode([-1, 0, 0, 0, 3, 0x41, 0, 0, -68]) == Reading(833, true, 1.0)
    ensures Decode([-1, 0, 0, 0, 3, 0x41, 0, 0, b]) == Reading(833, false, 1.0)
  {
    var f: Frame := [-1, 0, 0, 0, 3, 0x41, 0, 0, -68];
    var g: Frame := f[TrailerIndex := b];
    assert g == [-1, 0, 0, 0, 3, 0x41, 0, 0, b];
    assert Sum17(f) == 0x44 by {
      Sum17Expanded(f);
    }
    assert TrailerFor(f) == -68;
    TrailerRoundTrip(f, b);
    ExampleFramePasses();
    assert RawCount(f) == 833;
    RawCountOnlyBytes45(f, g);
    assert Concentration(833) == 1.0;
  }
}

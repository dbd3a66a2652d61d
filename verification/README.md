# Formaldehyde sensor frame decoder

A Dafny model of the frame decoder in the Android Things app `MainActivity`.
A formaldehyde sensor sends 9-byte frames over a UART. Byte 0 is a start marker, and the code never checks it.
Bytes 1..7 are the payload covered by an additive checksum. Bytes 4 and 5 hold a big-endian 16-bit raw count ("ppb"). Byte 8 is the checksum trailer.
The model covers two pieces of the source:

- `checkSum(byte[])`: it adds the unsigned payload bytes into an `int` and computes `Byte.toUnsignedInt((byte) ~sum) + 1`. It then compares that value with the unsigned trailer.
- The body of the read loop in `transferUartData`: it extracts the raw count and converts it to mg/m³. The source writes the checksum verdict beside the concentration only in its log line (:78), and the screen shows the concentration alone (:84). The model's `Reading` carries the verdict as a field.

Java's signed `byte`, its 32-bit `int`, the complement `~`, the narrowing cast `(byte)` and `Byte.toUnsignedInt` are written out in `JavaPrimitives`.
The complement is proved to act bit-wise on the low byte with `bv8` reasoning. From that follows `toUnsignedInt((byte) ~s) == 255 - s mod 256`.

The `+ 1` is applied after the unsigned conversion and is never masked to 8 bits. The expected trailer therefore lies in 1..256.
A payload that sums to a multiple of 256 expects 256, so no frame with such a payload can pass. The model keeps this behaviour.
The textbook two's-complement checksum masks the trailer to 8 bits, `(~sum + 1) & 0xFF`. That variant would accept a zero trailer in this case.
`Checksum.CheckSumVersusMasked` states exactly where the two checks differ.

The code converts the count with `ppb / 66.64 * 0.08`. Its comment at MainActivity.java:63-64 says that 0.08 mg/m³ corresponds to 66.64 ppb.
The conversion agrees with that comment. It maps 66.64 raw units to 0.08 mg/m³ and 833 raw units to exactly 1 mg/m³.

Modules: `JavaPrimitives` (java_primitives.dfy), `Frame` (frame.dfy), `Checksum` (checksum.dfy) and `Decoder` (decoder.dfy).

## Model

| member | source | states |
|---|---|---|
| `JavaPrimitives.BitNot` | app/src/main/java/com/andymao/everything/MainActivity.java:100 | Java `~` on an `int`: the low 8 bits of the result are the bit-wise complement of the low 8 bits of the operand |
| `JavaPrimitives.NarrowToByte` | app/src/main/java/com/andymao/everything/MainActivity.java:100 | the `(byte)` cast keeps the value modulo 256 and leaves values already in -128..127 unchanged |
| `JavaPrimitives.ToUnsignedInt` | app/src/main/java/com/andymao/everything/MainActivity.java:98 | `Byte.toUnsignedInt` yields 0..255 with the same bits as the byte, and a non-negative byte keeps its value |
| `JavaPrimitives.UnsignedOfComplement` | app/src/main/java/com/andymao/everything/MainActivity.java:100 | `Byte.toUnsignedInt((byte) ~s)` equals `255 - s mod 256` for every `int` `s` |
| `JavaPrimitives.NarrowUnsignedRoundTrip` | app/src/main/java/com/andymao/everything/MainActivity.java:101 | reading a byte unsigned and casting it back gives the same byte |
| `Frame.SumUnsigned` | app/src/main/java/com/andymao/everything/MainActivity.java:96-99 | the running sum of unsigned bytes over a range is at most 255 per byte, so the `int` accumulator cannot overflow |
| `Frame.Sum17` | app/src/main/java/com/andymao/everything/MainActivity.java:96-99 | the checksum's running sum over unsigned bytes 1..7 of the frame, at most 7 * 255 |
| `Frame.Sum17Expanded` | app/src/main/java/com/andymao/everything/MainActivity.java:96-99 | the checksum sum is the plain sum of unsigned bytes 1 to 7 |
| `Frame.Sum17IgnoresMarkerAndTrailer` | app/src/main/java/com/andymao/everything/MainActivity.java:97 | byte 0 and byte 8 are outside the loop range, so changing them leaves the sum unchanged |
| `Frame.Sum17CountsPayload` | app/src/main/java/com/andymao/everything/MainActivity.java:97-98 | each of bytes 1..7 is added exactly once: replacing it changes the sum by the difference of the unsigned values |
| `Checksum.ExpectedTrailer` | app/src/main/java/com/andymao/everything/MainActivity.java:100 | the expected trailer is `256 - sum mod 256` and lies in 1..256, because the `+ 1` is not masked |
| `Checksum.CheckSum` | app/src/main/java/com/andymao/everything/MainActivity.java:95-102 | the check passes exactly when the unsigned trailer plus the payload sum modulo 256 is 256 |
| `Checksum.CheckSumLoop` | app/src/main/java/com/andymao/everything/MainActivity.java:95-102 | the loop over `1 <= i < length - 1` with an `int` accumulator agrees with `CheckSum`: it returns true exactly when the unsigned trailer equals `256 - (sum of bytes 1..7) mod 256` |
| `Checksum.CheckSumIgnoresMarker` | app/src/main/java/com/andymao/everything/MainActivity.java:97-101 | the start marker byte 0 never changes the checksum verdict |
| `Checksum.ZeroSumNeverPasses` | app/src/main/java/com/andymao/everything/MainActivity.java:100-101 | a payload summing to 0 mod 256 expects trailer 256 and fails for every value of byte 8 |
| `Checksum.TrailerRoundTrip` | app/src/main/java/com/andymao/everything/MainActivity.java:96-101 | for a payload sum not divisible by 256, writing `256 - sum mod 256` into byte 8 passes, and no other trailer does |
| `Checksum.CheckSumIffWholeSum` | app/src/main/java/com/andymao/everything/MainActivity.java:96-101 | a frame passes iff bytes 1..8 sum to 0 mod 256 and the trailer is non-zero |
| `Checksum.CheckSumVersusMasked` | app/src/main/java/com/andymao/everything/MainActivity.java:100-101 | the check equals the 8-bit-masked two's-complement check except for a zero trailer, which it rejects, and that happens only when the sum is 0 mod 256 |
| `Checksum.ExampleFramePasses` | app/src/main/java/com/andymao/everything/MainActivity.java:96-101 | the frame `FF 00 00 00 03 41 00 00 BC` passes |
| `Decoder.RawCount` | app/src/main/java/com/andymao/everything/MainActivity.java:70 | the raw count is below 65536, its high byte is unsigned byte 4 and its low byte is unsigned byte 5 |
| `Decoder.RawCountRoundTrip` | app/src/main/java/com/andymao/everything/MainActivity.java:70 | any count below 65536 written big-endian into bytes 4 and 5 reads back unchanged |
| `Decoder.RawCountOnlyBytes45` | app/src/main/java/com/andymao/everything/MainActivity.java:70-75 | two frames give the same raw count iff they agree on bytes 4 and 5, so no other byte, including the trailer, affects it |
| `Decoder.Concentration` | app/src/main/java/com/andymao/everything/MainActivity.java:71 | `ppb / 66.64 * 0.08` is non-negative and is `ppb / 833` in exact arithmetic |
| `Decoder.ConcentrationMonotonic` | app/src/main/java/com/andymao/everything/MainActivity.java:76 | a larger raw count never gives a lower concentration |
| `Decoder.Decode` | app/src/main/java/com/andymao/everything/MainActivity.java:66-77 | a reading carries the checksum verdict, the big-endian count of bytes 4 and 5, and that count's concentration |
| `Decoder.DecodeIgnoresVerdict` | app/src/main/java/com/andymao/everything/MainActivity.java:68-77 | both branches compute the same count and concentration, so changing the trailer can change only the verdict |
| `Decoder.DecodeIgnoresMarker` | app/src/main/java/com/andymao/everything/MainActivity.java:68-77 | byte 0 does not affect any field of the reading |
| `Decoder.ExampleFrameDecodes` | app/src/main/java/com/andymao/everything/MainActivity.java:69-77 | `FF 00 00 00 03 41 00 00 BC` decodes to count 833 at 1 mg/m³ with a passing verdict; any other trailer gives the same reading with a failing verdict |

## Left out

- The UART read loop (`mDevice.read` at MainActivity.java:60) is device I/O. This covers the partial reads that leave stale bytes in the reused buffer, the stop on a zero-byte read, and the `IOException` handler (:89-91). The model decodes one complete 9-byte buffer.
- Device enumeration, opening, configuration (9600 baud, 8N1) and closing (:134-145, :158-165, :168-174) go through Android Things APIs, which are not part of this model.
- `HandlerThread`/`Handler` set-up, the posted runnable and the `UartDeviceCallback` re-entry (:46-52, :104-118, :126-128) are threading plumbing.
- The UI update through `runOnUiThread`/`TextView` (:80-86) and all `Log` calls are output only.
- Decoder.Concentration: computed in exact real arithmetic. It does not model the rounding of Java `double` division and multiplication.
- Checksum.CheckSumLoop: `checkSum` accepts any `byte[]`, but the model takes only 9-byte frames. The source only ever passes its 9-byte buffer.
- The unused constant `CHUNK_SIZE` and the `VERBOSE` flag have no effect on decoding.

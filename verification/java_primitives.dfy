/**
  The few Java primitive operations the frame decoder relies on, written out
  exactly: the signed 8-bit `byte`, the signed 32-bit `int`, the bitwise
  complement `~` on `int`, the narrowing cast `(byte)` and
  `Byte.toUnsignedInt`. Dafny integers are unbounded, so each width is a
  newtype here. The only wrap-around the decoder performs is the `(byte)`
  cast, written out in `NarrowToByte`. `Int32` arithmetic does not wrap;
  instead every `int` operation the decoder performs is proved to stay in
  range.
 */
module JavaPrimitives {

  /** A Java `byte`: signed, two's complement, 8 bits. */
  newtype JByte = x: int | -128 <= x < 128

  /** A Java `int`: signed, two's complement, 32 bits. */
  newtype Int32 = x: int | -0x8000_0000 <= x < 0x8000_0000

  /** The low 8 bits of the two's-complement representation of `x`. */
  function LowBits(x: int): bv8
  {
    (x % 256) as bv8
  }

  /** The low 8 bits of `x`, read as a number, are `x` modulo 256. */
  lemma LowBitsValue(x: int)
    ensures LowBits(x) as int == x % 256
  {
    var m := x % 256;
    assert (m as bv8) as int == m;
  }

  /** Two 8-bit patterns with the same numeric value are the same pattern. */
  lemma BitsInjective(a: bv8, b: bv8)
    requires a as int == b as int
    ensures a == b
  {
  }

  /** Complementing an 8-bit pattern is subtracting it from all-ones. */
  lemma ComplementByte(b: bv8)
    ensures (!b) as int == 255 - b as int
  {
  }

  /**
    Java's `~x` on an `int`. Two's complement makes it `-x - 1`, which never
    overflows; the contract states the bit-level meaning: the low 8 bits of
    the result are the complement of the low 8 bits of `x`.
   */
  function BitNot(x: Int32): (r: Int32)
    ensures LowBits(r as int) == !LowBits(x as int)
  {
    var r := (-(x as int) - 1) as Int32;
    ComplementOfLowBits(x);
    r
  }

  /** `-x - 1` leaves remainder `255 - x mod 256` on division by 256. */
  lemma {:induction false} NegateMinusOneMod(x: int)
    ensures (-x - 1) % 256 == 255 - x % 256
  {
    var q := x / 256;
    var m := x % 256;
    assert -x - 1 == 256 * (-q - 1) + (255 - m);
  }

  /** The bit-level step behind `BitNot`'s contract. */
  lemma {:induction false} ComplementOfLowBits(x: Int32)
    ensures LowBits(-(x as int) - 1) == !LowBits(x as int)
  {
    var a := LowBits(-(x as int) - 1);
    var b := LowBits(x as int);
    NegateMinusOneMod(x as int);
    LowBitsValue(-(x as int) - 1);
    LowBitsValue(x as int);
    ComplementByte(b);
    assert a as int == (!b) as int;
    BitsInjective(a, !b);
  }

  /**
    Java's narrowing cast `(byte) x`: keep the low 8 bits of `x` and read them
    as a signed byte.
   */
  function NarrowToByte(x: int): (b: JByte)
    ensures (b as int) % 256 == x % 256
    ensures -128 <= x < 128 ==> b as int == x
  {
    var u := x % 256;
    if u < 128 then u as JByte else (u - 256) as JByte
  }

  /** Java's `Byte.toUnsignedInt(b)`: the same 8 bits read as 0..255. */
  function ToUnsignedInt(b: JByte): (u: int)
    ensures 0 <= u < 256
    ensures u % 256 == (b as int) % 256
    ensures 0 <= b ==> u == b as int
  {
    if b < 0 then b as int + 256 else b as int
  }

  /** Reading a byte as unsigned and casting it back gives the same byte. */
  lemma NarrowUnsignedRoundTrip(b: JByte)
    ensures NarrowToByte(ToUnsignedInt(b)) == b
  {
  }

  /** Casting a value in 0..255 to `byte` and reading it unsigned gives it back. */
  lemma UnsignedNarrowRoundTrip(u: int)
    requires 0 <= u < 256
    ensures ToUnsignedInt(NarrowToByte(u)) == u
  {
  }

  /** `Byte.toUnsignedInt((byte) x)` is `x` modulo 256, for every `x`. */
  lemma UnsignedOfNarrow(x: int)
    ensures ToUnsignedInt(NarrowToByte(x)) == x % 256
  {
  }

  /**
    `Byte.toUnsignedInt((byte) ~s)` equals `255 - s mod 256` for every `int`
    value `s`: the cast keeps exactly the complemented low byte.
   */
  lemma {:induction false} UnsignedOfComplement(s: Int32)
    ensures ToUnsignedInt(NarrowToByte(BitNot(s) as int)) == 255 - (s as int) % 256
  {
    var n := BitNot(s);
    UnsignedOfNarrow(n as int);
    LowBitsValue(n as int);
    LowBitsValue(s as int);
    ComplementByte(LowBits(s as int));
  }
}

/** Java's fixed-width integers: the range of `int` and `byte`, wrap-around and bit patterns. */
module JavaInts {

  const TWO_32: int := 0x1_0000_0000
  const INT_MIN: int := -0x8000_0000
  const INT_MAX: int := 0x7FFF_FFFF

  /** The values of a Java `int`. */
  type int32 = x: int | -0x8000_0000 <= x < 0x8000_0000

  /** The bit pattern of a Java `int` read as unsigned, as `>>>` and `& 0xFF...` see it. */
  type uint32 = x: int | 0 <= x < 0x1_0000_0000

  /** A byte as `b & 0xFF` reads it. */
  type uint8 = x: int | 0 <= x < 0x100

  predicate InInt32(x: int) {
    INT_MIN <= x <= INT_MAX
  }

  /** The Java `int` that arithmetic producing `x` leaves behind: `x` modulo 2^32, read as signed. */
  function Wrap32(x: int): (r: int32)
    ensures (x - r) % TWO_32 == 0
    ensures InInt32(x) ==> r == x
  {
    var u := x % TWO_32;
    if u < 0x8000_0000 then u else u - TWO_32
  }

  /** Two integers that differ by a multiple of 2^32 wrap to the same Java `int`. */
  lemma Wrap32Congruent(x: int, y: int)
    requires (x - y) % TWO_32 == 0
    ensures Wrap32(x) == Wrap32(y)
  {
    var k := (x - y) / TWO_32;
    assert x == y + k * TWO_32;
    assert x % TWO_32 == y % TWO_32;
  }

  /** Wrapping an intermediate sum changes nothing: Java may wrap after every step or only at the end. */
  lemma Wrap32Add(a: int, b: int)
    ensures Wrap32(Wrap32(a) + b) == Wrap32(a + b)
  {
    var r := Wrap32(a);
    assert ((a + b) - (r + b)) % TWO_32 == 0;
    Wrap32Congruent(a + b, r + b);
  }

  /** The unsigned reading of an `int`'s bit pattern (two's complement). */
  function ToUnsigned(x: int32): (u: uint32)
    ensures x >= 0 ==> u == x
  {
    if x >= 0 then x else x + TWO_32
  }

  /** The `int` whose bit pattern, read unsigned, is `u`. */
  function FromUnsigned(u: uint32): (x: int32)
    ensures ToUnsigned(x) == u
  {
    if u <= INT_MAX then u else u - TWO_32
  }

  lemma FromToUnsigned(x: int32)
    ensures FromUnsigned(ToUnsigned(x)) == x
  {
  }

  /** Java's widening of a `byte` (signed, -128..127) to an `int`. */
  function SignedByte(b: uint8): (r: int)
    ensures -128 <= r < 128
    ensures r % 256 == b
  {
    if b < 0x80 then b else b - 0x100
  }

  /** `h & 0x7fffffff` on an `int`: the bit pattern with its sign bit cleared. */
  function ClearSignBit(h: int32): (r: int)
    ensures 0 <= r <= INT_MAX
    ensures h >= 0 ==> r == h
  {
    if h >= 0 then h else h + 0x8000_0000
  }
}

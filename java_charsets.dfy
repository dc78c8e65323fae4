/**
 * How a Java string turns into code units and bytes: its UTF-16 code units (what `length()` and
 * `hashCode()` see), `getBytes(UTF_8)`, and the modified UTF-8 of `DataOutputStream.writeUTF`
 * together with the decoder of `DataInputStream.readUTF`.
 */
module JavaCharsets {
  import opened JavaInts
  import opened Wrappers

  /** A UTF-16 code unit (a Java `char`). */
  type uint16 = x: int | 0 <= x < 0x1_0000

  // ---------------------------------------------------------------- UTF-16

  /** The code units of one character: itself, or a high and a low surrogate above 0xFFFF. */
  function Utf16Char(c: char): (r: seq<uint16>)
    ensures 1 <= |r| <= 2
    ensures |r| == 1 <==> c as int < 0x1_0000
  {
    var x := c as int;
    if x < 0x1_0000 then [x]
    else [0xD800 + (x - 0x1_0000) / 0x400, 0xDC00 + (x - 0x1_0000) % 0x400]
  }

  /** The UTF-16 code units of a string, as a Java `String` stores them. */
  function Utf16(s: string): (r: seq<uint16>)
    ensures |r| >= |s|
  {
    if s == [] then [] else Utf16Char(s[0]) + Utf16(s[1..])
  }

  /** `String.length()`: the number of UTF-16 code units. */
  function JavaLength(s: string): (n: nat)
    ensures n >= |s|
  {
    |Utf16(s)|
  }

  predicate IsHighSurrogate(u: int) { 0xD800 <= u <= 0xDBFF }
  predicate IsLowSurrogate(u: int) { 0xDC00 <= u <= 0xDFFF }

  /**
   * The string whose UTF-16 code units are `us`: a high surrogate followed by a low one makes one
   * character; a lone surrogate has no Unicode string and gives `UnpairedSurrogate`.
   */
  function FromUtf16(us: seq<uint16>): Result<string>
  {
    if us == [] then Ok([])
    else if IsHighSurrogate(us[0]) && |us| >= 2 && IsLowSurrogate(us[1]) then
      var c := (0x1_0000 + (us[0] as int - 0xD800) * 0x400 + (us[1] as int - 0xDC00)) as char;
      PrependChar(c, FromUtf16(us[2..]))
    else if IsHighSurrogate(us[0]) || IsLowSurrogate(us[0]) then Err(UnpairedSurrogate)
    else PrependChar(us[0] as char, FromUtf16(us[1..]))
  }

  function PrependChar(c: char, r: Result<string>): Result<string> {
    match r
    case Ok(s) => Ok([c] + s)
    case Err(e) => Err(e)
  }

  lemma {:induction false} FromUtf16Char(c: char, rest: seq<uint16>)
    ensures FromUtf16(Utf16Char(c) + rest) == PrependChar(c, FromUtf16(rest))
  {
    var us := Utf16Char(c) + rest;
    var x := c as int;
    if x >= 0x1_0000 {
      assert us[2..] == rest;
      assert (us[0] as int - 0xD800) * 0x400 + (us[1] as int - 0xDC00) == x - 0x1_0000;
    } else {
      assert us[1..] == rest;
    }
  }

  /** The code units of a string decode back to the string. */
  lemma {:induction false} Utf16RoundTrip(s: string)
    ensures FromUtf16(Utf16(s)) == Ok(s)
  {
    if s != [] {
      Utf16RoundTrip(s[1..]);
      FromUtf16Char(s[0], Utf16(s[1..]));
      assert s == [s[0]] + s[1..];
    }
  }

  /** `String.hashCode()`: `h = 31 * h + unit` over the code units, in `int` arithmetic. */
  function StringHash(s: string): int32 {
    HashUnits(Utf16(s), 0)
  }

  function HashUnits(us: seq<uint16>, h: int32): int32 {
    if us == [] then h else HashUnits(us[1..], Wrap32(31 * h + us[0]))
  }

  // ---------------------------------------------------------------- UTF-8

  /** `getBytes(UTF_8)` of one character: one to four bytes. */
  function Utf8Char(c: char): (r: seq<uint8>)
    ensures 1 <= |r| <= 4
  {
    var x := c as int;
    if x < 0x80 then [x]
    else if x < 0x800 then [0xC0 + x / 0x40, 0x80 + x % 0x40]
    else if x < 0x1_0000 then [0xE0 + x / 0x1000, 0x80 + (x / 0x40) % 0x40, 0x80 + x % 0x40]
    else [0xF0 + x / 0x4_0000, 0x80 + (x / 0x1000) % 0x40, 0x80 + (x / 0x40) % 0x40, 0x80 + x % 0x40]
  }

  /** `getBytes(UTF_8)`: the bytes the Bloom filter hashes. */
  function Utf8(s: string): seq<uint8> {
    if s == [] then [] else Utf8Char(s[0]) + Utf8(s[1..])
  }

  // ---------------------------------------------------------------- modified UTF-8

  /** `writeUTF`'s bytes for one code unit: 1 byte for 1..0x7F, 2 for 0 and up to 0x7FF, 3 above. */
  function ModifiedUnit(u: uint16): (r: seq<uint8>)
    ensures 1 <= |r| <= 3
  {
    if 1 <= u <= 0x7F then [u]
    else if u <= 0x7FF then [0xC0 + u / 0x40, 0x80 + u % 0x40]
    else [0xE0 + u / 0x1000, 0x80 + (u / 0x40) % 0x40, 0x80 + u % 0x40]
  }

  /** The modified UTF-8 of a list of code units. */
  function ModifiedUnits(us: seq<uint16>): seq<uint8> {
    if us == [] then [] else ModifiedUnit(us[0]) + ModifiedUnits(us[1..])
  }

  /** The modified UTF-8 of a string (without the length prefix `writeUTF` puts in front). */
  function ModifiedUtf8(s: string): seq<uint8> {
    ModifiedUnits(Utf16(s))
  }

  function PrependUnit(u: uint16, r: Result<seq<uint16>>): Result<seq<uint16>> {
    match r
    case Ok(us) => Ok([u] + us)
    case Err(e) => Err(e)
  }

  /**
   * `readUTF`'s decoding of the bytes it read: `0xxxxxxx`, `110xxxxx 10xxxxxx` and
   * `1110xxxx 10xxxxxx 10xxxxxx` give one code unit each (over-long forms included); any other lead
   * byte, a missing or wrong continuation byte is malformed input.
   */
  function DecodeModified(bytes: seq<uint8>): Result<seq<uint16>>
    decreases |bytes|
  {
    if bytes == [] then Ok([])
    else
      var c: int := bytes[0];
      if c / 0x10 <= 7 then PrependUnit(c, DecodeModified(bytes[1..]))
      else if c / 0x10 == 12 || c / 0x10 == 13 then
        if |bytes| < 2 || bytes[1] / 0x40 != 2 then Err(UtfDataFormat)
        else PrependUnit((c % 0x20) * 0x40 + bytes[1] % 0x40, DecodeModified(bytes[2..]))
      else if c / 0x10 == 14 then
        if |bytes| < 3 || bytes[1] / 0x40 != 2 || bytes[2] / 0x40 != 2 then Err(UtfDataFormat)
        else PrependUnit((c % 0x10) * 0x1000 + (bytes[1] as int % 0x40) * 0x40 + bytes[2] % 0x40, DecodeModified(bytes[3..]))
      else Err(UtfDataFormat)
  }

  lemma {:induction false} DecodeModifiedUnit(u: uint16, rest: seq<uint8>)
    ensures DecodeModified(ModifiedUnit(u) + rest) == PrependUnit(u, DecodeModified(rest))
  {
    if 1 <= u <= 0x7F {
      assert (ModifiedUnit(u) + rest)[1..] == rest;
    } else if u <= 0x7FF {
      DecodeTwoBytes(u, rest);
    } else {
      DecodeThreeBytes(u, rest);
    }
  }

  lemma DecodeTwoBytes(u: uint16, rest: seq<uint8>)
    requires u <= 0x7FF && !(1 <= u <= 0x7F)
    ensures DecodeModified(ModifiedUnit(u) + rest) == PrependUnit(u, DecodeModified(rest))
  {
    var b0: uint8 := 0xC0 + u / 0x40;
    var b1: uint8 := 0x80 + u % 0x40;
    var bs := [b0, b1] + rest;
    assert ModifiedUnit(u) + rest == bs;
    assert bs[2..] == rest;
    assert b0 / 0x10 == 12 || b0 / 0x10 == 13;
    assert b1 / 0x40 == 2;
    assert (b0 as int % 0x20) * 0x40 + b1 % 0x40 == u by {
      assert b0 as int % 0x20 == u / 0x40;
      assert (u / 0x40) * 0x40 + u % 0x40 == u;
    }
  }

  lemma DecodeThreeBytes(u: uint16, rest: seq<uint8>)
    requires u > 0x7FF
    ensures DecodeModified(ModifiedUnit(u) + rest) == PrependUnit(u, DecodeModified(rest))
  {
    var b0: uint8 := 0xE0 + u / 0x1000;
    var b1: uint8 := 0x80 + (u / 0x40) % 0x40;
    var b2: uint8 := 0x80 + u % 0x40;
    var bs := [b0, b1, b2] + rest;
    assert ModifiedUnit(u) + rest == bs;
    assert bs[3..] == rest;
    assert b0 / 0x10 == 14;
    assert b1 / 0x40 == 2 && b2 / 0x40 == 2;
    assert (b0 as int % 0x10) * 0x1000 + (b1 as int % 0x40) * 0x40 + b2 % 0x40 == u by {
      assert b0 as int % 0x10 == u / 0x1000;
      assert b1 as int % 0x40 == (u / 0x40) % 0x40;
      assert (u / 0x1000) * 0x1000 + ((u / 0x40) % 0x40) * 0x40 + u % 0x40 == u;
    }
  }

  /** `readUTF` decodes what `writeUTF` encoded. */
  lemma {:induction false} ModifiedRoundTrip(us: seq<uint16>)
    ensures DecodeModified(ModifiedUnits(us)) == Ok(us)
  {
    if us != [] {
      ModifiedRoundTrip(us[1..]);
      DecodeModifiedUnit(us[0], ModifiedUnits(us[1..]));
      assert us == [us[0]] + us[1..];
    }
  }

  /** A string comes back unchanged from its modified UTF-8. */
  lemma StringRoundTrip(s: string)
    ensures DecodeModified(ModifiedUtf8(s)) == Ok(Utf16(s))
    ensures FromUtf16(Utf16(s)) == Ok(s)
  {
    ModifiedRoundTrip(Utf16(s));
    Utf16RoundTrip(s);
  }
}

/**
 * The postings codec: each 32-bit number is written as groups of 7 bits, lowest group first,
 * and the high bit (0x80) marks the LAST byte of a number (the reverse of LEB128's convention,
 * where the high bit marks a continuation).
 *
 * Java's bit operations are stated arithmetically on the unsigned reading of an `int`:
 * `n & 0x7F` is `n % 128`, `n >>>= 7` is `n / 128`, `b | 0x80` is `b + 128` for `b < 128`,
 * `x << s` is `x * 2^(s & 31)` modulo 2^32, and `|` is `BitOr`.
 */
module VarByteCodec {
  import opened JavaInts

  /** 2^k. */
  function Pow2(k: nat): (r: nat)
    ensures r >= 1
  {
    if k == 0 then 1 else 2 * Pow2(k - 1)
  }

  lemma {:induction false} Pow2Add(a: nat, b: nat)
    ensures Pow2(a + b) == Pow2(a) * Pow2(b)
  {
    if a > 0 {
      Pow2Add(a - 1, b);
      assert Pow2(a + b) == 2 * Pow2(a - 1 + b);
    }
  }

  /** The powers of two the codec's shifts reach. */
  lemma Pow2Values()
    ensures Pow2(7) == 0x80 && Pow2(14) == 0x4000 && Pow2(21) == 0x20_0000
    ensures Pow2(28) == 0x1000_0000 && Pow2(32) == TWO_32 && Pow2(35) == 0x8_0000_0000
  {
    assert Pow2(4) == 16;
    assert Pow2(7) == 0x80;
    Pow2Add(7, 7);
    Pow2Add(14, 7);
    Pow2Add(21, 7);
    Pow2Add(28, 4);
    Pow2Add(28, 7);
  }

  /** Bitwise OR of two non-negative integers. */
  function BitOr(a: nat, b: nat): nat
    decreases a + b
  {
    if a == 0 then b
    else if b == 0 then a
    else (if a % 2 == 1 || b % 2 == 1 then 1 else 0) + 2 * BitOr(a / 2, b / 2)
  }

  /** OR never sets a bit at or above the highest bit of its operands. */
  lemma {:induction false} BitOrBelow(a: nat, b: nat, k: nat)
    requires a < Pow2(k) && b < Pow2(k)
    ensures BitOr(a, b) < Pow2(k)
    decreases k
  {
    if a != 0 && b != 0 {
      assert k > 0;
      BitOrBelow(a / 2, b / 2, k - 1);
    }
  }

  /** OR of two numbers whose bits do not overlap is their sum. */
  lemma {:induction false} BitOrDisjoint(a: nat, c: nat, s: nat)
    requires a < Pow2(s)
    ensures BitOr(a, c * Pow2(s)) == a + c * Pow2(s)
    decreases s
  {
    if a != 0 && c != 0 {
      assert s > 0;
      var h := c * Pow2(s - 1);
      assert c * Pow2(s) == 2 * h;
      BitOrDisjoint(a / 2, c, s - 1);
      assert BitOr(a, 2 * h) == a % 2 + 2 * BitOr(a / 2, h);
    }
  }

  /** Java's `a | b` on two `int` bit patterns. */
  function Or32(a: uint32, b: uint32): uint32
  {
    BitOr(a, b) % TWO_32  // no-op: OR of two 32-bit patterns has no bit above bit 31 (BitOrBelow)
  }

  /** The reduction modulo 2^32 in `Or32` never changes the value. */
  lemma Or32IsBitOr(a: uint32, b: uint32)
    ensures Or32(a, b) == BitOr(a, b)
  {
    Pow2Values();
    BitOrBelow(a, b, 32);
  }

  /** Java's `x << s` on an `int` bit pattern: the shift distance is `s & 31`, high bits fall off. */
  function ShiftLeft(x: uint32, s: int): uint32
  {
    (x * Pow2(s % 32)) % TWO_32
  }

  // ---------------------------------------------------------------- encoding

  /**
   * The bytes of one number (its unsigned bit pattern `u`): low 7-bit group first; every byte
   * but the last has the high bit clear, the last has it set.
   */
  function EncodeNumber(u: uint32): (r: seq<uint8>)
    ensures |r| >= 1
    ensures forall i :: 0 <= i < |r| ==> (r[i] >= 0x80 <==> i == |r| - 1)
    decreases u
  {
    var b := u % 0x80;
    if u / 0x80 == 0 then [b + 0x80] else [b] + EncodeNumber(u / 0x80)
  }

  /** The bytes `encode` writes for a list of Java `int`s. */
  function Encoded(xs: seq<int32>): seq<uint8>
  {
    if xs == [] then [] else EncodeNumber(ToUnsigned(xs[0])) + Encoded(xs[1..])
  }

  /** Encoding distributes over concatenation. */
  lemma {:induction false} EncodedConcat(xs: seq<int32>, ys: seq<int32>)
    ensures Encoded(xs + ys) == Encoded(xs) + Encoded(ys)
  {
    if xs != [] {
      var h := EncodeNumber(ToUnsigned(xs[0]));
      assert (xs + ys)[0] == xs[0] && (xs + ys)[1..] == xs[1..] + ys;
      assert Encoded(xs + ys) == h + Encoded(xs[1..] + ys);
      EncodedConcat(xs[1..], ys);
      assert h + (Encoded(xs[1..]) + Encoded(ys)) == (h + Encoded(xs[1..])) + Encoded(ys);
    } else {
      assert xs + ys == ys;
    }
  }

  /** A number below 2^(7k) takes at most k bytes. */
  lemma {:induction false} EncodeNumberAtMost(u: uint32, k: nat)
    requires k >= 1
    requires u < Pow2(7 * k)
    ensures |EncodeNumber(u)| <= k
  {
    if u / 0x80 != 0 {
      Pow2Values();
      assert u >= 0x80;
      assert k != 1 by {
        assert Pow2(7 * 1) == 0x80;
      }
      Pow2Add(7, 7 * (k - 1));
      assert Pow2(7 * k) == 0x80 * Pow2(7 * (k - 1));
      EncodeNumberAtMost(u / 0x80, k - 1);
    }
  }

  /** Every 32-bit number takes between one and five bytes. */
  lemma NumberLength(x: int32)
    ensures 1 <= |EncodeNumber(ToUnsigned(x))| <= 5
  {
    Pow2Values();
    EncodeNumberAtMost(ToUnsigned(x), 5);
  }

  /** Small numbers: any v < 128 (0 included) is the single byte v | 0x80. */
  lemma SmallNumber(x: int32)
    requires 0 <= x < 0x80
    ensures Encoded([x]) == [x + 0x80]
  {
  }

  // ---------------------------------------------------------------- decoding

  /**
   * What `decode` emits for the bytes still to come, with accumulator `n` and shift counter `shift`:
   * a byte with the high bit set completes a number; any other byte adds its 7 bits at `shift`.
   */
  function DecodeFrom(bytes: seq<uint8>, n: uint32, shift: int32): seq<int32>
  {
    if bytes == [] then []
    else if bytes[0] >= 0x80 then
      [FromUnsigned(Or32(n, ShiftLeft(bytes[0] % 0x80, shift)))] + DecodeFrom(bytes[1..], 0, 0)
    else
      DecodeFrom(bytes[1..], Or32(n, ShiftLeft(bytes[0], shift)), Wrap32(shift + 7))
  }

  /** The list `decode` returns. */
  function Decoded(bytes: seq<uint8>): seq<int32>
  {
    DecodeFrom(bytes, 0, 0)
  }

  /** The number of bytes with the high bit set. */
  function CountMarked(bytes: seq<uint8>): nat
  {
    if bytes == [] then 0 else (if bytes[0] >= 0x80 then 1 else 0) + CountMarked(bytes[1..])
  }

  /** Decoding emits exactly one number per byte with the high bit set. */
  lemma {:induction false} DecodeCount(bytes: seq<uint8>, n: uint32, shift: int32)
    ensures |DecodeFrom(bytes, n, shift)| == CountMarked(bytes)
  {
    if bytes != [] {
      if bytes[0] >= 0x80 {
        DecodeCount(bytes[1..], 0, 0);
      } else {
        DecodeCount(bytes[1..], Or32(n, ShiftLeft(bytes[0], shift)), Wrap32(shift + 7));
      }
    }
  }

  /** A run of bytes none of which has the high bit set decodes to nothing: it is dropped. */
  lemma {:induction false} UnterminatedRunDropped(tail: seq<uint8>, n: uint32, shift: int32)
    requires forall i :: 0 <= i < |tail| ==> tail[i] < 0x80
    ensures DecodeFrom(tail, n, shift) == []
  {
    if tail != [] {
      UnterminatedRunDropped(tail[1..], Or32(n, ShiftLeft(tail[0], shift)), Wrap32(shift + 7));
    }
  }

  /** The shift distances a well-formed number reaches: 0, 7, 14, 21, 28 bits, and the powers they give. */
  lemma GroupShift(j: nat)
    requires j <= 4
    ensures (7 * j) % 32 == 7 * j
    ensures Pow2(7 * j) in {1, 0x80, 0x4000, 0x20_0000, 0x1000_0000}
    ensures j < 4 ==> Pow2(7 * (j + 1)) == 0x80 * Pow2(7 * j)
    ensures j == 4 ==> Pow2(7 * j) == 0x1000_0000
  {
    Pow2Values();
    if j < 4 {
      Pow2Add(7 * j, 7);
    }
  }

  /** Arithmetic of one 7-bit group with the weight `p` of its position given as a number. */
  lemma GroupArith(u: uint32, n: nat, p: nat, last: bool)
    requires p in {1, 0x80, 0x4000, 0x20_0000, 0x1000_0000}
    requires n < p
    requires u * p < TWO_32
    requires last ==> p == 0x1000_0000
    ensures n + u * p < TWO_32
    ensures (u % 0x80) * p < TWO_32
    ensures last ==> u / 0x80 == 0
    ensures n + (u % 0x80) * p < 0x80 * p
    ensures (u / 0x80) * (0x80 * p) + (u % 0x80) * p == u * p
  {
    var b := u % 0x80;
    var q := u / 0x80;
    assert u == 0x80 * q + b;
    assert u * p == (0x80 * q + b) * p == q * (0x80 * p) + b * p;
    assert b * p <= u * p;
    assert n + b * p < p + b * p == (b + 1) * p <= 0x80 * p;
    if p == 0x1000_0000 {
      assert u < 16;
    } else if p == 0x20_0000 {
      assert u < 0x800;
    } else if p == 0x4000 {
      assert u < 0x4_0000;
    } else if p == 0x80 {
      assert u < 0x200_0000;
    }
  }

  /** One 7-bit group `u % 128` of `u`, placed at bit `7 j` above the bits `n` already decoded. */
  lemma LowGroup(u: uint32, n: uint32, j: nat)
    requires j <= 4
    requires n < Pow2(7 * j)
    requires u * Pow2(7 * j) < TWO_32
    ensures Or32(n, ShiftLeft(u % 0x80, 7 * j)) == n + (u % 0x80) * Pow2(7 * j)
    ensures n + u * Pow2(7 * j) < TWO_32
    ensures u / 0x80 != 0 ==> j < 4
    ensures j < 4 ==> n + (u % 0x80) * Pow2(7 * j) < Pow2(7 * (j + 1))
    ensures j < 4 ==> (u / 0x80) * Pow2(7 * (j + 1)) + (u % 0x80) * Pow2(7 * j) == u * Pow2(7 * j)
  {
    GroupShift(j);
    GroupArith(u, n, Pow2(7 * j), j == 4);
    PlaceGroup(n, u % 0x80, j);
  }

  /** A group below the 32-bit limit, shifted into place above `n`, is simply added. */
  lemma PlaceGroup(n: uint32, b: nat, j: nat)
    requires j <= 4
    requires n < Pow2(7 * j)
    requires b * Pow2(7 * j) < TWO_32
    ensures Or32(n, ShiftLeft(b, 7 * j)) == n + b * Pow2(7 * j)
  {
    GroupShift(j);
    var p := Pow2(7 * j);
    assert ShiftLeft(b, 7 * j) == b * p by {
      assert (7 * j) % 32 == 7 * j;
      assert 0 <= b * p < TWO_32;
    }
    Or32IsBitOr(n, b * p);
    BitOrDisjoint(n, b, 7 * j);
  }

  /**
   * Decoding one encoded number that starts at bit `7 j`, with the lower bits already in the
   * accumulator, completes the number `n + u * 2^(7 j)`.
   */
  lemma {:induction false} DecodeEncodedNumber(u: uint32, rest: seq<uint8>, n: uint32, j: nat)
    requires j <= 4
    requires n < Pow2(7 * j)
    requires u * Pow2(7 * j) < TWO_32
    ensures n + u * Pow2(7 * j) < TWO_32
    ensures DecodeFrom(EncodeNumber(u) + rest, n, 7 * j)
         == [FromUnsigned(n + u * Pow2(7 * j))] + DecodeFrom(rest, 0, 0)
    decreases 4 - j
  {
    LowGroup(u, n, j);
    if u / 0x80 == 0 {
      LastGroup(u, rest, n, j);
    } else {
      var acc := n + (u % 0x80) * Pow2(7 * j);
      InnerGroup(u, rest, n, j);
      DecodeEncodedNumber(u / 0x80, rest, acc, j + 1);
      assert acc + (u / 0x80) * Pow2(7 * (j + 1)) == n + u * Pow2(7 * j);
    }
  }

  /** The last group of a number carries the end marker and emits the number. */
  lemma LastGroup(u: uint32, rest: seq<uint8>, n: uint32, j: nat)
    requires j <= 4 && u / 0x80 == 0
    requires n < Pow2(7 * j)
    requires u * Pow2(7 * j) < TWO_32
    ensures n + u * Pow2(7 * j) < TWO_32
    ensures DecodeFrom(EncodeNumber(u) + rest, n, 7 * j)
         == [FromUnsigned(n + u * Pow2(7 * j))] + DecodeFrom(rest, 0, 0)
  {
    LowGroup(u, n, j);
    EncodeNumberStep(u);
    assert u % 0x80 == u;
    var bytes := EncodeNumber(u) + rest;
    assert bytes == [u + 0x80] + rest;
    assert bytes[0] >= 0x80 && bytes[0] % 0x80 == u && bytes[1..] == rest;
  }

  /** A group before the last one adds its bits to the accumulator and moves the shift on by 7. */
  lemma InnerGroup(u: uint32, rest: seq<uint8>, n: uint32, j: nat)
    requires j < 4 && u / 0x80 != 0
    ensures DecodeFrom(EncodeNumber(u) + rest, n, 7 * j)
         == DecodeFrom(EncodeNumber(u / 0x80) + rest, Or32(n, ShiftLeft(u % 0x80, 7 * j)), 7 * (j + 1))
  {
    var bytes := EncodeNumber(u) + rest;
    assert EncodeNumber(u) == [u % 0x80] + EncodeNumber(u / 0x80);
    assert bytes[0] == u % 0x80 && bytes[1..] == EncodeNumber(u / 0x80) + rest;
    assert Wrap32(7 * j + 7) == 7 * (j + 1);
  }

  /** Decoding what `encode` wrote, followed by any bytes, gives the list back and then decodes the bytes. */
  lemma {:induction false} DecodeEncodedThen(xs: seq<int32>, tail: seq<uint8>)
    ensures Decoded(Encoded(xs) + tail) == xs + Decoded(tail)
  {
    if xs != [] {
      var u := ToUnsigned(xs[0]);
      assert Encoded(xs) + tail == EncodeNumber(u) + (Encoded(xs[1..]) + tail);
      GroupShift(0);
      DecodeEncodedNumber(u, Encoded(xs[1..]) + tail, 0, 0);
      FromToUnsigned(xs[0]);
      DecodeEncodedThen(xs[1..], tail);
      assert xs == [xs[0]] + xs[1..];
    } else {
      assert Encoded(xs) + tail == tail;
    }
  }

  /** The round trip: decoding what `encode` wrote gives back the list, negative numbers included. */
  lemma RoundTrip(xs: seq<int32>)
    ensures Decoded(Encoded(xs)) == xs
  {
    DecodeEncodedThen(xs, []);
    assert Encoded(xs) + [] == Encoded(xs);
  }

  /** Bytes after the last complete number that never reach a terminator are silently dropped. */
  lemma TrailingRunDropped(xs: seq<int32>, tail: seq<uint8>)
    requires forall i :: 0 <= i < |tail| ==> tail[i] < 0x80
    ensures Decoded(Encoded(xs) + tail) == xs
  {
    DecodeEncodedThen(xs, tail);
    UnterminatedRunDropped(tail, 0, 0);
  }

  /** Encoding one more number appends its groups. */
  lemma EncodedSnoc(xs: seq<int32>, x: int32)
    ensures Encoded(xs + [x]) == Encoded(xs) + EncodeNumber(ToUnsigned(x))
  {
    assert Encoded([x]) == EncodeNumber(ToUnsigned(x)) + Encoded([]);
    EncodedConcat(xs, [x]);
  }

  // ---------------------------------------------------------------- the Java methods

  /** `encode`: for each number, emit its 7-bit groups. */
  method Encode(numbers: seq<int32>) returns (bytes: seq<uint8>)
    ensures bytes == Encoded(numbers)
  {
    bytes := [];
    for i := 0 to |numbers|
      invariant bytes == Encoded(numbers[..i])
    {
      var groups := EncodeOne(ToUnsigned(numbers[i]));
      bytes := bytes + groups;
      assert numbers[..i + 1] == numbers[..i] + [numbers[i]];
      EncodedSnoc(numbers[..i], numbers[i]);
    }
    assert numbers[..|numbers|] == numbers;
  }

  /** The inner loop of `encode`: emit `n & 0x7F` and shift until what is left after `>>>= 7` is zero. */
  method EncodeOne(u: uint32) returns (bytes: seq<uint8>)
    ensures bytes == EncodeNumber(u)
  {
    bytes := [];
    var n := u;
    ghost var target := EncodeNumber(u);
    while true
      invariant bytes + EncodeNumber(n) == target
      decreases n
    {
      var b: uint8 := n % 0x80;
      ghost var before := n;
      n := n / 0x80;
      EncodeNumberStep(before);
      if n == 0 {
        bytes := bytes + [b + 0x80];
        return;
      }
      bytes := bytes + [b];
    }
  }


  /** The first group of a number and what follows it. */
  lemma EncodeNumberStep(n: uint32)
    ensures n / 0x80 == 0 ==> EncodeNumber(n) == [n % 0x80 + 0x80]
    ensures n / 0x80 != 0 ==> EncodeNumber(n) == [n % 0x80] + EncodeNumber(n / 0x80) && n / 0x80 < n
  {
  }

  /** `decode`: accumulate 7-bit groups; a byte with the high bit set emits the number and resets. */
  method Decode(bytes: seq<uint8>) returns (out: seq<int32>)
    ensures out == Decoded(bytes)
  {
    out := [];
    var n: uint32 := 0;
    var shift: int32 := 0;
    for i := 0 to |bytes|
      invariant out + DecodeFrom(bytes[i..], n, shift) == Decoded(bytes)
    {
      assert bytes[i..][1..] == bytes[i + 1..];
      var b := bytes[i];
      if b >= 0x80 {
        n := Or32(n, ShiftLeft(b % 0x80, shift));
        out := out + [FromUnsigned(n)];
        n := 0;
        shift := 0;
      } else {
        n := Or32(n, ShiftLeft(b, shift));
        shift := Wrap32(shift + 7);
      }
    }
  }

  /** `intsToBytes` is `encode`. */
  method IntsToBytes(ints: seq<int32>) returns (bytes: seq<uint8>)
    ensures bytes == Encoded(ints)
  {
    bytes := Encode(ints);
  }

  /** `bytesToInts` is `decode`. */
  method BytesToInts(bytes: seq<uint8>) returns (ints: seq<int32>)
    ensures ints == Decoded(bytes)
  {
    ints := Decode(bytes);
  }
}

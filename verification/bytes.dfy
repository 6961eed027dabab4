/**
 * Bytes and the fixed-width big-endian packing done by Python's `struct.pack`
 * with the `>` (big-endian, standard size) formats the encoder uses:
 * `c` (one byte), `B` (unsigned 8-bit), `H` (unsigned 16-bit),
 * `l` (signed 32-bit) and `q` (signed 64-bit). A value outside a format's
 * range makes `struct.pack` raise; here the packer returns `None`.
 */
module Bytes {
  import opened Wrappers

  newtype uint8 = x: int | 0 <= x < 0x100

  type bytes = seq<uint8>

  /** The byte of an ASCII character, as `b'I'` is in the source. */
  function Byte(c: char): (b: uint8)
    requires c as int < 0x80
    ensures b as int == c as int
  {
    c as int as uint8
  }

  predicate IsAsciiText(s: string) {
    forall i | 0 <= i < |s| :: s[i] as int < 0x80
  }

  /** The bytes of an ASCII string literal such as `'int'` or `'string'`. */
  function Ascii(s: string): (r: bytes)
    requires IsAsciiText(s)
    ensures |r| == |s|
  {
    seq(|s|, i requires 0 <= i < |s| && IsAsciiText(s) => Byte(s[i]))
  }

  /** 256 to the power `width`: the number of values a `width`-byte field holds. */
  function Pow256(width: nat): (p: nat)
    ensures p > 0
  {
    if width == 0 then 1 else 256 * Pow256(width - 1)
  }

  /** The `width`-byte big-endian representation of `n`. */
  function BigEndian(n: nat, width: nat): (r: bytes)
    requires n < Pow256(width)
    ensures |r| == width
    decreases width
  {
    if width == 0 then []
    else BigEndian(n / 256, width - 1) + [(n % 256) as uint8]
  }

  /** The number a big-endian byte sequence denotes; the inverse of `BigEndian`. */
  function FromBigEndian(s: bytes): (n: nat)
    ensures n < Pow256(|s|)
  {
    if |s| == 0 then 0
    else FromBigEndian(s[..|s| - 1]) * 256 + s[|s| - 1] as int
  }

  lemma {:induction false} FromBigEndianOfBigEndian(n: nat, width: nat)
    requires n < Pow256(width)
    ensures FromBigEndian(BigEndian(n, width)) == n
    decreases width
  {
    if width > 0 {
      var r := BigEndian(n, width);
      var prefix := BigEndian(n / 256, width - 1);
      assert r[..|r| - 1] == prefix;
      FromBigEndianOfBigEndian(n / 256, width - 1);
    }
  }

  lemma {:induction false} BigEndianOfFromBigEndian(s: bytes)
    ensures BigEndian(FromBigEndian(s), |s|) == s
  {
    if |s| > 0 {
      var prefix := s[..|s| - 1];
      var n := FromBigEndian(s);
      assert n / 256 == FromBigEndian(prefix);
      assert n % 256 == s[|s| - 1] as int;
      BigEndianOfFromBigEndian(prefix);
      assert s == prefix + [s[|s| - 1]];
    }
  }

  /** Two's complement of `x` in a field of `width` bytes. */
  function TwosComplement(x: int, width: nat): nat
    requires InSignedRange(x, width)
  {
    if x < 0 then x + Pow256(width) else x
  }

  predicate InSignedRange(x: int, width: nat) {
    -(Pow256(width) as int) <= 2 * x < Pow256(width)
  }

  /** The signed number a big-endian two's-complement field denotes. */
  function SignedValue(s: bytes): (x: int)
    ensures InSignedRange(x, |s|)
  {
    var u := FromBigEndian(s);
    if 2 * u >= Pow256(|s|) then u - Pow256(|s|) else u
  }

  /** `struct.pack` of a signed field of `width` bytes; `None` when `x` is out of range. */
  function PackSigned(x: int, width: nat): (r: Option<bytes>)
    ensures r.Some? <==> InSignedRange(x, width)
    ensures r.Some? ==> |r.value| == width && SignedValue(r.value) == x
  {
    if InSignedRange(x, width) then
      var n := TwosComplement(x, width);
      FromBigEndianOfBigEndian(n, width);
      Some(BigEndian(n, width))
    else None
  }

  /** `struct.pack` of an unsigned field of `width` bytes; `None` when `x` is out of range. */
  function PackUnsigned(x: int, width: nat): (r: Option<bytes>)
    ensures r.Some? <==> 0 <= x < Pow256(width)
    ensures r.Some? ==> |r.value| == width && FromBigEndian(r.value) == x
  {
    if 0 <= x < Pow256(width) then
      FromBigEndianOfBigEndian(x, width);
      Some(BigEndian(x, width))
    else None
  }

  /** Format `B`. */
  function PackU8(x: int): Option<bytes> {
    PackUnsigned(x, 1)
  }

  /** Format `H`. */
  function PackU16(x: int): Option<bytes> {
    PackUnsigned(x, 2)
  }

  /** Format `l`. */
  function PackI32(x: int): Option<bytes> {
    PackSigned(x, 4)
  }

  /** Format `q`. */
  function PackI64(x: int): Option<bytes> {
    PackSigned(x, 8)
  }

  lemma PackWidths()
    ensures Pow256(1) == 0x100
    ensures Pow256(2) == 0x1_0000
    ensures Pow256(4) == 0x1_0000_0000
    ensures Pow256(8) == 0x1_0000_0000_0000_0000
  {
  }

  /** `pack('>cH', tag, n)`: a tag byte and a 16-bit big-endian count. */
  function TagU16(tag: uint8, n: nat): (r: bytes)
    requires n < 0x1_0000
    ensures |r| == 3 && r[0] == tag
    ensures FromBigEndian(r[1..]) == n
  {
    PackWidths();
    FromBigEndianOfBigEndian(n, 2);
    [tag] + BigEndian(n, 2)
  }
}

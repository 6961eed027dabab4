/**
 * The byte layouts of the individual Hessian 1.0.2 rules (the serialization
 * and call sections of the Hessian 1.0 specification): one function per
 * `encode_*` method of the encoder that does not itself recurse into other
 * values, plus the frames the recursive rules wrap around their members'
 * encodings, the call frame among them.
 */
module Wire {
  import opened Wrappers
  import opened Bytes
  import Utf8
  import opened Chunking
  import opened Values

  /** A `struct.pack` result, with a refused value raising `struct.error`. */
  function Packed(o: Option<bytes>): Result<bytes, Error> {
    match o
    case Some(b) => Success(b)
    case None => Failure(PackOutOfRange)
  }

  /** `encode_null`: `N`, whatever the value. */
  function EncodeNull(): bytes {
    [Byte('N')]
  }

  /** `encode_boolean`. */
  function EncodeBoolean(b: bool): bytes {
    if b then [Byte('T')] else [Byte('F')]
  }

  /** `encode_int`: `pack('>cl', b'I', value)`. */
  function EncodeInt(i: int): Result<bytes, Error> {
    var n :- Packed(PackI32(i));
    Success([Byte('I')] + n)
  }

  /** `encode_long`: `pack('>cq', b'L', value)`. */
  function EncodeLong(l: int): Result<bytes, Error> {
    var n :- Packed(PackI64(l));
    Success([Byte('L')] + n)
  }

  /** `encode_double`: `pack('>cd', b'D', value)`, given the float's bit pattern. */
  function EncodeDouble(bits: Binary64): bytes {
    PackWidths();
    [Byte('D')] + BigEndian(bits, 8)
  }

  /** `encode_date`: whole UTC seconds times 1000, packed as `>cq` after `d`. */
  function EncodeDate(seconds: int): Result<bytes, Error> {
    var n :- Packed(PackI64(seconds * 1000));
    Success([Byte('d')] + n)
  }

  /** A code byte followed by a packed signed field reads back as the number packed. */
  lemma TaggedSigned(code: uint8, x: int, width: nat)
    ensures Packed(PackSigned(x, width)).Success? <==> InSignedRange(x, width)
    ensures InSignedRange(x, width) ==>
              var r := [code] + PackSigned(x, width).value;
              |r| == width + 1 && r[0] == code && SignedValue(r[1..]) == x
  {
    if InSignedRange(x, width) {
      var r := [code] + PackSigned(x, width).value;
      assert r[1..] == PackSigned(x, width).value;
    }
  }

  /** A date is `d` and eight bytes holding a whole number of milliseconds, or `struct.error` beyond 64 bits. */
  lemma DateLayout(seconds: int)
    ensures EncodeDate(seconds).Success? <==> -0x8000_0000_0000_0000 <= seconds * 1000 < 0x8000_0000_0000_0000
    ensures EncodeDate(seconds).Failure? ==> EncodeDate(seconds).error == PackOutOfRange
    ensures EncodeDate(seconds).Success? ==>
              var r := EncodeDate(seconds).value;
              && |r| == 9 && r[0] == Byte('d')
              && SignedValue(r[1..]) == seconds * 1000
              && SignedValue(r[1..]) % 1000 == 0
  {
    PackWidths();
    var millis := seconds * 1000;
    assert millis % 1000 == 0;
    TaggedSigned(Byte('d'), millis, 8);
  }

  /** `encode_unicode`: chunks counted in characters, payloads in UTF-8. */
  function EncodeUnicode(text: seq<Utf8.CodePoint>): bytes {
    Chunked(Byte('s'), Byte('S'), text, Utf8.Encode)
  }

  predicate IsAscii(data: bytes) {
    forall i | 0 <= i < |data| :: data[i] < 0x80
  }

  /**
   * `encode_string`: a byte string that `encode('ascii')` refuses raises;
   * otherwise its bytes are chunked with the text tags.
   */
  function EncodeString(data: bytes): Result<bytes, Error> {
    if !IsAscii(data) then Failure(NonAsciiString)
    else Success(Chunked(Byte('s'), Byte('S'), data, Raw))
  }

  /** `encode_binary`: the blob's bytes chunked with `b` and `B`. */
  function EncodeBinary(data: bytes): bytes {
    Chunked(Byte('b'), Byte('B'), data, Raw)
  }

  /** `encode_list`: `V`, `l`, the length -1 ("unknown"), the members, `z`. */
  function ListFrame(members: bytes): bytes {
    PackWidths();
    [Byte('V'), Byte('l')] + PackI32(-1).value + members + [Byte('z')]
  }

  /** `encode_tuple`: as a list, but with the member count as length. */
  function TupleFrame(count: int, members: bytes): Result<bytes, Error> {
    var n :- Packed(PackI32(count));
    Success([Byte('V'), Byte('l')] + n + members + [Byte('z')])
  }

  /** A tuple frame: `V l`, the count as a signed 32-bit field, the members, `z`; `struct.error` beyond 32 bits. */
  lemma TupleFrameLayout(count: nat, members: bytes)
    ensures TupleFrame(count, members).Success? <==> count < 0x8000_0000
    ensures TupleFrame(count, members).Failure? ==> TupleFrame(count, members).error == PackOutOfRange
    ensures TupleFrame(count, members).Success? ==>
              var r := TupleFrame(count, members).value;
              && |r| == 7 + |members|
              && r[..2] == [Byte('V'), Byte('l')]
              && SignedValue(r[2..6]) == count
              && r[6..|r| - 1] == members
              && r[|r| - 1] == Byte('z')
  {
    PackWidths();
    if count < 0x8000_0000 {
      var n := PackI32(count).value;
      var r := [Byte('V'), Byte('l')] + n + members + [Byte('z')];
      assert TupleFrame(count, members) == Success(r);
      assert r[2..6] == n;
      assert r[6..|r| - 1] == members;
    }
  }

  /** `encode_map`: `M`, the key/value encodings, `z`. */
  function MapFrame(pairs: bytes): bytes {
    [Byte('M')] + pairs + [Byte('z')]
  }

  /** `'.'.join([module, name])`. */
  function QualifiedName(moduleName: bytes, name: bytes): bytes {
    moduleName + [Byte('.')] + name
  }

  /** The type part of `encode_mobject`: `t`, a 16-bit length, the qualified class name. */
  function ObjectType(moduleName: bytes, name: bytes): Result<bytes, Error> {
    var qualified := QualifiedName(moduleName, name);
    var n :- Packed(PackU16(|qualified|));
    Success([Byte('t')] + n + qualified)
  }

  /** `encode_mobject` around an already encoded type part and field pairs. */
  function ObjectFrame(objectType: bytes, pairs: bytes): bytes {
    [Byte('M')] + objectType + pairs + [Byte('z')]
  }

  /**
   * `encode_remote` as evidently intended: `r`, `t`, a 16-bit length, the
   * type name, then the bytes `encode_string` produces for the URL.
   */
  function EncodeRemote(typeName: bytes, url: bytes): Result<bytes, Error> {
    var encoded :- EncodeString(url);
    var n :- Packed(PackU16(|typeName|));
    Success([Byte('r'), Byte('t')] + n + typeName + encoded)
  }

  /**
   * `encode_remote` as written: `self.encode_string` is the tagging wrapper,
   * so it yields the pair `('string', bytes)`, and adding that tuple to the
   * byte string built from the header and type name raises TypeError.
   */
  function EncodeRemoteAsWritten(typeName: bytes, url: bytes): Result<bytes, Error> {
    var encoded :- EncodeString(url);
    var n :- Packed(PackU16(|typeName|));
    // Both steps succeeded: the header bytes plus the pair `('string', encoded)` is `str + tuple`.
    Failure(ConcatenationTypeError)
  }

  /**
   * `encode_remote` as written never returns: it raises what the corrected
   * rule raises, and where the corrected rule succeeds it raises TypeError.
   */
  lemma RemoteAsWrittenRaises(typeName: bytes, url: bytes)
    ensures EncodeRemoteAsWritten(typeName, url).Failure?
    ensures EncodeRemote(typeName, url).Failure? ==>
              EncodeRemoteAsWritten(typeName, url) == EncodeRemote(typeName, url)
    ensures EncodeRemote(typeName, url).Success? ==>
              EncodeRemoteAsWritten(typeName, url) == Failure(ConcatenationTypeError)
  {
  }

  /**
   * A remote whose type name and URL are short and ASCII: the corrected rule
   * writes it, the rule as written raises TypeError.
   */
  lemma RemoteCounterexample()
    ensures EncodeRemote([Byte('S')], [Byte('u')]).Success?
    ensures EncodeRemoteAsWritten([Byte('S')], [Byte('u')]) == Failure(ConcatenationTypeError)
  {
    PackWidths();
    assert IsAscii([Byte('u')]);
  }

  /**
   * The corrected `encode_remote`: `r`, `t`, the type name's 16-bit length,
   * the type name and the URL's string encoding. A non-ASCII URL raises
   * first; then a type name too long for its length field.
   */
  lemma RemoteLayout(typeName: bytes, url: bytes)
    ensures EncodeRemote(typeName, url).Success? <==> IsAscii(url) && |typeName| < 0x1_0000
    ensures !IsAscii(url) ==> EncodeRemote(typeName, url) == Failure(NonAsciiString)
    ensures IsAscii(url) && |typeName| >= 0x1_0000 ==> EncodeRemote(typeName, url) == Failure(PackOutOfRange)
    ensures EncodeRemote(typeName, url).Success? ==>
              var r := EncodeRemote(typeName, url).value;
              && |r| >= 4 + |typeName|
              && r[..2] == [Byte('r'), Byte('t')]
              && FromBigEndian(r[2..4]) == |typeName|
              && r[4..4 + |typeName|] == typeName
              && r[4 + |typeName|..] == EncodeString(url).value
  {
    PackWidths();
    if IsAscii(url) && |typeName| < 0x1_0000 {
      var n := PackU16(|typeName|).value;
      var r := EncodeRemote(typeName, url).value;
      assert r == [Byte('r'), Byte('t')] + n + typeName + EncodeString(url).value;
      assert r[2..4] == n;
      assert r[4..4 + |typeName|] == typeName;
    }
  }

  /**
   * The call frame: `c`, the major version, minor version 0, the header
   * blocks, `m`, a 16-bit length, the method name, the arguments, `z`.
   */
  function CallFrame(version: int, headers: bytes, methodName: bytes, arguments: bytes): Result<bytes, Error> {
    var v :- Packed(PackU8(version));
    var n :- Packed(PackU16(|methodName|));
    Success([Byte('c')] + v + [0] + headers + [Byte('m')] + n + methodName + arguments + [Byte('z')])
  }

  /** The call frame packs the version as an unsigned byte and the name's length as 16 bits. */
  lemma CallFrameLayout(version: int, headers: bytes, methodName: bytes, arguments: bytes)
    ensures CallFrame(version, headers, methodName, arguments).Success? <==>
              0 <= version < 0x100 && |methodName| < 0x1_0000
    ensures CallFrame(version, headers, methodName, arguments).Failure? ==>
              CallFrame(version, headers, methodName, arguments).error == PackOutOfRange
    ensures CallFrame(version, headers, methodName, arguments).Success? ==>
              CallFrame(version, headers, methodName, arguments).value
              == [Byte('c'), version as uint8, 0] + headers + [Byte('m')]
                 + BigEndian(|methodName|, 2) + methodName + arguments + [Byte('z')]
  {
    PackWidths();
    if 0 <= version < 0x100 && |methodName| < 0x1_0000 {
      CallFrameBytes(version, headers, methodName, arguments);
    }
  }

  /** In range, the frame's version field is the single byte `version`. */
  lemma CallFrameBytes(version: int, headers: bytes, methodName: bytes, arguments: bytes)
    requires 0 <= version < 0x100 && |methodName| < 0x1_0000
    ensures CallFrame(version, headers, methodName, arguments).value
              == [Byte('c'), version as uint8, 0] + headers + [Byte('m')]
                 + BigEndian(|methodName|, 2) + methodName + arguments + [Byte('z')]
  {
    CallFrameFields(version, headers, methodName, arguments);
    VersionByte(version);
    var head := [Byte('c')] + PackU8(version).value + [0];
    assert head == [Byte('c'), version as uint8, 0];
    assert PackU16(|methodName|).value == BigEndian(|methodName|, 2);
  }

  /** In range, the frame is its packed fields joined in order. */
  lemma CallFrameFields(version: int, headers: bytes, methodName: bytes, arguments: bytes)
    requires 0 <= version < 0x100 && |methodName| < 0x1_0000
    ensures PackU8(version).Some? && PackU16(|methodName|).Some?
    ensures CallFrame(version, headers, methodName, arguments).value
              == [Byte('c')] + PackU8(version).value + [0] + headers + [Byte('m')]
                 + PackU16(|methodName|).value + methodName + arguments + [Byte('z')]
  {
    PackWidths();
  }

  /** `pack('>B', version)` is the byte itself. */
  lemma VersionByte(version: int)
    requires 0 <= version < 0x100
    ensures PackU8(version) == Some([version as uint8])
  {
    PackWidths();
    assert BigEndian(version, 1) == BigEndian(version / 256, 0) + [(version % 256) as uint8];
  }
}

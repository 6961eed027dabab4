/**
 * What `encode_arg` produces for the values that are not composites: the
 * dispatch outcome (which rule runs, which tag it carries), the fixed-width
 * scalar layouts, and the chunked layouts of text, byte strings and binaries
 * read back through `Chunking.ParseChunks`.
 */
module ScalarRules {
  import opened Wrappers
  import opened Bytes
  import Utf8
  import opened Chunking
  import opened PyTypes
  import opened Values
  import opened Wire
  import opened Encoder

  /** An instance of a class with no registration raises TypeError naming its class. */
  lemma UnsupportedValue(table: Table, className: bytes)
    requires WellFormedTable(table)
    ensures EncodeArg(table, Other(className)) == Failure(UnsupportedType(OtherClass(className)))
    ensures Encode(table, Other(className)) == Failure(UnsupportedType(OtherClass(className)))
  {
    Dispatched(table, Other(className));
  }

  /** `None` is `N`, tagged `null`. */
  lemma NullEncoding(table: Table)
    requires WellFormedTable(table)
    ensures EncodeArg(table, Null) == Success((Tag(NoneType), [Byte('N')]))
  {
    LeafDispatched(table, Null);
  }

  /**
   * A bool is an `int` subclass, yet it is always written as the single
   * byte `T` or `F` tagged `bool`, never as a five-byte `I` integer.
   */
  lemma BooleanEncoding(table: Table, b: bool)
    requires WellFormedTable(table)
    ensures EncodeArg(table, Bool(b)).Success?
    ensures EncodeArg(table, Bool(b)).value.0 == Tag(BoolType)
    ensures EncodeArg(table, Bool(b)).value.1 == [if b then Byte('T') else Byte('F')]
  {
    LeafDispatched(table, Bool(b));
  }

  /**
   * An `int` is `I` and four big-endian two's-complement bytes that denote
   * it; outside the 32-bit range `struct.pack` raises.
   */
  lemma IntEncoding(table: Table, i: int)
    requires WellFormedTable(table)
    ensures EncodeArg(table, Int(i)).Success? <==> -0x8000_0000 <= i < 0x8000_0000
    ensures EncodeArg(table, Int(i)).Failure? ==> EncodeArg(table, Int(i)).error == PackOutOfRange
    ensures EncodeArg(table, Int(i)).Success? ==>
              var (tag, r) := EncodeArg(table, Int(i)).value;
              && tag == Tag(IntType)
              && |r| == 5 && r[0] == Byte('I') && SignedValue(r[1..]) == i
  {
    LeafDispatched(table, Int(i));
    PackWidths();
    TaggedSigned(Byte('I'), i, 4);
  }

  /** A `long` is `L` and eight bytes denoting it; outside 64 bits `struct.pack` raises. */
  lemma LongEncoding(table: Table, l: int)
    requires WellFormedTable(table)
    ensures EncodeArg(table, Long(l)).Success? <==> -0x8000_0000_0000_0000 <= l < 0x8000_0000_0000_0000
    ensures EncodeArg(table, Long(l)).Failure? ==> EncodeArg(table, Long(l)).error == PackOutOfRange
    ensures EncodeArg(table, Long(l)).Success? ==>
              var (tag, r) := EncodeArg(table, Long(l)).value;
              && tag == Tag(LongType)
              && |r| == 9 && r[0] == Byte('L') && SignedValue(r[1..]) == l
  {
    LeafDispatched(table, Long(l));
    PackWidths();
    TaggedSigned(Byte('L'), l, 8);
  }

  /** A float is `D` and its eight-byte IEEE-754 pattern, most significant byte first. */
  lemma DoubleEncoding(table: Table, bits: Binary64)
    requires WellFormedTable(table)
    ensures EncodeArg(table, Double(bits)).Success?
    ensures var (tag, r) := EncodeArg(table, Double(bits)).value;
            && tag == Tag(FloatType)
            && |r| == 9 && r[0] == Byte('D') && FromBigEndian(r[1..]) == bits
  {
    LeafDispatched(table, Double(bits));
    PackWidths();
    var r := EncodeDouble(bits);
    assert r[1..] == BigEndian(bits, 8);
    FromBigEndianOfBigEndian(bits, 8);
  }

  /**
   * A datetime is `d` and eight bytes holding its whole seconds since the
   * epoch times 1000, so the millisecond field is always a multiple of 1000.
   */
  lemma DateEncoding(table: Table, seconds: int)
    requires WellFormedTable(table)
    ensures EncodeArg(table, Date(seconds)).Success? <==>
              -0x8000_0000_0000_0000 <= seconds * 1000 < 0x8000_0000_0000_0000
    ensures EncodeArg(table, Date(seconds)).Failure? ==> EncodeArg(table, Date(seconds)).error == PackOutOfRange
    ensures EncodeArg(table, Date(seconds)).Success? ==>
              var (tag, r) := EncodeArg(table, Date(seconds)).value;
              && tag == Tag(DateTimeType)
              && |r| == 9 && r[0] == Byte('d')
              && SignedValue(r[1..]) == seconds * 1000
              && SignedValue(r[1..]) % 1000 == 0
  {
    LeafDispatched(table, Date(seconds));
    DateLayout(seconds);
  }

  /**
   * Text is chunked by characters: reading the bytes back gives chunks of
   * the documented shape for `|text|` characters, their payloads are the
   * UTF-8 encoding of the whole text, and decoding them gives the text back.
   */
  lemma UnicodeEncoding(table: Table, text: seq<Utf8.CodePoint>)
    requires WellFormedTable(table)
    ensures var r := EncodeArg(table, Text(text));
            && r.Success? && r.value.0 == Tag(UnicodeType)
            && var cs := ParseChunks(r.value.1, Byte('s'), Byte('S'), CharUnit);
               && cs.Some?
               && WellChunked(cs.value, Byte('s'), Byte('S'), |text|)
               && Payloads(cs.value) == Utf8.Encode(text)
               && Utf8.Decode(Payloads(cs.value)) == Some(text)
  {
    LeafDispatched(table, Text(text));
    TextChunks(Byte('s'), Byte('S'), text);
  }

  /** Some byte of a byte string lies outside 0x00-0x7f. */
  predicate HasHighByte(data: bytes) {
    exists i | 0 <= i < |data| :: data[i] >= 0x80
  }

  /**
   * A byte string is refused exactly when it is not ASCII. Otherwise it is
   * chunked by bytes with the text tags; the payloads are its bytes, and the
   * terminal count, which the source computes by decoding the remainder as
   * UTF-8, is the number of bytes that remainder holds.
   */
  lemma StringEncoding(table: Table, data: bytes)
    requires WellFormedTable(table)
    ensures EncodeArg(table, Str(data)).Failure? <==> HasHighByte(data)
    ensures EncodeArg(table, Str(data)).Failure? ==> EncodeArg(table, Str(data)).error == NonAsciiString
    ensures EncodeArg(table, Str(data)).Success? ==>
              && EncodeArg(table, Str(data)).value.0 == Tag(StrType)
              && var cs := ParseChunks(EncodeArg(table, Str(data)).value.1, Byte('s'), Byte('S'), ByteUnit);
                 && cs.Some?
                 && WellChunked(cs.value, Byte('s'), Byte('S'), |data|)
                 && Payloads(cs.value) == data
                 && var final := cs.value[|cs.value| - 1];
                    && Utf8.Decode(final.payload).Some?
                    && final.count == |Utf8.Decode(final.payload).value|
  {
    LeafDispatched(table, Str(data));
    StringLayout(data);
  }

  /** `encode_string` on its own: refused exactly when not ASCII, otherwise chunked by bytes. */
  lemma StringLayout(data: bytes)
    ensures EncodeString(data).Failure? <==> HasHighByte(data)
    ensures EncodeString(data).Failure? ==> EncodeString(data).error == NonAsciiString
    ensures EncodeString(data).Success? ==>
              var cs := ParseChunks(EncodeString(data).value, Byte('s'), Byte('S'), ByteUnit);
              && cs.Some?
              && WellChunked(cs.value, Byte('s'), Byte('S'), |data|)
              && Payloads(cs.value) == data
              && var final := cs.value[|cs.value| - 1];
                 && Utf8.Decode(final.payload).Some?
                 && final.count == |Utf8.Decode(final.payload).value|
  {
    if IsAscii(data) {
      var encoded := Chunked(Byte('s'), Byte('S'), data, Raw);
      ByteChunks(Byte('s'), Byte('S'), data);
      FinalPayloadIsAscii(ParseChunks(encoded, Byte('s'), Byte('S'), ByteUnit).value, data);
    }
  }

  /**
   * The terminal chunk of well-chunked byte input has as many payload bytes
   * as its count, so when the input is ASCII its payload decodes to exactly
   * `count` characters.
   */
  lemma {:induction false} FinalPayloadIsAscii(cs: seq<Chunk>, data: bytes)
    requires IsAscii(data)
    requires |cs| >= 1 && Payloads(cs) == data
    requires forall i | 0 <= i < |cs| :: |cs[i].payload| == cs[i].count
    ensures Utf8.Decode(cs[|cs| - 1].payload).Some?
    ensures cs[|cs| - 1].count == |Utf8.Decode(cs[|cs| - 1].payload).value|
  {
    var final := cs[|cs| - 1].payload;
    PayloadsSuffix(cs);
    assert data[|data| - |final|..] == final;
    assert forall i | 0 <= i < |final| :: final[i] == data[|data| - |final| + i];
    Utf8.DecodeAscii(final);
  }

  /** The last chunk's payload ends the concatenated payloads. */
  lemma {:induction false} PayloadsSuffix(cs: seq<Chunk>)
    requires |cs| >= 1
    ensures |Payloads(cs)| >= |cs[|cs| - 1].payload|
    ensures Payloads(cs)[|Payloads(cs)| - |cs[|cs| - 1].payload|..] == cs[|cs| - 1].payload
  {
    if |cs| > 1 {
      PayloadsSuffix(cs[1..]);
      assert cs[1..][|cs[1..]| - 1] == cs[|cs| - 1];
    }
  }

  /**
   * A remote reference, as the rule evidently intends it: `r`, `t`, the type
   * name's 16-bit length, the type name, then the URL written as a byte
   * string, whose chunks read back to the URL. A non-ASCII URL raises before
   * the type name's length is packed.
   */
  lemma RemoteEncoding(table: Table, typeName: bytes, url: bytes)
    requires WellFormedTable(table)
    ensures EncodeArg(table, Remote(typeName, url)).Success? <==> IsAscii(url) && |typeName| < 0x1_0000
    ensures HasHighByte(url) ==> EncodeArg(table, Remote(typeName, url)) == Failure(NonAsciiString)
    ensures IsAscii(url) && |typeName| >= 0x1_0000 ==>
              EncodeArg(table, Remote(typeName, url)) == Failure(PackOutOfRange)
    ensures EncodeArg(table, Remote(typeName, url)).Success? ==>
              var (tag, r) := EncodeArg(table, Remote(typeName, url)).value;
              && tag == Tag(RemoteType)
              && |r| >= 4 + |typeName|
              && r[..2] == [Byte('r'), Byte('t')]
              && FromBigEndian(r[2..4]) == |typeName|
              && r[4..4 + |typeName|] == typeName
              && var cs := ParseChunks(r[4 + |typeName|..], Byte('s'), Byte('S'), ByteUnit);
                 && cs.Some? && WellChunked(cs.value, Byte('s'), Byte('S'), |url|)
                 && Payloads(cs.value) == url
  {
    LeafDispatched(table, Remote(typeName, url));
    RemoteLayout(typeName, url);
    if IsAscii(url) {
      ByteChunks(Byte('s'), Byte('S'), url);
    }
  }

  /** A binary is chunked by bytes with `b` and `B`; the payloads are its bytes. */
  lemma BinaryEncoding(table: Table, data: bytes)
    requires WellFormedTable(table)
    ensures EncodeArg(table, Binary(data)).Success?
    ensures EncodeArg(table, Binary(data)).value.0 == Tag(BinaryType)
    ensures var cs := ParseChunks(EncodeArg(table, Binary(data)).value.1, Byte('b'), Byte('B'), ByteUnit);
            && cs.Some?
            && WellChunked(cs.value, Byte('b'), Byte('B'), |data|)
            && Payloads(cs.value) == data
            && forall i | 0 <= i < |cs.value| :: |cs.value[i].payload| == cs.value[i].count
  {
    LeafDispatched(table, Binary(data));
    ByteChunks(Byte('b'), Byte('B'), data);
  }
}

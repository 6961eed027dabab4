/**
 * Concrete byte layouts of single rules, spelled out byte by byte, and the
 * tags the overloaded-call example needs.
 */
module WireScenarios {
  import opened Wrappers
  import opened Bytes
  import opened Chunking
  import opened Wire
  import opened Joins

  /** A number below 256 packs as zero bytes followed by itself. */
  lemma {:induction false} SmallBigEndian(n: nat, width: nat)
    requires 0 < width && n < 256
    ensures n < Pow256(width)
    ensures BigEndian(n, width) == seq(width - 1, _ => 0) + [n as uint8]
  {
    if width > 1 {
      SmallBigEndian(0, width - 1);
      assert seq(width - 2, _ => 0 as uint8) + [0] == seq(width - 1, _ => 0);
    }
  }

  /** An int below 256 is `I`, three zero bytes and the int. */
  lemma SmallIntBytes(n: nat)
    requires n < 256
    ensures EncodeInt(n) == Success([Byte('I'), 0, 0, 0, n as uint8])
  {
    PackWidths();
    SmallBigEndian(n, 4);
    assert seq(3, _ => 0 as uint8) == [0, 0, 0];
    assert BigEndian(n, 4) == [0, 0, 0, n as uint8];
    assert PackI32(n) == Some([0, 0, 0, n as uint8]);
    assert [Byte('I')] + [0, 0, 0, n as uint8] == [Byte('I'), 0, 0, 0, n as uint8];
  }

  /** The one-byte string `a` is `S 00 01 a`. */
  lemma KeyBytes()
    ensures EncodeString([Byte('a')]) == Success([Byte('S'), 0, 1, Byte('a')])
  {
    assert IsAscii([Byte('a')]);
    PackWidths();
    SmallBigEndian(1, 2);
    assert seq(1, _ => 0 as uint8) == [0];
    assert BigEndian(1, 2) == [0, 1];
    assert TagU16(Byte('S'), 1) == [Byte('S'), 0, 1];
    assert Chunked(Byte('s'), Byte('S'), [Byte('a')], Raw) == TagU16(Byte('S'), 1) + Raw([Byte('a')]);
    assert [Byte('S'), 0, 1] + [Byte('a')] == [Byte('S'), 0, 1, Byte('a')];
  }

  /** The frame of the empty list. */
  lemma EmptyListBytes()
    ensures [Byte('V'), Byte('l'), 0xff, 0xff, 0xff, 0xff] + Flatten([]) + [Byte('z')]
            == [Byte('V'), Byte('l'), 0xff, 0xff, 0xff, 0xff, Byte('z')]
  {
    assert Flatten([]) == [];
  }

  /** The frame of a map with one pair, the key `a` and the value `1`. */
  lemma SingletonMapBytes()
    ensures [Byte('M')] + Flatten([[Byte('S'), 0, 1, Byte('a')] + [Byte('I'), 0, 0, 0, 1]]) + [Byte('z')]
            == [Byte('M'), Byte('S'), 0, 1, Byte('a'), Byte('I'), 0, 0, 0, 1, Byte('z')]
  {
    var pair := [Byte('S'), 0, 1, Byte('a')] + [Byte('I'), 0, 0, 0, 1];
    assert Flatten([pair]) == pair;
  }

  /** `foo`, the method of the overloaded-call example. */
  function Foo(): bytes {
    [Byte('f'), Byte('o'), Byte('o')]
  }

  /** `foo_int_string`, the name it is sent under. */
  function FooIntString(): bytes {
    [Byte('f'), Byte('o'), Byte('o'), Byte('_'), Byte('i'), Byte('n'), Byte('t'),
     Byte('_'), Byte('s'), Byte('t'), Byte('r'), Byte('i'), Byte('n'), Byte('g')]
  }

  /** The whole call `foo_int_string(1, 'a')`, version 1, without headers. */
  function FooCall(): bytes {
    [Byte('c'), 1, 0, Byte('m'), 0, 14] + FooIntString()
    + [Byte('I'), 0, 0, 0, 1, Byte('S'), 0, 1, Byte('a'), Byte('z')]
  }

  /** The call frame of the example, from its parts. */
  lemma FooCallBytes()
    ensures |FooIntString()| < 0x1_0000
    ensures [Byte('c'), 1 as uint8, 0] + Flatten([]) + [Byte('m')] + BigEndian(|FooIntString()|, 2) + FooIntString()
            + Flatten([[Byte('I'), 0, 0, 0, 1], [Byte('S'), 0, 1, Byte('a')]]) + [Byte('z')]
            == FooCall()
  {
    SmallBigEndian(14, 2);
    assert seq(1, _ => 0 as uint8) == [0];
    assert BigEndian(14, 2) == [0, 14];
    assert Flatten([]) == [];
    var args := [[Byte('I'), 0, 0, 0, 1], [Byte('S'), 0, 1, Byte('a')]];
    assert Flatten(args) == args[0] + Flatten(args[1..]);
    assert Flatten(args[1..]) == args[1];
    assert Flatten(args) == [Byte('I'), 0, 0, 0, 1, Byte('S'), 0, 1, Byte('a')];
  }

  /** `-1` is `I FF FF FF FF`: the two's-complement pattern. */
  lemma MinusOneBytes()
    ensures EncodeInt(-1) == Success([Byte('I'), 0xff, 0xff, 0xff, 0xff])
  {
    PackWidths();
    assert BigEndian(0xffff_ffff, 4) == [0xff, 0xff, 0xff, 0xff];
    assert PackI32(-1) == Some([0xff, 0xff, 0xff, 0xff]);
    assert [Byte('I')] + [0xff, 0xff, 0xff, 0xff] == [Byte('I'), 0xff, 0xff, 0xff, 0xff];
  }
}

/**
 * Concrete encodings through the encoder: the same bytes whatever
 * well-formed table it runs on, the sorted registrations included.
 */
module Scenarios {
  import opened Wrappers
  import opened Bytes
  import opened Chunking
  import opened PyTypes
  import opened Values
  import opened Wire
  import opened Encoder
  import opened CompositeRules
  import opened CallRules
  import opened Joins
  import opened WireScenarios

  /** `42` is `I 00 00 00 2A`. */
  lemma FortyTwo(table: Table)
    requires WellFormedTable(table)
    ensures Encode(table, Int(42)) == Success([Byte('I'), 0, 0, 0, 42])
  {
    LeafDispatched(table, Int(42));
    SmallIntBytes(42);
  }

  /** `encode_object(42)`. */
  lemma FortyTwoObject()
    ensures EncodeObject(Int(42)) == Success([Byte('I'), 0, 0, 0, 42])
  {
    RegistryFacts();
    FortyTwo(Registry());
  }

  /** `-1` is `I FF FF FF FF`. */
  lemma MinusOne(table: Table)
    requires WellFormedTable(table)
    ensures Encode(table, Int(-1)) == Success([Byte('I'), 0xff, 0xff, 0xff, 0xff])
  {
    LeafDispatched(table, Int(-1));
    MinusOneBytes();
  }

  /** The empty list is `V l FF FF FF FF z`: a list never carries its length. */
  lemma EmptyList(table: Table)
    requires WellFormedTable(table)
    ensures Encode(table, List([])) == Success([Byte('V'), Byte('l'), 0xff, 0xff, 0xff, 0xff, Byte('z')])
  {
    ListEncoding(table, []);
    assert Encodings(table, []) == [];
    EmptyListBytes();
  }

  /** `{'a': 1}` is `M`, the key as a one-byte string, the value as an int, `z`. */
  lemma SingletonMap(table: Table)
    requires WellFormedTable(table)
    ensures Encode(table, Dict([Field(Str([Byte('a')]), Int(1))]))
            == Success([Byte('M'), Byte('S'), 0, 1, Byte('a'), Byte('I'), 0, 0, 0, 1, Byte('z')])
  {
    var entries := [Field(Str([Byte('a')]), Int(1))];
    SingletonPair(table);
    assert AllFieldsEncode(table, entries);
    MapEncoding(table, entries);
    assert PairEncodings(table, entries) == [[Byte('S'), 0, 1, Byte('a')] + [Byte('I'), 0, 0, 0, 1]];
    SingletonMapBytes();
  }

  lemma SingletonPair(table: Table)
    requires WellFormedTable(table)
    ensures Encode(table, Str([Byte('a')])) == Success([Byte('S'), 0, 1, Byte('a')])
    ensures Encode(table, Int(1)) == Success([Byte('I'), 0, 0, 0, 1])
  {
    LetterArg(table);
    OneArg(table);
  }

  /** `1` is `I 00 00 00 01`, tagged `int`. */
  lemma OneArg(table: Table)
    requires WellFormedTable(table)
    ensures EncodeArg(table, Int(1)) == Success((Tag(IntType), [Byte('I'), 0, 0, 0, 1]))
  {
    LeafDispatched(table, Int(1));
    SmallIntBytes(1);
  }

  /** The str `'a'` is `S 00 01 a`, tagged `string`. */
  lemma LetterArg(table: Table)
    requires WellFormedTable(table)
    ensures EncodeArg(table, Str([Byte('a')])) == Success((Tag(StrType), [Byte('S'), 0, 1, Byte('a')]))
  {
    LeafDispatched(table, Str([Byte('a')]));
    KeyBytes();
  }

  /** 65535 units fit one terminal chunk; one more needs a full chunk and a terminal chunk of one. */
  lemma ChunkBoundary(cs: seq<Chunk>, ds: seq<Chunk>)
    requires WellChunked(cs, Byte('b'), Byte('B'), 65535)
    requires WellChunked(ds, Byte('b'), Byte('B'), 65536)
    ensures |cs| == 1 && cs[0].tag == Byte('B') && cs[0].count == 65535
    ensures |ds| == 2 && ds[0].tag == Byte('b') && ds[0].count == 65535 && ds[1].tag == Byte('B') && ds[1].count == 1
  {
    ChunkCount(cs, Byte('b'), Byte('B'), 65535);
    ChunkCount(ds, Byte('b'), Byte('B'), 65536);
  }

  /** The tags the overloaded-call example mangles into the method name. */
  lemma CallTags()
    ensures Tag(IntType) == [Byte('i'), Byte('n'), Byte('t')]
    ensures Tag(StrType) == [Byte('s'), Byte('t'), Byte('r'), Byte('i'), Byte('n'), Byte('g')]
  {
  }

  /** `foo` overloaded on an int and a str is sent as `foo_int_string`. */
  lemma FooMangled()
    ensures Mangled(Foo(), [Tag(IntType), Tag(StrType)]) == FooIntString()
  {
    CallTags();
    var tags := [Tag(IntType), Tag(StrType)];
    var parts := Suffixes(tags);
    assert Flatten(parts) == parts[0] + Flatten(parts[1..]);
    assert Flatten(parts[1..]) == parts[1];
  }

  /** The two arguments of the example, as `encode_arg` gives them. */
  lemma FooArguments(table: Table)
    requires WellFormedTable(table)
    ensures ArgOutcomes(table, [Int(1), Str([Byte('a')])])
            == [Success((Tag(IntType), [Byte('I'), 0, 0, 0, 1])), Success((Tag(StrType), [Byte('S'), 0, 1, Byte('a')]))]
  {
    LetterArg(table);
    OneArg(table);
  }

  /** The example's arguments both encode; the name gains their tags and the frame their bytes. */
  lemma FooParts(table: Table)
    requires WellFormedTable(table)
    ensures var v := Call(Foo(), [Int(1), Str([Byte('a')])], [], 1, true);
            && AllArgsSucceed(ArgOutcomes(table, v.args))
            && SentName(table, v) == FooIntString()
            && ArgBytes(ArgOutcomes(table, v.args)) == [[Byte('I'), 0, 0, 0, 1], [Byte('S'), 0, 1, Byte('a')]]
            && AllHeadersEncode(table, v.headers)
            && HeaderBlocks(table, v.headers) == []
  {
    FooArguments(table);
    TwoArgs((Tag(IntType), [Byte('I'), 0, 0, 0, 1]), (Tag(StrType), [Byte('S'), 0, 1, Byte('a')]));
    FooMangled();
  }

  /** Two outcomes that succeed, taken apart. */
  lemma TwoArgs(a: (bytes, bytes), b: (bytes, bytes))
    ensures AllArgsSucceed([Success(a), Success(b)])
    ensures ArgTags([Success(a), Success(b)]) == [a.0, b.0]
    ensures ArgBytes([Success(a), Success(b)]) == [a.1, b.1]
  {
  }

  /** `foo_int_string(1, 'a')`: the name carries the argument tags, the arguments follow untagged. */
  lemma OverloadedCall(table: Table)
    requires WellFormedTable(table)
    ensures Encode(table, Call(Foo(), [Int(1), Str([Byte('a')])], [], 1, true)) == Success(FooCall())
  {
    FooParts(table);
    FooCallBytes();
    CallEncoding(table, Call(Foo(), [Int(1), Str([Byte('a')])], [], 1, true));
  }
}

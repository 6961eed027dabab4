/**
 * The length-bounded chunking loop shared by the text, byte-string and binary
 * rules: while more than 65535 units remain, a continuation chunk of exactly
 * 65535 units is written; then one terminal chunk carries what is left,
 * possibly nothing. Each chunk is a tag byte, a 16-bit big-endian unit count
 * and the payload bytes of those units.
 */
module Chunking {
  import opened Wrappers
  import opened Bytes
  import Utf8

  /** The largest count a 16-bit chunk header holds. */
  const MaxChunk: nat := 65535

  /** One chunk as read back from the wire. */
  datatype Chunk = Chunk(tag: uint8, count: nat, payload: bytes)

  /** What a chunk header counts: raw bytes, or UTF-8 characters. */
  datatype Unit = ByteUnit | CharUnit

  /** The number of payload bytes that `count` units occupy at the front of `data`. */
  function Span(unit: Unit, data: bytes, count: nat): (r: Option<nat>)
    ensures r.Some? ==> r.value <= |data|
  {
    match unit
    case ByteUnit => if count <= |data| then Some(count) else None
    case CharUnit => Utf8.CharSpan(data, count)
  }

  /**
   * The chunk loop: `more` tags continuation chunks, `last` the terminal
   * chunk, and `payload` turns a run of units into the bytes written.
   */
  function Chunked<U>(more: uint8, last: uint8, value: seq<U>, payload: seq<U> -> bytes): bytes
    decreases |value|
  {
    if |value| > MaxChunk then
      TagU16(more, MaxChunk) + payload(value[..MaxChunk])
      + Chunked(more, last, value[MaxChunk..], payload)
    else
      TagU16(last, |value|) + payload(value)
  }

  /** The same loop written as the source writes it, accumulating into a buffer. */
  method ChunkLoop<U>(more: uint8, last: uint8, value: seq<U>, payload: seq<U> -> bytes)
    returns (encoded: bytes)
    ensures encoded == Chunked(more, last, value, payload)
  {
    encoded := [];
    var rest := value;
    while |rest| > MaxChunk
      invariant encoded + Chunked(more, last, rest, payload) == Chunked(more, last, value, payload)
      decreases |rest|
    {
      var head := TagU16(more, MaxChunk) + payload(rest[..MaxChunk]);
      assert Chunked(more, last, rest, payload) == head + Chunked(more, last, rest[MaxChunk..], payload);
      encoded := encoded + head;
      rest := rest[MaxChunk..];
    }
    encoded := encoded + (TagU16(last, |rest|) + payload(rest));
  }

  /**
   * Reads chunks back: each header's count and `unit` locate the payload;
   * reading stops at the first `last` chunk, which must end the data.
   */
  function ParseChunks(data: bytes, more: uint8, last: uint8, unit: Unit): Option<seq<Chunk>>
    decreases |data|
  {
    if |data| < 3 then None
    else
      var tag := data[0];
      var count := FromBigEndian(data[1..3]);
      var body := data[3..];
      match Span(unit, body, count)
      case None => None
      case Some(n) =>
        if tag == last then
          if n == |body| then Some([Chunk(tag, count, body)]) else None
        else if tag == more then
          match ParseChunks(body[n..], more, last, unit)
          case None => None
          case Some(rest) => Some([Chunk(tag, count, body[..n])] + rest)
        else None
  }

  function SumCounts(cs: seq<Chunk>): nat {
    if |cs| == 0 then 0 else cs[0].count + SumCounts(cs[1..])
  }

  /** The payloads with the headers dropped. */
  function Payloads(cs: seq<Chunk>): bytes {
    if |cs| == 0 then [] else cs[0].payload + Payloads(cs[1..])
  }

  /**
   * The chunk shape of an input of `n` units: continuation chunks of exactly
   * 65535 units, then exactly one terminal chunk of at most 65535 units that
   * is empty only for empty input, the counts adding up to `n`.
   */
  predicate WellChunked(cs: seq<Chunk>, more: uint8, last: uint8, n: nat) {
    && |cs| >= 1
    && (forall i | 0 <= i < |cs| - 1 :: cs[i].tag == more && cs[i].count == MaxChunk)
    && cs[|cs| - 1].tag == last
    && cs[|cs| - 1].count <= MaxChunk
    && (cs[|cs| - 1].count == 0 <==> n == 0)
    && SumCounts(cs) == n
  }

  /** `unit` measures every payload exactly, whatever bytes follow it. */
  ghost predicate SpanExact<U(!new)>(unit: Unit, payload: seq<U> -> bytes) {
    forall part: seq<U>, rest: bytes :: Span(unit, payload(part) + rest, |part|) == Some(|payload(part)|)
  }

  /** Encoding a concatenation concatenates the encodings. */
  ghost predicate Homomorphic<U(!new)>(payload: seq<U> -> bytes) {
    forall a: seq<U>, b: seq<U> :: payload(a + b) == payload(a) + payload(b)
  }

  /** Reading one continuation chunk in front of a readable tail. */
  lemma ParseContinuation(more: uint8, last: uint8, unit: Unit, part: bytes, tail: bytes, cs: seq<Chunk>)
    requires more != last
    requires Span(unit, part + tail, MaxChunk) == Some(|part|)
    requires ParseChunks(tail, more, last, unit) == Some(cs)
    ensures ParseChunks(TagU16(more, MaxChunk) + (part + tail), more, last, unit)
            == Some([Chunk(more, MaxChunk, part)] + cs)
  {
    var data := TagU16(more, MaxChunk) + (part + tail);
    assert data[1..3] == TagU16(more, MaxChunk)[1..];
    assert data[3..] == part + tail;
    assert (part + tail)[|part|..] == tail;
    assert (part + tail)[..|part|] == part;
  }

  /** Reading the terminal chunk, which must end the data. */
  lemma ParseTerminal(more: uint8, last: uint8, unit: Unit, part: bytes, n: nat)
    requires n <= MaxChunk
    requires Span(unit, part, n) == Some(|part|)
    ensures ParseChunks(TagU16(last, n) + part, more, last, unit) == Some([Chunk(last, n, part)])
  {
    var data := TagU16(last, n) + part;
    assert data[1..3] == TagU16(last, n)[1..];
    assert data[3..] == part;
  }

  /**
   * Reading back the output of the loop yields chunks of the documented
   * shape whose payloads, concatenated, are the encoding of the whole input.
   */
  lemma {:induction false} ParseChunked<U(!new)>(
    more: uint8, last: uint8, value: seq<U>, payload: seq<U> -> bytes, unit: Unit)
    requires more != last
    requires SpanExact(unit, payload)
    requires Homomorphic(payload)
    ensures var cs := ParseChunks(Chunked(more, last, value, payload), more, last, unit);
            && cs.Some?
            && WellChunked(cs.value, more, last, |value|)
            && Payloads(cs.value) == payload(value)
    decreases |value|
  {
    if |value| > MaxChunk {
      ParseChunked(more, last, value[MaxChunk..], payload, unit);
      ParseLong(more, last, value, payload, unit);
    } else {
      ParseShort(more, last, value, payload, unit);
    }
  }

  /** A full chunk in front of input that reads back well chunked. */
  lemma ParseLong<U(!new)>(more: uint8, last: uint8, value: seq<U>, payload: seq<U> -> bytes, unit: Unit)
    requires more != last
    requires SpanExact(unit, payload)
    requires Homomorphic(payload)
    requires |value| > MaxChunk
    requires var cs := ParseChunks(Chunked(more, last, value[MaxChunk..], payload), more, last, unit);
             && cs.Some?
             && WellChunked(cs.value, more, last, |value| - MaxChunk)
             && Payloads(cs.value) == payload(value[MaxChunk..])
    ensures var cs := ParseChunks(Chunked(more, last, value, payload), more, last, unit);
            && cs.Some?
            && WellChunked(cs.value, more, last, |value|)
            && Payloads(cs.value) == payload(value)
  {
    var part, rest := value[..MaxChunk], value[MaxChunk..];
    var tail := Chunked(more, last, rest, payload);
    assert Chunked(more, last, value, payload) == TagU16(more, MaxChunk) + (payload(part) + tail);
    assert Span(unit, payload(part) + tail, |part|) == Some(|payload(part)|);
    var cs' := ParseChunks(tail, more, last, unit).value;
    ParseContinuation(more, last, unit, payload(part), tail, cs');
    WellChunkedCons(Chunk(more, MaxChunk, payload(part)), cs', more, last, |rest|);
    assert payload(part + rest) == payload(part) + payload(rest);
    assert part + rest == value;
  }

  /** Input that fits one chunk reads back as a single terminal chunk. */
  lemma ParseShort<U(!new)>(more: uint8, last: uint8, value: seq<U>, payload: seq<U> -> bytes, unit: Unit)
    requires more != last
    requires SpanExact(unit, payload)
    requires |value| <= MaxChunk
    ensures var cs := ParseChunks(Chunked(more, last, value, payload), more, last, unit);
            && cs.Some?
            && WellChunked(cs.value, more, last, |value|)
            && Payloads(cs.value) == payload(value)
  {
    assert Span(unit, payload(value) + [], |value|) == Some(|payload(value)|);
    assert payload(value) + [] == payload(value);
    ParseTerminal(more, last, unit, payload(value), |value|);
    var cs := [Chunk(last, |value|, payload(value))];
    assert Payloads(cs) == payload(value) + [];
  }

  /** A full continuation chunk in front of well-chunked input. */
  lemma WellChunkedCons(c: Chunk, cs: seq<Chunk>, more: uint8, last: uint8, n: nat)
    requires more != last
    requires c.tag == more && c.count == MaxChunk
    requires WellChunked(cs, more, last, n) && n > 0
    ensures WellChunked([c] + cs, more, last, n + MaxChunk)
    ensures Payloads([c] + cs) == c.payload + Payloads(cs)
  {
    assert ([c] + cs)[1..] == cs;
  }

  /**
   * Text read back by characters: well chunked, the payloads are the UTF-8
   * encoding of the whole text, and they decode to the text.
   */
  lemma TextChunks(more: uint8, last: uint8, text: seq<Utf8.CodePoint>)
    requires more != last
    ensures var cs := ParseChunks(Chunked(more, last, text, Utf8.Encode), more, last, CharUnit);
            && cs.Some?
            && WellChunked(cs.value, more, last, |text|)
            && Payloads(cs.value) == Utf8.Encode(text)
            && Utf8.Decode(Payloads(cs.value)) == Some(text)
  {
    Utf8IsExact();
    ParseChunked(more, last, text, Utf8.Encode, CharUnit);
    Utf8.DecodeEncode(text);
  }

  /**
   * Bytes read back by bytes: well chunked, the payloads are the bytes, and
   * every payload holds as many bytes as its header counts.
   */
  lemma ByteChunks(more: uint8, last: uint8, data: bytes)
    requires more != last
    ensures var cs := ParseChunks(Chunked(more, last, data, Raw), more, last, ByteUnit);
            && cs.Some?
            && WellChunked(cs.value, more, last, |data|)
            && Payloads(cs.value) == data
            && forall i | 0 <= i < |cs.value| :: |cs.value[i].payload| == cs.value[i].count
  {
    RawIsExact();
    ParseChunked(more, last, data, Raw, ByteUnit);
    ByteChunksAreCounted(Chunked(more, last, data, Raw), more, last);
  }

  /** The payload of a binary or byte-string chunk is the bytes themselves. */
  function Raw(s: bytes): bytes {
    s
  }

  lemma RawIsExact()
    ensures SpanExact(ByteUnit, Raw)
    ensures Homomorphic(Raw)
  {
  }

  lemma Utf8IsExact()
    ensures SpanExact(CharUnit, Utf8.Encode)
    ensures Homomorphic(Utf8.Encode)
  {
    forall part: seq<Utf8.CodePoint>, rest: bytes
      ensures Span(CharUnit, Utf8.Encode(part) + rest, |part|) == Some(|Utf8.Encode(part)|)
    {
      Utf8.CharSpanOfEncode(part, rest);
    }
    forall a: seq<Utf8.CodePoint>, b: seq<Utf8.CodePoint>
      ensures Utf8.Encode(a + b) == Utf8.Encode(a) + Utf8.Encode(b)
    {
      Utf8.EncodeConcat(a, b);
    }
  }

  /** The counts of well-chunked input: 65535 per continuation chunk, plus the terminal count. */
  lemma {:induction false} SumOfWellChunked(cs: seq<Chunk>)
    requires |cs| >= 1
    requires forall i | 0 <= i < |cs| - 1 :: cs[i].count == MaxChunk
    ensures SumCounts(cs) == MaxChunk * (|cs| - 1) + cs[|cs| - 1].count
  {
    if |cs| > 1 {
      SumOfWellChunked(cs[1..]);
    }
  }

  /**
   * How many chunks an input of `n` units takes: one for the empty input,
   * otherwise n / 65535 rounded up, the terminal chunk holding the rest.
   */
  lemma ChunkCount(cs: seq<Chunk>, more: uint8, last: uint8, n: nat)
    requires WellChunked(cs, more, last, n)
    ensures |cs| == if n == 0 then 1 else (n + MaxChunk - 1) / MaxChunk
    ensures cs[|cs| - 1].count == n - MaxChunk * (|cs| - 1)
  {
    SumOfWellChunked(cs);
  }

  /** Read back by bytes, every chunk's payload holds as many bytes as its header counts. */
  lemma {:induction false} ByteChunksAreCounted(data: bytes, more: uint8, last: uint8)
    requires ParseChunks(data, more, last, ByteUnit).Some?
    ensures var cs := ParseChunks(data, more, last, ByteUnit).value;
            forall i | 0 <= i < |cs| :: |cs[i].payload| == cs[i].count
    decreases |data|
  {
    var count := FromBigEndian(data[1..3]);
    var body := data[3..];
    if data[0] != last {
      ByteChunksAreCounted(body[count..], more, last);
    }
  }
}

/**
 * UTF-8, as `unicode.encode('utf-8')` produces it on a wide (UCS-4) build
 * of Python 2, for text made of Unicode scalar values. Text holding
 * surrogate code points is outside the model: on such a build Python 2
 * joins a high surrogate followed by a low one into a single four-byte
 * sequence, and the model's text type does not contain surrogates at all.
 */
module Utf8 {
  import opened Wrappers
  import opened Bytes

  /** A Unicode scalar value: a code point that is not a surrogate. */
  type CodePoint = c: int | 0 <= c < 0x11_0000 && !(0xD800 <= c < 0xE000)

  predicate IsContinuation(b: uint8) {
    0x80 <= b < 0xC0
  }

  /** The number of bytes of the character a lead byte starts; 0 when `b` cannot lead. */
  function Width(b: uint8): nat {
    if b < 0x80 then 1
    else if 0xC0 <= b < 0xE0 then 2
    else if 0xE0 <= b < 0xF0 then 3
    else if 0xF0 <= b < 0xF8 then 4
    else 0
  }

  /** The UTF-8 bytes of one code point. */
  function EncodeChar(c: CodePoint): (r: bytes)
    ensures 1 <= |r| <= 4 && Width(r[0]) == |r|
    ensures forall i | 1 <= i < |r| :: IsContinuation(r[i])
    ensures |r| == 1 <==> c < 0x80
  {
    if c < 0x80 then
      [c as uint8]
    else if c < 0x800 then
      [(0xC0 + c / 0x40) as uint8, (0x80 + c % 0x40) as uint8]
    else if c < 0x1_0000 then
      [(0xE0 + c / 0x1000) as uint8, (0x80 + (c / 0x40) % 0x40) as uint8,
       (0x80 + c % 0x40) as uint8]
    else
      [(0xF0 + c / 0x4_0000) as uint8, (0x80 + (c / 0x1000) % 0x40) as uint8,
       (0x80 + (c / 0x40) % 0x40) as uint8, (0x80 + c % 0x40) as uint8]
  }

  /** `value.encode('utf-8')`. */
  function Encode(text: seq<CodePoint>): (r: bytes)
    ensures |r| >= |text|
  {
    if |text| == 0 then [] else EncodeChar(text[0]) + Encode(text[1..])
  }

  lemma {:induction false} EncodeConcat(a: seq<CodePoint>, b: seq<CodePoint>)
    ensures Encode(a + b) == Encode(a) + Encode(b)
    decreases |a|
  {
    if |a| > 0 {
      assert (a + b)[0] == a[0];
      assert (a + b)[1..] == a[1..] + b;
      EncodeConcat(a[1..], b);
      assert Encode(a + b) == EncodeChar(a[0]) + (Encode(a[1..]) + Encode(b));
    } else {
      assert a + b == b;
    }
  }

  /**
   * The scalar value a character of `Width(s[0])` bytes denotes; `None` for
   * a bad continuation byte, an overlong form, a surrogate or a value beyond
   * 0x10FFFF.
   */
  function DecodeChar(s: bytes): (r: Option<CodePoint>)
    requires |s| >= 1 && |s| == Width(s[0])
  {
    if exists i | 1 <= i < |s| :: !IsContinuation(s[i]) then None
    else
      var c :=
        if |s| == 1 then s[0] as int
        else if |s| == 2 then (s[0] as int - 0xC0) * 0x40 + (s[1] as int - 0x80)
        else if |s| == 3 then
          (s[0] as int - 0xE0) * 0x1000 + (s[1] as int - 0x80) * 0x40 + (s[2] as int - 0x80)
        else
          (s[0] as int - 0xF0) * 0x4_0000 + (s[1] as int - 0x80) * 0x1000
          + (s[2] as int - 0x80) * 0x40 + (s[3] as int - 0x80);
      var least := if |s| == 1 then 0 else if |s| == 2 then 0x80 else if |s| == 3 then 0x800 else 0x1_0000;
      if least <= c < 0x11_0000 && !(0xD800 <= c < 0xE000) then Some(c) else None
  }

  lemma DecodeEncodeChar(c: CodePoint)
    ensures DecodeChar(EncodeChar(c)) == Some(c)
  {
    if c < 0x80 {
    } else if c < 0x800 {
      DecodeEncodeTwo(c);
    } else if c < 0x1_0000 {
      DecodeEncodeThree(c);
    } else {
      DecodeEncodeFour(c);
    }
  }

  lemma DecodeEncodeTwo(c: CodePoint)
    requires 0x80 <= c < 0x800
    ensures DecodeChar(EncodeChar(c)) == Some(c)
  {
    var r := EncodeChar(c);
    var b0, b1 := c / 0x40, c % 0x40;
    assert r[0] as int - 0xC0 == b0 && r[1] as int - 0x80 == b1;
    assert c == b0 * 0x40 + b1;
  }

  lemma DecodeEncodeThree(c: CodePoint)
    requires 0x800 <= c < 0x1_0000
    ensures DecodeChar(EncodeChar(c)) == Some(c)
  {
    var r := EncodeChar(c);
    var b0, b1, b2 := c / 0x1000, (c / 0x40) % 0x40, c % 0x40;
    assert r[0] as int - 0xE0 == b0 && r[1] as int - 0x80 == b1 && r[2] as int - 0x80 == b2;
    assert c / 0x40 == b0 * 0x40 + b1;
    assert c == (c / 0x40) * 0x40 + b2;
  }

  lemma DecodeEncodeFour(c: CodePoint)
    requires 0x1_0000 <= c
    ensures DecodeChar(EncodeChar(c)) == Some(c)
  {
    var r := EncodeChar(c);
    var b0, b1, b2, b3 := c / 0x4_0000, (c / 0x1000) % 0x40, (c / 0x40) % 0x40, c % 0x40;
    assert r[0] as int - 0xF0 == b0 && r[1] as int - 0x80 == b1;
    assert r[2] as int - 0x80 == b2 && r[3] as int - 0x80 == b3;
    assert c / 0x1000 == b0 * 0x40 + b1;
    assert c / 0x40 == (c / 0x1000) * 0x40 + b2;
    assert c == (c / 0x40) * 0x40 + b3;
  }

  /**
   * Strict UTF-8 decoding, one character per lead byte; `None` on malformed
   * input. Python 2's `data.decode('utf-8')` agrees with it on every input
   * except encoded surrogates, which Python 2 accepts; the encoder only
   * decodes ASCII bytes (`DecodeAscii`).
   */
  function Decode(data: bytes): (r: Option<seq<CodePoint>>)
    ensures r.Some? ==> |r.value| <= |data|
  {
    if |data| == 0 then Some([])
    else
      var w := Width(data[0]);
      if w == 0 || w > |data| then None
      else
        match DecodeChar(data[..w])
        case None => None
        case Some(c) =>
          match Decode(data[w..])
          case None => None
          case Some(rest) => Some([c] + rest)
  }

  lemma {:induction false} DecodeEncode(text: seq<CodePoint>)
    ensures Decode(Encode(text)) == Some(text)
  {
    if |text| > 0 {
      var head := EncodeChar(text[0]);
      var data := Encode(text);
      assert data[..|head|] == head;
      assert data[|head|..] == Encode(text[1..]);
      DecodeEncodeChar(text[0]);
      DecodeEncode(text[1..]);
      assert [text[0]] + text[1..] == text;
    }
  }

  /** ASCII bytes decode one character per byte, each character equal to its byte. */
  lemma {:induction false} DecodeAscii(data: bytes)
    requires forall i | 0 <= i < |data| :: data[i] < 0x80
    ensures Decode(data).Some?
    ensures |Decode(data).value| == |data|
    ensures forall i | 0 <= i < |data| :: Decode(data).value[i] == data[i] as int
  {
    if |data| > 0 {
      DecodeAscii(data[1..]);
    }
  }

  /**
   * The number of bytes the first `n` characters of `data` occupy, judged
   * from lead bytes alone; `None` when `data` runs out first.
   */
  function CharSpan(data: bytes, n: nat): (r: Option<nat>)
    ensures r.Some? ==> r.value <= |data|
  {
    if n == 0 then Some(0)
    else if |data| == 0 then None
    else
      var w := Width(data[0]);
      if w == 0 || w > |data| then None
      else
        match CharSpan(data[w..], n - 1)
        case None => None
        case Some(k) => Some(w + k)
  }

  /** A character whose lead byte announces its width adds one to a span. */
  lemma CharSpanStep(head: bytes, tail: bytes, n: nat, k: nat)
    requires 1 <= |head| && Width(head[0]) == |head|
    requires CharSpan(tail, n) == Some(k)
    ensures CharSpan(head + tail, n + 1) == Some(|head| + k)
  {
    assert (head + tail)[|head|..] == tail;
  }

  /** The first character's bytes, then the rest's, then whatever follows. */
  lemma EncodeFront(text: seq<CodePoint>, rest: bytes)
    requires |text| > 0
    ensures Encode(text) + rest == EncodeChar(text[0]) + (Encode(text[1..]) + rest)
  {
    ConcatAssoc(EncodeChar(text[0]), Encode(text[1..]), rest);
  }

  lemma ConcatAssoc(a: bytes, b: bytes, c: bytes)
    ensures (a + b) + c == a + (b + c)
  {
  }

  /** The UTF-8 encoding of `text` is exactly `|text|` characters long, whatever follows it. */
  lemma {:induction false} CharSpanOfEncode(text: seq<CodePoint>, rest: bytes)
    ensures CharSpan(Encode(text) + rest, |text|) == Some(|Encode(text)|)
  {
    if |text| > 0 {
      var head, tail := EncodeChar(text[0]), Encode(text[1..]);
      CharSpanOfEncode(text[1..], rest);
      CharSpanStep(head, tail + rest, |text| - 1, |tail|);
      EncodeFront(text, rest);
    }
  }
}

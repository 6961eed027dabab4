/**
 * `encode_call`: the header loop, the argument loop with its overload name
 * mangling, and the call frame around them. Every header is written before
 * any argument is encoded, so a bad header wins over a bad argument.
 */
module CallRules {
  import opened Wrappers
  import opened Bytes
  import opened PyTypes
  import opened Values
  import opened Wire
  import opened Encoder
  import opened Joins

  /** A header block can be written: a `str` key short enough for its 16-bit length, and a value that encodes. */
  predicate HeaderEncodes(table: Table, h: Field)
    requires WellFormedTable(table)
  {
    h.key.Str? && |h.key.data| < 0x1_0000 && Encode(table, h.val).Success?
  }

  /** What one pass of the header loop raises, in the order it checks. */
  function HeaderError(table: Table, h: Field): Error
    requires WellFormedTable(table) && !HeaderEncodes(table, h)
  {
    if !h.key.Str? then HeaderKeyNotString
    else if |h.key.data| >= 0x1_0000 then PackOutOfRange
    else Encode(table, h.val).error
  }

  /** The bytes of a header block that can be written. */
  function HeaderBlock(table: Table, h: Field): bytes
    requires WellFormedTable(table) && HeaderEncodes(table, h)
  {
    PackWidths();
    [Byte('H')] + PackU16(|h.key.data|).value + h.key.data + Encode(table, h.val).value
  }

  /**
   * A header block is `H`, the key's 16-bit length, the key and the value's
   * encoding; a key that is not a `str` raises before the value is looked at.
   */
  lemma HeaderEncoding(table: Table, h: Field)
    requires WellFormedTable(table)
    ensures EncodeHeader(table, h).Success? <==> HeaderEncodes(table, h)
    ensures HeaderEncodes(table, h) ==>
              && EncodeHeader(table, h).value == HeaderBlock(table, h)
              && HeaderBlock(table, h)[0] == Byte('H')
              && FromBigEndian(HeaderBlock(table, h)[1..3]) == |h.key.data|
              && HeaderBlock(table, h)[3..3 + |h.key.data|] == h.key.data
              && HeaderBlock(table, h)[3 + |h.key.data|..] == Encode(table, h.val).value
    ensures !HeaderEncodes(table, h) ==> EncodeHeader(table, h) == Failure(HeaderError(table, h))
  {
    PackWidths();
    if HeaderEncodes(table, h) {
      var n := PackU16(|h.key.data|).value;
      var r := HeaderBlock(table, h);
      assert r == [Byte('H')] + n + h.key.data + Encode(table, h.val).value;
      assert r[1..3] == n;
      assert r[3..3 + |h.key.data|] == h.key.data;
      assert r[3 + |h.key.data|..] == Encode(table, h.val).value;
    }
  }

  /** What each pass of the header loop gives, in `items()` order. */
  function HeaderOutcomes(table: Table, headers: seq<Field>): (r: seq<Result<bytes, Error>>)
    requires WellFormedTable(table)
    ensures |r| == |headers|
    ensures forall i | 0 <= i < |headers| :: r[i] == EncodeHeader(table, headers[i])
  {
    seq(|headers|, i requires 0 <= i < |headers| && WellFormedTable(table) => EncodeHeader(table, headers[i]))
  }

  predicate AllHeadersEncode(table: Table, headers: seq<Field>)
    requires WellFormedTable(table)
  {
    forall i | 0 <= i < |headers| :: HeaderEncodes(table, headers[i])
  }

  /** The header blocks, one per header. */
  function HeaderBlocks(table: Table, headers: seq<Field>): (r: seq<bytes>)
    requires WellFormedTable(table) && AllHeadersEncode(table, headers)
    ensures |r| == |headers|
    ensures forall i | 0 <= i < |headers| :: r[i] == HeaderBlock(table, headers[i])
  {
    seq(|headers|, i requires 0 <= i < |headers| && WellFormedTable(table) && AllHeadersEncode(table, headers) =>
                     HeaderBlock(table, headers[i]))
  }

  /** Header `k` is the first one that raises. */
  predicate HeaderFailsFirstAt(table: Table, headers: seq<Field>, k: int)
    requires WellFormedTable(table)
  {
    0 <= k < |headers| && !HeaderEncodes(table, headers[k]) && AllHeadersEncode(table, headers[..k])
  }

  /** The header loop writes the blocks in order, stopping at the first that raises. */
  lemma {:induction false} EncodeHeadersIsJoin(table: Table, headers: seq<Field>)
    requires WellFormedTable(table)
    ensures EncodeHeaders(table, headers) == Join(HeaderOutcomes(table, headers))
    decreases |headers|
  {
    if |headers| > 0 {
      EncodeHeadersIsJoin(table, headers[1..]);
      assert HeaderOutcomes(table, headers)[1..] == HeaderOutcomes(table, headers[1..]);
    }
  }

  lemma HeaderOutcomesSucceed(table: Table, headers: seq<Field>)
    requires WellFormedTable(table)
    ensures AllSucceed(HeaderOutcomes(table, headers)) <==> AllHeadersEncode(table, headers)
    ensures AllHeadersEncode(table, headers) ==>
              Successes(HeaderOutcomes(table, headers)) == HeaderBlocks(table, headers)
  {
    var rs := HeaderOutcomes(table, headers);
    forall i | 0 <= i < |headers|
      ensures rs[i].Success? <==> HeaderEncodes(table, headers[i])
      ensures HeaderEncodes(table, headers[i]) ==> rs[i].value == HeaderBlock(table, headers[i])
    {
      HeaderEncoding(table, headers[i]);
    }
  }

  /** The header loop succeeds exactly when every header can be written, and then yields their blocks in order. */
  lemma EncodeHeadersJoins(table: Table, headers: seq<Field>)
    requires WellFormedTable(table)
    ensures EncodeHeaders(table, headers).Success? <==> AllHeadersEncode(table, headers)
    ensures AllHeadersEncode(table, headers) ==>
              EncodeHeaders(table, headers).value == Flatten(HeaderBlocks(table, headers))
  {
    EncodeHeadersIsJoin(table, headers);
    HeaderOutcomesSucceed(table, headers);
    JoinSucceeds(HeaderOutcomes(table, headers));
  }

  /** The header loop raises the first failing header's error. */
  lemma EncodeHeadersFailsFirst(table: Table, headers: seq<Field>, k: int)
    requires WellFormedTable(table)
    requires HeaderFailsFirstAt(table, headers, k)
    ensures EncodeHeaders(table, headers) == Failure(HeaderError(table, headers[k]))
  {
    var rs := HeaderOutcomes(table, headers);
    EncodeHeadersIsJoin(table, headers);
    HeaderOutcomesSucceed(table, headers[..k]);
    assert rs[..k] == HeaderOutcomes(table, headers[..k]);
    HeaderEncoding(table, headers[k]);
    JoinFailsFirst(rs, k);
  }

  /** What `encode_arg` gives for each argument, in order. */
  function ArgOutcomes(table: Table, args: seq<Value>): (r: seq<Result<(bytes, bytes), Error>>)
    requires WellFormedTable(table)
    ensures |r| == |args|
    ensures forall i | 0 <= i < |args| :: r[i] == EncodeArg(table, args[i])
  {
    seq(|args|, i requires 0 <= i < |args| && WellFormedTable(table) => EncodeArg(table, args[i]))
  }

  /**
   * The argument loop run over outcomes computed beforehand: the method
   * name and the argument bytes so far, or the first error.
   */
  function ArgsLoop(rs: seq<Result<(bytes, bytes), Error>>, overload: bool, name: bytes, arguments: bytes)
    : Result<(bytes, bytes), Error>
  {
    if |rs| == 0 then Success((name, arguments))
    else
      var p :- rs[0];
      ArgsLoop(rs[1..], overload, if overload then name + [Byte('_')] + p.0 else name, arguments + p.1)
  }

  predicate AllArgsSucceed(rs: seq<Result<(bytes, bytes), Error>>) {
    forall i | 0 <= i < |rs| :: rs[i].Success?
  }

  /** The tags of successful outcomes. */
  function ArgTags(rs: seq<Result<(bytes, bytes), Error>>): (r: seq<bytes>)
    requires AllArgsSucceed(rs)
    ensures |r| == |rs|
    ensures forall i | 0 <= i < |rs| :: r[i] == rs[i].value.0
  {
    seq(|rs|, i requires 0 <= i < |rs| && AllArgsSucceed(rs) => rs[i].value.0)
  }

  /** The bytes of successful outcomes. */
  function ArgBytes(rs: seq<Result<(bytes, bytes), Error>>): (r: seq<bytes>)
    requires AllArgsSucceed(rs)
    ensures |r| == |rs|
    ensures forall i | 0 <= i < |rs| :: r[i] == rs[i].value.1
  {
    seq(|rs|, i requires 0 <= i < |rs| && AllArgsSucceed(rs) => rs[i].value.1)
  }

  /** `_` and the tag, once per argument. */
  function Suffixes(tags: seq<bytes>): (r: seq<bytes>)
    ensures |r| == |tags|
    ensures forall i | 0 <= i < |tags| :: r[i] == [Byte('_')] + tags[i]
  {
    seq(|tags|, i requires 0 <= i < |tags| => [Byte('_')] + tags[i])
  }

  /** The overloaded method name: the name, then `_` and each argument's tag in order. */
  function Mangled(name: bytes, tags: seq<bytes>): bytes {
    name + Flatten(Suffixes(tags))
  }

  /** Outcome `k` is the first failure. */
  predicate FirstArgFailureAt(rs: seq<Result<(bytes, bytes), Error>>, k: int) {
    0 <= k < |rs| && rs[k].Failure? && AllArgsSucceed(rs[..k])
  }

  /** Appending to the front of a join. */
  lemma FlattenCons(head: bytes, parts: seq<bytes>)
    ensures Flatten([head] + parts) == head + Flatten(parts)
  {
    assert ([head] + parts)[1..] == parts;
  }

  /** Extending the name by one tag, then by the rest, is mangling by all of them. */
  lemma MangledCons(name: bytes, tag: bytes, tags: seq<bytes>)
    ensures Mangled(name + [Byte('_')] + tag, tags) == Mangled(name, [tag] + tags)
  {
    assert Suffixes([tag] + tags) == [[Byte('_')] + tag] + Suffixes(tags);
    FlattenCons([Byte('_')] + tag, Suffixes(tags));
    var later := Flatten(Suffixes(tags));
    assert name + [Byte('_')] + tag + later == name + ([Byte('_')] + tag + later);
  }

  /** Appending one part, then the join of the rest, is appending the join of all of them. */
  lemma AppendCons(prefix: bytes, head: bytes, parts: seq<bytes>)
    ensures prefix + head + Flatten(parts) == prefix + Flatten([head] + parts)
  {
    FlattenCons(head, parts);
  }

  /** The outcomes after the first all succeed when all of them do. */
  lemma RestSucceed(rs: seq<Result<(bytes, bytes), Error>>)
    requires |rs| > 0 && AllArgsSucceed(rs)
    ensures AllArgsSucceed(rs[1..])
  {
    var rest := rs[1..];
    assert forall i | 0 <= i < |rest| :: rest[i] == rs[i + 1];
  }

  /** The tags of successful outcomes, split after the first. */
  lemma ArgTagsCons(rs: seq<Result<(bytes, bytes), Error>>)
    requires |rs| > 0 && AllArgsSucceed(rs) && AllArgsSucceed(rs[1..])
    ensures ArgTags(rs) == [rs[0].value.0] + ArgTags(rs[1..])
  {
    var tags, tags' := ArgTags(rs), [rs[0].value.0] + ArgTags(rs[1..]);
    forall i | 0 <= i < |rs|
      ensures tags[i] == tags'[i]
    {
      if i > 0 {
        assert rs[1..][i - 1] == rs[i];
      }
    }
  }

  /** The bytes of successful outcomes, split after the first. */
  lemma ArgBytesCons(rs: seq<Result<(bytes, bytes), Error>>)
    requires |rs| > 0 && AllArgsSucceed(rs) && AllArgsSucceed(rs[1..])
    ensures ArgBytes(rs) == [rs[0].value.1] + ArgBytes(rs[1..])
  {
    var parts, parts' := ArgBytes(rs), [rs[0].value.1] + ArgBytes(rs[1..]);
    forall i | 0 <= i < |rs|
      ensures parts[i] == parts'[i]
    {
      if i > 0 {
        assert rs[1..][i - 1] == rs[i];
      }
    }
  }

  /**
   * The argument loop succeeds exactly when every argument encodes; it then
   * appends the arguments' bytes, in order and without their tags, and
   * extends the name with `_` and each tag only when overloading.
   */
  lemma {:induction false} ArgsLoopSucceeds(rs: seq<Result<(bytes, bytes), Error>>, overload: bool, name: bytes, arguments: bytes)
    ensures ArgsLoop(rs, overload, name, arguments).Success? <==> AllArgsSucceed(rs)
    ensures AllArgsSucceed(rs) ==>
              ArgsLoop(rs, overload, name, arguments).value.0 == if overload then Mangled(name, ArgTags(rs)) else name
    ensures AllArgsSucceed(rs) ==>
              ArgsLoop(rs, overload, name, arguments).value.1 == arguments + Flatten(ArgBytes(rs))
  {
    if |rs| == 0 {
      assert Suffixes(ArgTags(rs)) == [];
      assert ArgBytes(rs) == [];
      assert name + [] == name && arguments + [] == arguments;
    } else if rs[0].Success? {
      var p, rest := rs[0].value, rs[1..];
      var name' := if overload then name + [Byte('_')] + p.0 else name;
      ArgsLoopSucceeds(rest, overload, name', arguments + p.1);
      if AllArgsSucceed(rs) {
        RestSucceed(rs);
        ArgTagsCons(rs);
        ArgBytesCons(rs);
        MangledCons(name, p.0, ArgTags(rest));
        AppendCons(arguments, p.1, ArgBytes(rest));
      } else {
        assert !AllArgsSucceed(rest) by {
          var i :| 0 <= i < |rs| && !rs[i].Success?;
          assert rest[i - 1] == rs[i];
        }
      }
    } else {
      assert !AllArgsSucceed(rs);
    }
  }

  /** The argument loop raises the first failing argument's error. */
  lemma {:induction false} ArgsLoopFailsFirst(rs: seq<Result<(bytes, bytes), Error>>, overload: bool, name: bytes, arguments: bytes, k: int)
    requires FirstArgFailureAt(rs, k)
    ensures ArgsLoop(rs, overload, name, arguments) == Failure(rs[k].error)
  {
    if k > 0 {
      var p, rest := rs[0].value, rs[1..];
      var before, restBefore := rs[..k], rest[..k - 1];
      assert before[0] == rs[0];
      assert forall i | 0 <= i < k - 1 :: restBefore[i] == before[i + 1];
      ArgsLoopFailsFirst(rest, overload, if overload then name + [Byte('_')] + p.0 else name, arguments + p.1, k - 1);
    }
  }

  /** The argument loop of `encode_call` encodes the arguments in order, as `ArgsLoop` runs over their outcomes. */
  lemma {:induction false} CallArgsIsLoop(table: Table, args: seq<Value>, overload: bool, name: bytes, arguments: bytes)
    requires WellFormedTable(table)
    ensures CallArgs(table, args, overload, name, arguments) == ArgsLoop(ArgOutcomes(table, args), overload, name, arguments)
    decreases |args|
  {
    if |args| > 0 {
      var rs := ArgOutcomes(table, args);
      assert rs[1..] == ArgOutcomes(table, args[1..]);
      if rs[0].Success? {
        var p := rs[0].value;
        CallArgsIsLoop(table, args[1..], overload, if overload then name + [Byte('_')] + p.0 else name, arguments + p.1);
      }
    }
  }

  /**
   * `encode_call` around whatever the two loops gave: the header loop's
   * error first, then the argument loop's, then a version or method-name
   * length that `struct.pack` refuses.
   */
  lemma CallRuleLayout(table: Table, v: Value)
    requires WellFormedTable(table) && v.Call?
    ensures EncodeHeaders(table, v.headers).Failure? ==>
              EncodeCall(table, v) == Failure(EncodeHeaders(table, v.headers).error)
    ensures EncodeHeaders(table, v.headers).Success? && CallArgs(table, v.args, v.overload, v.methodName, []).Failure? ==>
              EncodeCall(table, v) == Failure(CallArgs(table, v.args, v.overload, v.methodName, []).error)
    ensures EncodeHeaders(table, v.headers).Success? && CallArgs(table, v.args, v.overload, v.methodName, []).Success? ==>
              var named := CallArgs(table, v.args, v.overload, v.methodName, []).value;
              EncodeCall(table, v) == Tagged(CallType, CallFrame(v.version, EncodeHeaders(table, v.headers).value, named.0, named.1))
  {
  }

  /** The method name a call is sent under. */
  function SentName(table: Table, v: Value): bytes
    requires WellFormedTable(table) && v.Call? && AllArgsSucceed(ArgOutcomes(table, v.args))
  {
    if v.overload then Mangled(v.methodName, ArgTags(ArgOutcomes(table, v.args))) else v.methodName
  }

  /** A call can be sent: every header and argument encodes, the version fits a byte and the name a 16-bit length. */
  predicate CallEncodes(table: Table, v: Value)
    requires WellFormedTable(table) && v.Call?
  {
    && AllHeadersEncode(table, v.headers)
    && AllArgsSucceed(ArgOutcomes(table, v.args))
    && 0 <= v.version < 0x100
    && |SentName(table, v)| < 0x1_0000
  }

  /** The frame of a call that can be sent. */
  function CallBytes(table: Table, v: Value): bytes
    requires WellFormedTable(table) && v.Call? && CallEncodes(table, v)
  {
    var name := SentName(table, v);
    PackWidths();
    [Byte('c'), v.version as uint8, 0] + Flatten(HeaderBlocks(table, v.headers))
    + [Byte('m')] + BigEndian(|name|, 2) + name + Flatten(ArgBytes(ArgOutcomes(table, v.args))) + [Byte('z')]
  }

  /** `encode_call` in terms of what its two loops give. */
  lemma CallRuleEncodes(table: Table, v: Value)
    requires WellFormedTable(table) && v.Call?
    ensures EncodeCall(table, v).Success? <==> CallEncodes(table, v)
    ensures CallEncodes(table, v) ==> EncodeCall(table, v).value == (Tag(CallType), CallBytes(table, v))
  {
    if CallEncodes(table, v) {
      CallRuleSucceeds(table, v);
    } else {
      CallRuleFails(table, v);
    }
  }

  lemma CallRuleSucceeds(table: Table, v: Value)
    requires WellFormedTable(table) && v.Call? && CallEncodes(table, v)
    ensures EncodeCall(table, v) == Success((Tag(CallType), CallBytes(table, v)))
  {
    CallRuleLayout(table, v);
    EncodeHeadersJoins(table, v.headers);
    CallArgsIsLoop(table, v.args, v.overload, v.methodName, []);
    ArgsLoopSucceeds(ArgOutcomes(table, v.args), v.overload, v.methodName, []);
    var headers := Flatten(HeaderBlocks(table, v.headers));
    var name, arguments := SentName(table, v), Flatten(ArgBytes(ArgOutcomes(table, v.args)));
    assert EncodeHeaders(table, v.headers) == Success(headers);
    assert [] + arguments == arguments;
    assert CallArgs(table, v.args, v.overload, v.methodName, []) == Success((name, arguments));
    CallFrameLayout(v.version, headers, name, arguments);
  }

  lemma CallRuleFails(table: Table, v: Value)
    requires WellFormedTable(table) && v.Call? && !CallEncodes(table, v)
    ensures EncodeCall(table, v).Failure?
  {
    CallRuleLayout(table, v);
    EncodeHeadersJoins(table, v.headers);
    if AllHeadersEncode(table, v.headers) {
      CallArgsIsLoop(table, v.args, v.overload, v.methodName, []);
      ArgsLoopSucceeds(ArgOutcomes(table, v.args), v.overload, v.methodName, []);
      if AllArgsSucceed(ArgOutcomes(table, v.args)) {
        var headers := Flatten(HeaderBlocks(table, v.headers));
        var name, arguments := SentName(table, v), Flatten(ArgBytes(ArgOutcomes(table, v.args)));
        assert [] + arguments == arguments;
        assert CallArgs(table, v.args, v.overload, v.methodName, []) == Success((name, arguments));
        CallFrameLayout(v.version, headers, name, arguments);
      }
    }
  }

  /**
   * A call is `c`, the version byte, `0`, the header blocks, `m`, the
   * 16-bit length of the (possibly mangled) method name, that name, the
   * arguments' bytes and `z`, tagged `call`. It encodes exactly when every
   * header and argument does, the version fits a byte and the name fits a
   * 16-bit length.
   */
  lemma CallEncoding(table: Table, v: Value)
    requires WellFormedTable(table) && v.Call?
    ensures var rs := ArgOutcomes(table, v.args);
            EncodeArg(table, v).Success? <==>
              && AllHeadersEncode(table, v.headers)
              && AllArgsSucceed(rs)
              && 0 <= v.version < 0x100
              && |SentName(table, v)| < 0x1_0000
    ensures EncodeArg(table, v).Success? ==>
              var rs := ArgOutcomes(table, v.args);
              var (tag, r) := EncodeArg(table, v).value;
              var headers := Flatten(HeaderBlocks(table, v.headers));
              var name := SentName(table, v);
              var arguments := Flatten(ArgBytes(rs));
              && tag == Tag(CallType)
              && r == [Byte('c'), v.version as uint8, 0] + headers
                      + [Byte('m')] + BigEndian(|name|, 2) + name + arguments + [Byte('z')]
  {
    Dispatched(table, v);
    CallRuleEncodes(table, v);
  }

  /**
   * Every header is written before any argument is encoded: the first bad
   * header's error is raised, whatever the arguments are.
   */
  lemma CallHeaderFails(table: Table, v: Value, k: int)
    requires WellFormedTable(table) && v.Call?
    requires HeaderFailsFirstAt(table, v.headers, k)
    ensures EncodeArg(table, v) == Failure(HeaderError(table, v.headers[k]))
  {
    Dispatched(table, v);
    CallRuleLayout(table, v);
    EncodeHeadersFailsFirst(table, v.headers, k);
  }

  /** With every header written, the first argument that raises decides the call's error. */
  lemma CallArgFails(table: Table, v: Value, k: int)
    requires WellFormedTable(table) && v.Call?
    requires AllHeadersEncode(table, v.headers)
    requires FirstArgFailureAt(ArgOutcomes(table, v.args), k)
    ensures EncodeArg(table, v) == Failure(EncodeArg(table, v.args[k]).error)
  {
    Dispatched(table, v);
    CallRuleLayout(table, v);
    EncodeHeadersJoins(table, v.headers);
    CallArgsIsLoop(table, v.args, v.overload, v.methodName, []);
    ArgsLoopFailsFirst(ArgOutcomes(table, v.args), v.overload, v.methodName, [], k);
  }

  /** With every header and argument encoded, a version or name length `struct.pack` refuses raises `struct.error`. */
  lemma CallFrameRefused(table: Table, v: Value)
    requires WellFormedTable(table) && v.Call?
    requires AllHeadersEncode(table, v.headers) && AllArgsSucceed(ArgOutcomes(table, v.args))
    requires !(0 <= v.version < 0x100) || |SentName(table, v)| >= 0x1_0000
    ensures EncodeArg(table, v) == Failure(PackOutOfRange)
  {
    Dispatched(table, v);
    CallRuleLayout(table, v);
    EncodeHeadersJoins(table, v.headers);
    CallArgsIsLoop(table, v.args, v.overload, v.methodName, []);
    ArgsLoopSucceeds(ArgOutcomes(table, v.args), v.overload, v.methodName, []);
    var headers := Flatten(HeaderBlocks(table, v.headers));
    var name, arguments := SentName(table, v), Flatten(ArgBytes(ArgOutcomes(table, v.args)));
    assert [] + arguments == arguments;
    assert CallArgs(table, v.args, v.overload, v.methodName, []) == Success((name, arguments));
    CallFrameLayout(v.version, headers, name, arguments);
  }
}

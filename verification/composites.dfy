/**
 * The composite rules: lists, tuples, dicts and typed objects. Each encodes
 * its members in order with `encode` (or `encode_keyval`), joins the results,
 * and wraps them in its frame; the first member that raises makes the whole
 * value raise with that member's error.
 */
module CompositeRules {
  import opened Wrappers
  import opened Bytes
  import opened PyTypes
  import opened Values
  import opened Wire
  import opened Encoder
  import opened Joins

  /** What `encode` gives for each member, in order. */
  function Outcomes(table: Table, items: seq<Value>): (r: seq<Result<bytes, Error>>)
    requires WellFormedTable(table)
    ensures |r| == |items|
    ensures forall i | 0 <= i < |items| :: r[i] == Encode(table, items[i])
  {
    seq(|items|, i requires 0 <= i < |items| && WellFormedTable(table) => Encode(table, items[i]))
  }

  /** Every member encodes. */
  predicate AllEncode(table: Table, items: seq<Value>)
    requires WellFormedTable(table)
  {
    forall i | 0 <= i < |items| :: Encode(table, items[i]).Success?
  }

  /** The members' encodings, one per member. */
  function Encodings(table: Table, items: seq<Value>): (r: seq<bytes>)
    requires WellFormedTable(table) && AllEncode(table, items)
    ensures |r| == |items|
    ensures forall i | 0 <= i < |items| :: r[i] == Encode(table, items[i]).value
  {
    Successes(Outcomes(table, items))
  }

  /** Member `k` is the first one that raises. */
  predicate FailsFirstAt(table: Table, items: seq<Value>, k: int)
    requires WellFormedTable(table)
  {
    0 <= k < |items| && Encode(table, items[k]).Failure? && AllEncode(table, items[..k])
  }

  /** The members are encoded in order and the bytes joined, as `map` then `reduce` would. */
  lemma {:induction false} EncodeAllIsJoin(table: Table, items: seq<Value>)
    requires WellFormedTable(table)
    ensures EncodeAll(table, items) == Join(Outcomes(table, items))
    decreases |items|
  {
    if |items| > 0 {
      EncodeAllIsJoin(table, items[1..]);
      assert Outcomes(table, items)[1..] == Outcomes(table, items[1..]);
    }
  }

  /**
   * Joining the members' encodings succeeds exactly when every member
   * encodes, and then yields their encodings in member order.
   */
  lemma EncodeAllJoins(table: Table, items: seq<Value>)
    requires WellFormedTable(table)
    ensures EncodeAll(table, items).Success? <==> AllEncode(table, items)
    ensures AllEncode(table, items) ==> EncodeAll(table, items).value == Flatten(Encodings(table, items))
  {
    EncodeAllIsJoin(table, items);
    JoinSucceeds(Outcomes(table, items));
  }

  /** Joining the members' encodings raises the first failing member's error. */
  lemma EncodeAllFailsFirst(table: Table, items: seq<Value>, k: int)
    requires WellFormedTable(table)
    requires FailsFirstAt(table, items, k)
    ensures EncodeAll(table, items) == Failure(Encode(table, items[k]).error)
  {
    var rs := Outcomes(table, items);
    EncodeAllIsJoin(table, items);
    assert rs[..k] == Outcomes(table, items[..k]);
    JoinFailsFirst(rs, k);
  }

  /** The list `-1` length field, "length unknown", is four 0xff bytes. */
  lemma MinusOneField()
    ensures PackI32(-1) == Some([0xff, 0xff, 0xff, 0xff])
  {
    PackWidths();
    var r := PackI32(-1).value;
    assert FromBigEndian(r) == 0xffff_ffff;
    BigEndianOfFromBigEndian(r);
    assert BigEndian(0xffff_ffff, 4) == [0xff, 0xff, 0xff, 0xff];
  }

  /** `encode_list` around whatever joining the members gave. */
  lemma ListRuleLayout(table: Table, items: seq<Value>)
    requires WellFormedTable(table)
    ensures EncodeAll(table, items).Failure? ==>
              EncodeList(table, List(items)) == Failure(EncodeAll(table, items).error)
    ensures EncodeAll(table, items).Success? ==>
              EncodeList(table, List(items)) ==
              Success((Tag(ListType), [Byte('V'), Byte('l'), 0xff, 0xff, 0xff, 0xff]
                                      + EncodeAll(table, items).value + [Byte('z')]))
  {
    MinusOneField();
    assert [Byte('V'), Byte('l')] + PackI32(-1).value == [Byte('V'), Byte('l'), 0xff, 0xff, 0xff, 0xff];
  }

  /**
   * A list is `V`, `l`, the length -1, its members' encodings in order and
   * `z`, tagged `list`; it encodes exactly when every member does.
   */
  lemma ListEncoding(table: Table, items: seq<Value>)
    requires WellFormedTable(table)
    ensures EncodeArg(table, List(items)).Success? <==> AllEncode(table, items)
    ensures AllEncode(table, items) ==>
              EncodeArg(table, List(items)).value ==
              (Tag(ListType), [Byte('V'), Byte('l'), 0xff, 0xff, 0xff, 0xff]
                              + Flatten(Encodings(table, items)) + [Byte('z')])
  {
    Dispatched(table, List(items));
    EncodeAllJoins(table, items);
    ListRuleLayout(table, items);
  }

  /** A list raises the error of its first member that raises. */
  lemma ListFailsFirst(table: Table, items: seq<Value>, k: int)
    requires WellFormedTable(table) && FailsFirstAt(table, items, k)
    ensures EncodeArg(table, List(items)) == Failure(Encode(table, items[k]).error)
  {
    Dispatched(table, List(items));
    EncodeAllFailsFirst(table, items, k);
  }

  /** `encode_tuple` around whatever joining the members gave. */
  lemma TupleRuleLayout(table: Table, items: seq<Value>)
    requires WellFormedTable(table)
    ensures EncodeAll(table, items).Failure? ==>
              EncodeTuple(table, Tuple(items)) == Failure(EncodeAll(table, items).error)
    ensures EncodeAll(table, items).Success? && |items| >= 0x8000_0000 ==>
              EncodeTuple(table, Tuple(items)) == Failure(PackOutOfRange)
    ensures EncodeAll(table, items).Success? && |items| < 0x8000_0000 ==>
              && EncodeTuple(table, Tuple(items)).Success?
              && var (tag, r) := EncodeTuple(table, Tuple(items)).value;
                 var members := EncodeAll(table, items).value;
                 && tag == Tag(TupleType)
                 && |r| == 7 + |members|
                 && r[..2] == [Byte('V'), Byte('l')]
                 && SignedValue(r[2..6]) == |items|
                 && r[6..|r| - 1] == members
                 && r[|r| - 1] == Byte('z')
  {
    if EncodeAll(table, items).Success? {
      TupleFrameLayout(|items|, EncodeAll(table, items).value);
    }
  }

  /**
   * A tuple is framed as a list but carries its member count, packed as a
   * signed 32-bit field, and is tagged `list`.
   */
  lemma TupleEncoding(table: Table, items: seq<Value>)
    requires WellFormedTable(table)
    ensures EncodeArg(table, Tuple(items)).Success? <==>
              AllEncode(table, items) && |items| < 0x8000_0000
    ensures EncodeArg(table, Tuple(items)).Success? ==>
              var (tag, r) := EncodeArg(table, Tuple(items)).value;
              var members := Flatten(Encodings(table, items));
              && tag == Tag(TupleType)
              && |r| == 7 + |members|
              && r[..2] == [Byte('V'), Byte('l')]
              && SignedValue(r[2..6]) == |items|
              && r[6..|r| - 1] == members
              && r[|r| - 1] == Byte('z')
  {
    Dispatched(table, Tuple(items));
    EncodeAllJoins(table, items);
    TupleRuleLayout(table, items);
  }

  /**
   * The members are encoded before the count is packed: a failing member's
   * error wins, and only a tuple whose members all encode can raise for
   * its length.
   */
  lemma TupleFails(table: Table, items: seq<Value>, k: int)
    requires WellFormedTable(table)
    ensures FailsFirstAt(table, items, k) ==>
              EncodeArg(table, Tuple(items)) == Failure(Encode(table, items[k]).error)
    ensures AllEncode(table, items) && |items| >= 0x8000_0000 ==>
              EncodeArg(table, Tuple(items)) == Failure(PackOutOfRange)
  {
    Dispatched(table, Tuple(items));
    EncodeAllJoins(table, items);
    TupleRuleLayout(table, items);
    if FailsFirstAt(table, items, k) {
      EncodeAllFailsFirst(table, items, k);
    }
  }

  /** Both halves of a key/value pair encode. */
  predicate FieldEncodes(table: Table, f: Field)
    requires WellFormedTable(table)
  {
    Encode(table, f.key).Success? && Encode(table, f.val).Success?
  }

  /** What `encode_keyval` raises: the key's error, else the value's. */
  function FieldError(table: Table, f: Field): Error
    requires WellFormedTable(table) && !FieldEncodes(table, f)
  {
    if Encode(table, f.key).Failure? then Encode(table, f.key).error else Encode(table, f.val).error
  }

  /** A pair is the key's encoding then the value's; the key is encoded first. */
  lemma KeyvalEncoding(table: Table, f: Field)
    requires WellFormedTable(table)
    ensures EncodeField(table, f).Success? <==> FieldEncodes(table, f)
    ensures FieldEncodes(table, f) ==>
              EncodeField(table, f).value == Encode(table, f.key).value + Encode(table, f.val).value
    ensures !FieldEncodes(table, f) ==> EncodeField(table, f) == Failure(FieldError(table, f))
  {
  }

  /** What `encode_keyval` gives for each pair, in order. */
  function FieldOutcomes(table: Table, fields: seq<Field>): (r: seq<Result<bytes, Error>>)
    requires WellFormedTable(table)
    ensures |r| == |fields|
    ensures forall i | 0 <= i < |fields| :: r[i] == EncodeField(table, fields[i])
  {
    seq(|fields|, i requires 0 <= i < |fields| && WellFormedTable(table) => EncodeField(table, fields[i]))
  }

  predicate AllFieldsEncode(table: Table, fields: seq<Field>)
    requires WellFormedTable(table)
  {
    forall i | 0 <= i < |fields| :: FieldEncodes(table, fields[i])
  }

  /** Each pair's encoding: the key's bytes, then the value's. */
  function PairEncodings(table: Table, fields: seq<Field>): (r: seq<bytes>)
    requires WellFormedTable(table) && AllFieldsEncode(table, fields)
    ensures |r| == |fields|
    ensures forall i | 0 <= i < |fields| ::
              r[i] == Encode(table, fields[i].key).value + Encode(table, fields[i].val).value
  {
    seq(|fields|, i requires 0 <= i < |fields| && WellFormedTable(table) && AllFieldsEncode(table, fields) =>
                    Encode(table, fields[i].key).value + Encode(table, fields[i].val).value)
  }

  /** Pair `k` is the first one that raises. */
  predicate FieldFailsFirstAt(table: Table, fields: seq<Field>, k: int)
    requires WellFormedTable(table)
  {
    0 <= k < |fields| && !FieldEncodes(table, fields[k]) && AllFieldsEncode(table, fields[..k])
  }

  /** The pairs are encoded in order and the bytes joined. */
  lemma {:induction false} EncodeFieldsIsJoin(table: Table, fields: seq<Field>)
    requires WellFormedTable(table)
    ensures EncodeFields(table, fields) == Join(FieldOutcomes(table, fields))
    decreases |fields|
  {
    if |fields| > 0 {
      EncodeFieldsIsJoin(table, fields[1..]);
      assert FieldOutcomes(table, fields)[1..] == FieldOutcomes(table, fields[1..]);
    }
  }

  /** The pair outcomes all succeed exactly when every pair encodes, and then they are the pairs' bytes. */
  lemma FieldOutcomesSucceed(table: Table, fields: seq<Field>)
    requires WellFormedTable(table)
    ensures AllSucceed(FieldOutcomes(table, fields)) <==> AllFieldsEncode(table, fields)
    ensures AllFieldsEncode(table, fields) ==>
              Successes(FieldOutcomes(table, fields)) == PairEncodings(table, fields)
  {
    var rs := FieldOutcomes(table, fields);
    forall i | 0 <= i < |fields|
      ensures rs[i].Success? <==> FieldEncodes(table, fields[i])
      ensures FieldEncodes(table, fields[i]) ==>
                rs[i].value == Encode(table, fields[i].key).value + Encode(table, fields[i].val).value
    {
      KeyvalEncoding(table, fields[i]);
    }
  }

  /**
   * Joining the pairs succeeds exactly when every pair encodes, and then
   * yields key and value encodings alternating in `items()` order.
   */
  lemma EncodeFieldsJoins(table: Table, fields: seq<Field>)
    requires WellFormedTable(table)
    ensures EncodeFields(table, fields).Success? <==> AllFieldsEncode(table, fields)
    ensures AllFieldsEncode(table, fields) ==>
              EncodeFields(table, fields).value == Flatten(PairEncodings(table, fields))
  {
    EncodeFieldsIsJoin(table, fields);
    FieldOutcomesSucceed(table, fields);
    JoinSucceeds(FieldOutcomes(table, fields));
  }

  /** Joining the pairs raises the first failing pair's error. */
  lemma EncodeFieldsFailsFirst(table: Table, fields: seq<Field>, k: int)
    requires WellFormedTable(table)
    requires FieldFailsFirstAt(table, fields, k)
    ensures EncodeFields(table, fields) == Failure(FieldError(table, fields[k]))
  {
    var rs := FieldOutcomes(table, fields);
    EncodeFieldsIsJoin(table, fields);
    FieldOutcomesSucceed(table, fields[..k]);
    assert rs[..k] == FieldOutcomes(table, fields[..k]);
    KeyvalEncoding(table, fields[k]);
    JoinFailsFirst(rs, k);
  }

  /** `encode_map` around whatever joining the pairs gave. */
  lemma MapRuleLayout(table: Table, entries: seq<Field>)
    requires WellFormedTable(table)
    ensures EncodeFields(table, entries).Failure? ==>
              EncodeMap(table, Dict(entries)) == Failure(EncodeFields(table, entries).error)
    ensures EncodeFields(table, entries).Success? ==>
              EncodeMap(table, Dict(entries)) ==
              Success((Tag(DictType), [Byte('M')] + EncodeFields(table, entries).value + [Byte('z')]))
  {
  }

  /**
   * A dict is `M`, its pairs' encodings in `items()` order and `z`, tagged
   * `map`; it encodes exactly when every pair does.
   */
  lemma MapEncoding(table: Table, entries: seq<Field>)
    requires WellFormedTable(table)
    ensures EncodeArg(table, Dict(entries)).Success? <==> AllFieldsEncode(table, entries)
    ensures AllFieldsEncode(table, entries) ==>
              EncodeArg(table, Dict(entries)).value ==
              (Tag(DictType), [Byte('M')] + Flatten(PairEncodings(table, entries)) + [Byte('z')])
  {
    Dispatched(table, Dict(entries));
    EncodeFieldsJoins(table, entries);
    MapRuleLayout(table, entries);
  }

  /** A dict raises the error of its first pair that raises. */
  lemma MapFailsFirst(table: Table, entries: seq<Field>, k: int)
    requires WellFormedTable(table) && FieldFailsFirstAt(table, entries, k)
    ensures EncodeArg(table, Dict(entries)) == Failure(FieldError(table, entries[k]))
  {
    Dispatched(table, Dict(entries));
    EncodeFieldsFailsFirst(table, entries, k);
    MapRuleLayout(table, entries);
  }

  /** `encode_mobject`: the type header first, then whatever joining the pairs gave. */
  lemma MObjectRuleLayout(table: Table, moduleName: bytes, name: bytes, fields: seq<Field>)
    requires WellFormedTable(table)
    ensures var qualified := moduleName + [Byte('.')] + name;
            var e := EncodeMObject(table, Object(moduleName, name, fields));
            && (|qualified| >= 0x1_0000 ==> e == Failure(PackOutOfRange))
            && (|qualified| < 0x1_0000 && EncodeFields(table, fields).Failure? ==>
                  e == Failure(EncodeFields(table, fields).error))
            && (|qualified| < 0x1_0000 && EncodeFields(table, fields).Success? ==>
                  && e.Success?
                  && var (tag, r) := e.value;
                     var pairs := EncodeFields(table, fields).value;
                     && tag == name
                     && |r| == 5 + |qualified| + |pairs|
                     && r[..2] == [Byte('M'), Byte('t')]
                     && FromBigEndian(r[2..4]) == |qualified|
                     && r[4..4 + |qualified|] == qualified
                     && r[4 + |qualified|..|r| - 1] == pairs
                     && r[|r| - 1] == Byte('z'))
  {
    PackWidths();
    var qualified := moduleName + [Byte('.')] + name;
    assert QualifiedName(moduleName, name) == qualified;
    if |qualified| < 0x1_0000 && EncodeFields(table, fields).Success? {
      var pairs := EncodeFields(table, fields).value;
      var n := PackU16(|qualified|).value;
      var r := [Byte('M')] + ([Byte('t')] + n + qualified) + pairs + [Byte('z')];
      assert ObjectFrame([Byte('t')] + n + qualified, pairs) == r;
      assert r[2..4] == n;
      assert r[4..4 + |qualified|] == qualified;
      assert r[4 + |qualified|..|r| - 1] == pairs;
    }
  }

  /**
   * An instance of an `Object` subclass is handled by the `Object` rule: `M`,
   * `t`, the 16-bit length of `module.Name`, that qualified name, the state's
   * pairs and `z`, tagged with the bare class name rather than a
   * `RETURN_TYPES` entry.
   */
  lemma ObjectEncoding(table: Table, moduleName: bytes, name: bytes, fields: seq<Field>)
    requires WellFormedTable(table)
    ensures var qualified := moduleName + [Byte('.')] + name;
            var v := Object(moduleName, name, fields);
            && (EncodeArg(table, v).Success? <==>
                  |qualified| < 0x1_0000 && AllFieldsEncode(table, fields))
            && (EncodeArg(table, v).Success? ==>
                  var (tag, r) := EncodeArg(table, v).value;
                  var pairs := Flatten(PairEncodings(table, fields));
                  && tag == name
                  && |r| == 5 + |qualified| + |pairs|
                  && r[..2] == [Byte('M'), Byte('t')]
                  && FromBigEndian(r[2..4]) == |qualified|
                  && r[4..4 + |qualified|] == qualified
                  && r[4 + |qualified|..|r| - 1] == pairs
                  && r[|r| - 1] == Byte('z'))
  {
    Dispatched(table, Object(moduleName, name, fields));
    EncodeFieldsJoins(table, fields);
    MObjectRuleLayout(table, moduleName, name, fields);
  }

  /**
   * The type header is packed before any member is encoded: an over-long
   * qualified name raises whatever the state holds, and otherwise the first
   * failing pair's error is raised.
   */
  lemma ObjectFails(table: Table, moduleName: bytes, name: bytes, fields: seq<Field>, k: int)
    requires WellFormedTable(table)
    ensures var qualified := moduleName + [Byte('.')] + name;
            var v := Object(moduleName, name, fields);
            && (|qualified| >= 0x1_0000 ==> EncodeArg(table, v) == Failure(PackOutOfRange))
            && (|qualified| < 0x1_0000 && FieldFailsFirstAt(table, fields, k) ==>
                  EncodeArg(table, v) == Failure(FieldError(table, fields[k])))
  {
    Dispatched(table, Object(moduleName, name, fields));
    MObjectRuleLayout(table, moduleName, name, fields);
    if FieldFailsFirstAt(table, fields, k) {
      EncodeFieldsFailsFirst(table, fields, k);
    }
  }
}

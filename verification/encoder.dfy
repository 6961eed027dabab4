/**
 * The encoder: the registered (type, rule) pairs, the dispatch table
 * `sort_mro` builds from them, and `_encode` / `encode` / `encode_arg`,
 * which scan that table for the first type the value is an instance of
 * and apply its rule, recursing into members of composite values.
 */
module Encoder {
  import opened Wrappers
  import opened Bytes
  import opened PyTypes
  import opened Values
  import opened Wire
  import Dispatch

  /** The `encode_*` methods decorated with `encoder_for`. */
  datatype Rule =
    | NullRule | BooleanRule | IntRule | LongRule | DoubleRule | DateRule
    | UnicodeRule | StringRule | ListRule | TupleRule | MapRule
    | MObjectRule | RemoteRule | BinaryRule | CallRule

  /** A dispatch table: (type, rule) pairs scanned in order. */
  type Table = seq<(PyType, Rule)>

  /** The `encoder_for(type)` registrations, in the order the class body declares them. */
  function Registrations(): Table {
    [ (NoneType, NullRule), (BoolType, BooleanRule), (IntType, IntRule),
      (LongType, LongRule), (FloatType, DoubleRule), (DateTimeType, DateRule),
      (UnicodeType, UnicodeRule), (StrType, StringRule), (ListType, ListRule),
      (TupleType, TupleRule), (DictType, MapRule), (ObjectType, MObjectRule),
      (RemoteType, RemoteRule), (BinaryType, BinaryRule), (CallType, CallRule) ]
  }

  /** `sort_mro` over the Python 2 class hierarchy. */
  function SortRegistrations(regs: Table): Table {
    AncestorsAreStrict();
    Dispatch.SortMro(regs, Ancestors)
  }

  /** `_mustaine_encoders`: the registrations in dispatch order. */
  function Registry(): Table {
    SortRegistrations(Registrations())
  }

  /** The values a rule knows how to take apart. */
  predicate Accepts(rule: Rule, v: Value) {
    match rule
    case NullRule => v.Null?
    case BooleanRule => v.Bool?
    case IntRule => v.Int?
    case LongRule => v.Long?
    case DoubleRule => v.Double?
    case DateRule => v.Date?
    case UnicodeRule => v.Text?
    case StringRule => v.Str?
    case ListRule => v.List?
    case TupleRule => v.Tuple?
    case MapRule => v.Dict?
    case MObjectRule => v.Object?
    case RemoteRule => v.Remote?
    case BinaryRule => v.Binary?
    case CallRule => v.Call?
  }

  /** The registered type whose rule must handle `v`, if any. */
  function HandlerType(v: Value): Option<PyType> {
    match v
    case Object(_, _, _) => Some(ObjectType)
    case Other(_) => None
    case _ => Some(TypeOf(v))
  }

  /** The types that have an `encoder_for` registration. */
  predicate IsRegistered(t: PyType) {
    !(t.ObjectRoot? || t.DateType? || t.BaseStringType? || t.ObjectSubclass? || t.OtherClass?)
  }

  /** The rule registered for a type. */
  function RuleFor(t: PyType): Rule
    requires IsRegistered(t)
  {
    match t
    case NoneType => NullRule
    case BoolType => BooleanRule
    case IntType => IntRule
    case LongType => LongRule
    case FloatType => DoubleRule
    case DateTimeType => DateRule
    case UnicodeType => UnicodeRule
    case StrType => StringRule
    case ListType => ListRule
    case TupleType => TupleRule
    case DictType => MapRule
    case ObjectType => MObjectRule
    case RemoteType => RemoteRule
    case BinaryType => BinaryRule
    case CallType => CallRule
  }

  /** Every registration pairs a registered type with its rule. */
  lemma RegistrationsAreConsistent()
    ensures forall i | 0 <= i < |Registrations()| ::
              IsRegistered(Registrations()[i].0) && Registrations()[i].1 == RuleFor(Registrations()[i].0)
  {
  }

  /** Every registered type has a registration. */
  lemma RegistrationsAreComplete(t: PyType)
    requires IsRegistered(t)
    ensures (t, RuleFor(t)) in Registrations()
  {
  }

  /** The rule registered for a value's handler type accepts the value. */
  lemma HandlerAccepts(v: Value)
    requires HandlerType(v).Some?
    ensures IsRegistered(HandlerType(v).value)
    ensures Accepts(RuleFor(HandlerType(v).value), v)
  {
  }

  /** The facts the dispatch relies on, for `sort_mro` of any consistent, complete registrations. */
  lemma SortedIsWellFormed(regs: Table)
    requires forall i | 0 <= i < |regs| :: IsRegistered(regs[i].0) && regs[i].1 == RuleFor(regs[i].0)
    requires forall t | IsRegistered(t) :: (t, RuleFor(t)) in regs
    ensures WellFormedTable(SortRegistrations(regs))
  {
    var order := SortRegistrations(regs);
    forall i | 0 <= i < |order|
      ensures IsRegistered(order[i].0) && order[i].1 == RuleFor(order[i].0)
    {
      var j :| 0 <= j < |regs| && regs[j] == order[i];
    }
    forall t | IsRegistered(t)
      ensures t in Dispatch.TypesOf(order)
    {
      assert (t, RuleFor(t)) in regs;
    }
  }

  /** What `SortMro` promises of the concrete table. */
  lemma RegistryFacts()
    ensures WellFormedTable(Registry())
  {
    RegistrationsAreConsistent();
    forall t | IsRegistered(t)
      ensures (t, RuleFor(t)) in Registrations()
    {
      RegistrationsAreComplete(t);
    }
    SortedIsWellFormed(Registrations());
  }

  /** The position of a registered type in the dispatch table. */
  lemma IndexOfType(order: Table, t: PyType) returns (k: nat)
    requires t in Dispatch.TypesOf(order)
    ensures k < |order| && order[k].0 == t
  {
    var ts := Dispatch.TypesOf(order);
    k :| 0 <= k < |ts| && ts[k] == t;
  }

  /** A type that neither is nor derives from a registered type matches no entry. */
  lemma DispatchUnregistered(order: Table, x: PyType)
    requires forall i | 0 <= i < |order| :: IsRegistered(order[i].0)
    requires !IsRegistered(x) && forall a | a in Ancestors(x) :: !IsRegistered(a)
    ensures Dispatch.FirstMatch(order, x, Ancestors).None?
  {
  }

  /** A type whose only registered relative is the ancestor `h` is dispatched to `h`'s entry. */
  lemma DispatchInherited(order: Table, x: PyType, h: PyType)
    requires forall i | 0 <= i < |order| :: IsRegistered(order[i].0)
    requires h in Dispatch.TypesOf(order) && h in Ancestors(x)
    requires forall a | a in Ancestors(x) && IsRegistered(a) :: a == h
    requires !IsRegistered(x)
    ensures var m := Dispatch.FirstMatch(order, x, Ancestors);
            m.Some? && order[m.value].0 == h
  {
    var k := IndexOfType(order, h);
    assert Dispatch.IsInstance(x, order[k].0, Ancestors);
    var m := Dispatch.FirstMatch(order, x, Ancestors).value;
    assert IsRegistered(order[m].0);
  }

  /** The facts about the dispatch table that resolving a value relies on. */
  ghost predicate WellFormedTable(order: Table) {
    && Dispatch.DescendantsFirst(order, Ancestors)
    && Dispatch.Distinct(Dispatch.TypesOf(order))
    && (forall i | 0 <= i < |order| :: IsRegistered(order[i].0) && order[i].1 == RuleFor(order[i].0))
    && (forall t | IsRegistered(t) :: t in Dispatch.TypesOf(order))
  }

  /** A value with a handler type is dispatched to that type's entry. */
  lemma MatchFound(order: Table, v: Value)
    requires WellFormedTable(order)
    requires HandlerType(v).Some?
    ensures var m := Dispatch.FirstMatch(order, TypeOf(v), Ancestors);
            m.Some? && order[m.value].0 == HandlerType(v).value
  {
    if v.Object? {
      SubclassMatch(order, v.moduleName, v.name);
    } else {
      OwnTypeMatch(order, TypeOf(v));
    }
  }

  /** An `Object` subclass is dispatched to the `Object` entry, its only registered ancestor. */
  lemma SubclassMatch(order: Table, moduleName: bytes, name: bytes)
    requires WellFormedTable(order)
    ensures var m := Dispatch.FirstMatch(order, ObjectSubclass(moduleName, name), Ancestors);
            m.Some? && order[m.value].0 == ObjectType
  {
    var x := ObjectSubclass(moduleName, name);
    assert Ancestors(x) == {ObjectType, ObjectRoot};
    assert IsRegistered(ObjectType) && !IsRegistered(ObjectRoot) && !IsRegistered(x);
    DispatchInherited(order, x, ObjectType);
  }

  /** A registered type is dispatched to its own entry. */
  lemma OwnTypeMatch(order: Table, t: PyType)
    requires WellFormedTable(order) && IsRegistered(t)
    ensures var m := Dispatch.FirstMatch(order, t, Ancestors);
            m.Some? && order[m.value].0 == t
  {
    var k := IndexOfType(order, t);
    Dispatch.OwnTypeMatchesFirst(order, t, Ancestors, k);
  }

  /** `bool` is scanned before its base `int`, so a bool never reaches the int rule. */
  lemma BoolBeforeInt(order: Table) returns (b: nat, i: nat)
    requires WellFormedTable(order)
    ensures b < i < |order| && order[b].0 == BoolType && order[i].0 == IntType
  {
    b := IndexOfType(order, BoolType);
    i := IndexOfType(order, IntType);
  }

  /**
   * The scan finds an entry exactly when the value has a handler type, and
   * then it is that type's entry, whose rule accepts the value.
   */
  lemma ResolvesIn(order: Table, v: Value)
    requires WellFormedTable(order)
    ensures var m := Dispatch.FirstMatch(order, TypeOf(v), Ancestors);
            && (m.None? <==> HandlerType(v).None?)
            && (m.Some? ==> order[m.value].0 == HandlerType(v).value)
            && (m.Some? ==> order[m.value].1 == RuleFor(HandlerType(v).value))
            && (m.Some? ==> Accepts(order[m.value].1, v))
  {
    if v.Other? {
      DispatchUnregistered(order, TypeOf(v));
    } else {
      MatchFound(order, v);
      HandlerAccepts(v);
    }
  }

  /** The `RETURN_TYPES` entry of a type, as bytes; empty for a type without one. */
  function Tag(t: PyType): bytes {
    match ReturnType(t)
    case Some(name) => ReturnTypesAreAscii(t); Ascii(name)
    case None => []
  }

  /**
   * Every registered type but `Object` has a tag and no other type has one;
   * `str` and `unicode` share the tag `string`, `list` and `tuple` share
   * `list`, and a `dict` is tagged `map`.
   */
  lemma TaggedTypes(t: PyType)
    ensures Tag(t) != [] <==> IsRegistered(t) && t != ObjectType
    ensures t == StrType || t == UnicodeType ==> Tag(t) == Ascii("string")
    ensures t == ListType || t == TupleType ==> Tag(t) == Ascii("list")
    ensures t == DictType ==> Tag(t) == Ascii("map")
  {
  }

  /** `encoder_for`'s wrapper: pairs the rule's bytes with the type's tag. */
  function Tagged(t: PyType, r: Result<bytes, Error>): Result<(bytes, bytes), Error> {
    var b :- r;
    Success((Tag(t), b))
  }

  /** `encode`: the bytes of `_encode`. */
  function Encode(table: Table, v: Value): Result<bytes, Error>
    requires WellFormedTable(table)
    decreases v, 3
  {
    var p :- EncodeArg(table, v);
    Success(p.1)
  }

  /** `encode_arg` / `_encode`: the first matching rule's (tag, bytes). */
  function EncodeArg(table: Table, v: Value): Result<(bytes, bytes), Error>
    requires WellFormedTable(table)
    decreases v, 2
  {
    ResolvesIn(table, v);
    match Dispatch.FirstMatch(table, TypeOf(v), Ancestors)
    case None => Failure(UnsupportedType(TypeOf(v)))
    case Some(i) => Apply(table, table[i].1, v)
  }

  /** The rules that do not encode other values. */
  predicate IsLeafRule(rule: Rule) {
    !(rule.ListRule? || rule.TupleRule? || rule.MapRule? || rule.MObjectRule? || rule.CallRule?)
  }

  /** Invokes one rule that does not recurse. */
  function ApplyLeaf(rule: Rule, v: Value): Result<(bytes, bytes), Error>
    requires Accepts(rule, v) && IsLeafRule(rule)
  {
    match rule
    case NullRule => Tagged(NoneType, Success(EncodeNull()))
    case BooleanRule => Tagged(BoolType, Success(EncodeBoolean(v.b)))
    case IntRule => Tagged(IntType, EncodeInt(v.i))
    case LongRule => Tagged(LongType, EncodeLong(v.l))
    case DoubleRule => Tagged(FloatType, Success(EncodeDouble(v.bits)))
    case DateRule => Tagged(DateTimeType, EncodeDate(v.seconds))
    case UnicodeRule => Tagged(UnicodeType, Success(EncodeUnicode(v.chars)))
    case StringRule => Tagged(StrType, EncodeString(v.data))
    case BinaryRule => Tagged(BinaryType, Success(EncodeBinary(v.data)))
    case RemoteRule => Tagged(RemoteType, EncodeRemote(v.typeName, v.url))
  }

  /** Invokes one rule. */
  function Apply(table: Table, rule: Rule, v: Value): Result<(bytes, bytes), Error>
    requires WellFormedTable(table) && Accepts(rule, v)
    decreases v, 1
  {
    match rule
    case ListRule => EncodeList(table, v)
    case TupleRule => EncodeTuple(table, v)
    case MapRule => EncodeMap(table, v)
    case MObjectRule => EncodeMObject(table, v)
    case CallRule => EncodeCall(table, v)
    case _ => ApplyLeaf(rule, v)
  }

  /** `encode_list`. */
  function EncodeList(table: Table, v: Value): Result<(bytes, bytes), Error>
    requires WellFormedTable(table) && v.List?
    decreases v, 0
  {
    var members :- EncodeAll(table, v.items);
    Tagged(ListType, Success(ListFrame(members)))
  }

  /** `encode_tuple`. */
  function EncodeTuple(table: Table, v: Value): Result<(bytes, bytes), Error>
    requires WellFormedTable(table) && v.Tuple?
    decreases v, 0
  {
    var members :- EncodeAll(table, v.items);
    Tagged(TupleType, TupleFrame(|v.items|, members))
  }

  /** `encode_map`. */
  function EncodeMap(table: Table, v: Value): Result<(bytes, bytes), Error>
    requires WellFormedTable(table) && v.Dict?
    decreases v, 0
  {
    var pairs :- EncodeFields(table, v.entries);
    Tagged(DictType, Success(MapFrame(pairs)))
  }

  /** `encode_mobject`: tagged with the class's own name. */
  function EncodeMObject(table: Table, v: Value): Result<(bytes, bytes), Error>
    requires WellFormedTable(table) && v.Object?
    decreases v, 0
  {
    var objectType :- Wire.ObjectType(v.moduleName, v.name);
    var pairs :- EncodeFields(table, v.fields);
    Success((v.name, ObjectFrame(objectType, pairs)))
  }

  /** `encode_call`: the headers, then the arguments, then the frame. */
  function EncodeCall(table: Table, v: Value): Result<(bytes, bytes), Error>
    requires WellFormedTable(table) && v.Call?
    decreases v, 0
  {
    var headers :- EncodeHeaders(table, v.headers);
    var named :- CallArgs(table, v.args, v.overload, v.methodName, []);
    Tagged(CallType, CallFrame(v.version, headers, named.0, named.1))
  }

  /** `reduce(operator.add, map(self.encode, obj), b'')`. */
  function EncodeAll(table: Table, items: seq<Value>): Result<bytes, Error>
    requires WellFormedTable(table)
    decreases items, 0
  {
    if |items| == 0 then Success([])
    else
      var first :- Encode(table, items[0]);
      var rest :- EncodeAll(table, items[1..]);
      Success(first + rest)
  }

  /** `encode_keyval`. */
  function EncodeField(table: Table, f: Field): Result<bytes, Error>
    requires WellFormedTable(table)
    decreases f, 0
  {
    var key :- Encode(table, f.key);
    var val :- Encode(table, f.val);
    Success(key + val)
  }

  /** `reduce(operator.add, map(self.encode_keyval, obj.items()), b'')`. */
  function EncodeFields(table: Table, fields: seq<Field>): Result<bytes, Error>
    requires WellFormedTable(table)
    decreases fields, 0
  {
    if |fields| == 0 then Success([])
    else
      var first :- EncodeField(table, fields[0]);
      var rest :- EncodeFields(table, fields[1..]);
      Success(first + rest)
  }

  /** One pass of the header loop of `encode_call`. */
  function EncodeHeader(table: Table, h: Field): Result<bytes, Error>
    requires WellFormedTable(table)
    decreases h, 0
  {
    if !h.key.Str? then Failure(HeaderKeyNotString)
    else
      var n :- Packed(PackU16(|h.key.data|));
      var value :- Encode(table, h.val);
      Success([Byte('H')] + n + h.key.data + value)
  }

  /** The header loop of `encode_call`. */
  function EncodeHeaders(table: Table, headers: seq<Field>): Result<bytes, Error>
    requires WellFormedTable(table)
    decreases headers, 0
  {
    if |headers| == 0 then Success([])
    else
      var first :- EncodeHeader(table, headers[0]);
      var rest :- EncodeHeaders(table, headers[1..]);
      Success(first + rest)
  }

  /**
   * The argument loop of `encode_call`, carrying the method name and the
   * argument bytes written so far: each argument's tag extends the name
   * when `overload` is set, and its bytes extend the arguments.
   */
  function CallArgs(table: Table, args: seq<Value>, overload: bool, methodName: bytes, arguments: bytes)
    : Result<(bytes, bytes), Error>
    requires WellFormedTable(table)
    decreases args, 0
  {
    if |args| == 0 then Success((methodName, arguments))
    else
      var p :- EncodeArg(table, args[0]);
      var name := if overload then methodName + [Byte('_')] + p.0 else methodName;
      CallArgs(table, args[1..], overload, name, arguments + p.1)
  }

  /**
   * `_encode` applies the rule registered for the value's own type (for a
   * typed object, the `Object` rule) and raises when there is none.
   */
  lemma Dispatched(table: Table, v: Value)
    requires WellFormedTable(table)
    ensures HandlerType(v).None? ==> EncodeArg(table, v) == Failure(UnsupportedType(TypeOf(v)))
    ensures HandlerType(v).Some? ==>
              && IsRegistered(HandlerType(v).value)
              && Accepts(RuleFor(HandlerType(v).value), v)
              && EncodeArg(table, v) == Apply(table, RuleFor(HandlerType(v).value), v)
  {
    ResolvesIn(table, v);
    if HandlerType(v).Some? {
      HandlerAccepts(v);
    }
  }

  /** A value handled by a non-recursive rule gets exactly that rule's output. */
  lemma LeafDispatched(table: Table, v: Value)
    requires WellFormedTable(table)
    requires HandlerType(v).Some? && IsLeafRule(RuleFor(HandlerType(v).value))
    ensures Accepts(RuleFor(HandlerType(v).value), v)
    ensures EncodeArg(table, v) == ApplyLeaf(RuleFor(HandlerType(v).value), v)
  {
    Dispatched(table, v);
  }

  /** `encode_object`: a fresh encoder, whose table is the sorted registrations. */
  function EncodeObject(v: Value): Result<bytes, Error> {
    RegistryFacts();
    Encode(Registry(), v)
  }
}

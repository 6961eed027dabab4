/**
 * The Python 2 classes the encoder dispatches on, with their proper
 * ancestors (`cls.mro()[1:]`), and the `RETURN_TYPES` tag table.
 */
module PyTypes {
  import opened Wrappers
  import opened Bytes
  import Dispatch

  datatype PyType =
    | ObjectRoot                              // object
    | NoneType
    | BoolType
    | IntType
    | LongType
    | FloatType
    | DateType                                // datetime.date
    | DateTimeType                            // datetime.datetime
    | BaseStringType
    | UnicodeType                             // six.text_type
    | StrType
    | ListType
    | TupleType
    | DictType
    | ObjectType                              // mustaine.protocol.Object
    | RemoteType                              // mustaine.protocol.Remote
    | BinaryType                              // mustaine.protocol.Binary
    | CallType                                // mustaine.protocol.Call
    | ObjectSubclass(moduleName: bytes, name: bytes)  // a user class deriving from Object
    | OtherClass(name: bytes)                 // any class deriving from object alone

  /** The proper ancestors of a class. */
  function Ancestors(t: PyType): set<PyType> {
    match t
    case ObjectRoot => {}
    case BoolType => {IntType, ObjectRoot}
    case DateTimeType => {DateType, ObjectRoot}
    case UnicodeType => {BaseStringType, ObjectRoot}
    case StrType => {BaseStringType, ObjectRoot}
    case ObjectSubclass(_, _) => {ObjectType, ObjectRoot}
    case _ => {ObjectRoot}
  }

  lemma AncestorsAreStrict()
    ensures Dispatch.StrictHierarchy(Ancestors)
  {
  }

  /** `RETURN_TYPES`: the tag `encoder_for` pairs with a rule's bytes; `None` for unlisted types. */
  function ReturnType(t: PyType): Option<string> {
    match t
    case NoneType => Some("null")
    case BoolType => Some("bool")
    case IntType => Some("int")
    case LongType => Some("long")
    case FloatType => Some("double")
    case DateTimeType => Some("date")
    case BinaryType => Some("binary")
    case RemoteType => Some("remote")
    case CallType => Some("call")
    case StrType => Some("string")
    case UnicodeType => Some("string")
    case ListType => Some("list")
    case TupleType => Some("list")
    case DictType => Some("map")
    case _ => None
  }

  /** The tags are ASCII, so `six.b` turns them into the same bytes. */
  lemma ReturnTypesAreAscii(t: PyType)
    ensures ReturnType(t).Some? ==> IsAsciiText(ReturnType(t).value)
  {
  }
}

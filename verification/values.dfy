/**
 * The values the encoder accepts, closed to the registered Python types,
 * and the errors it raises.
 */
module Values {
  import opened Bytes
  import Utf8
  import opened PyTypes

  /** The 64-bit IEEE-754 bit pattern of a Python float. */
  type Binary64 = n: nat | n < 0x1_0000_0000_0000_0000

  datatype Value =
    | Null
    | Bool(b: bool)
    | Int(i: int)                        // a Python 2 `int`
    | Long(l: int)                       // a Python 2 `long`
    | Double(bits: Binary64)
    | Date(seconds: int)                 // a datetime, as whole seconds since the UTC epoch
    | Text(chars: seq<Utf8.CodePoint>)   // `unicode`
    | Str(data: bytes)                   // a Python 2 byte `str`
    | Binary(data: bytes)                // mustaine.protocol.Binary
    | List(items: seq<Value>)
    | Tuple(items: seq<Value>)
    | Dict(entries: seq<Field>)          // in `items()` order
    | Object(moduleName: bytes, name: bytes, fields: seq<Field>)  // `__getstate__()` in order
    | Remote(typeName: bytes, url: bytes)
    | Call(methodName: bytes, args: seq<Value>, headers: seq<Field>, version: int, overload: bool)
    | Other(className: bytes)            // an instance of a class with no encoder

  /** A key and its value, from a dict's `items()`. */
  datatype Field = Field(key: Value, val: Value)

  /** `type(obj)`. */
  function TypeOf(v: Value): PyType {
    match v
    case Null => NoneType
    case Bool(_) => BoolType
    case Int(_) => IntType
    case Long(_) => LongType
    case Double(_) => FloatType
    case Date(_) => DateTimeType
    case Text(_) => UnicodeType
    case Str(_) => StrType
    case Binary(_) => BinaryType
    case List(_) => ListType
    case Tuple(_) => TupleType
    case Dict(_) => DictType
    case Object(m, n, _) => ObjectSubclass(m, n)
    case Remote(_, _) => RemoteType
    case Call(_, _, _, _, _) => CallType
    case Other(n) => OtherClass(n)
  }

  datatype Error =
    | UnsupportedType(t: PyType)   // no registered type matches (TypeError)
    | NonAsciiString               // a byte string holds a byte >= 0x80 (TypeError)
    | HeaderKeyNotString           // a call header key is not a `str` (TypeError)
    | PackOutOfRange               // `struct.pack` refused a value (struct.error)
    | ConcatenationTypeError       // `str + tuple` (TypeError)
}

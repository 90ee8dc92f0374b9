/**
 * Runtime values that arrive as keyword arguments of an RPC call and that
 * instances of a model carry as attributes.
 */
module Values {

  /** The exact runtime type of a value, as `type(v)` reports it. */
  datatype Kind =
    | IntType
    | StrType
    | BoolType
    | NoneType
    | DictType
    | ModelType(model: string)

  /** A dynamically typed value; `VObject` is an instance of a model class. */
  datatype Value =
    | VInt(i: int)
    | VStr(s: string)
    | VBool(b: bool)
    | VNone
    | VDict(entries: map<string, Value>)
    | VObject(model: string, id: int)

  function TypeOf(v: Value): Kind
  {
    match v
    case VInt(_) => IntType
    case VStr(_) => StrType
    case VBool(_) => BoolType
    case VNone => NoneType
    case VDict(_) => DictType
    case VObject(m, _) => ModelType(m)
  }

  /** Keyword arguments of a call: name to value. */
  type Kwargs = map<string, Value>

  /** The attributes of a model instance, which is also what a stored row holds. */
  type Row = map<string, Value>

  /** `getattr(instance, key)`: an attribute that was never set reads as None. */
  function Attr(row: Row, key: string): Value
  {
    if key in row then row[key] else VNone
  }
}

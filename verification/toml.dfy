/** The values `tomllib.load` hands to the configuration code, and the
    two Python judgements the validator makes about them: truthiness and
    `isinstance`. */
module Toml {
  import opened Wrappers
  import Dict
  import Text

  /** A TOML value as the Python object it loads to. Tables keep the
      order of their keys. */
  datatype Value =
    | Str(s: string)
    | Bool(b: bool)
    | Int(i: int)
    | Float(x: real)
    | List(items: seq<Value>)
    | Table(entries: Dict.Dict<string, Value>)

  /** Python truthiness: empty strings, containers, zero and `False` are
      falsy. */
  predicate Truthy(v: Value)
  {
    match v
    case Str(s) => |s| > 0
    case Bool(b) => b
    case Int(i) => i != 0
    case Float(x) => x != 0.0
    case List(items) => |items| > 0
    case Table(entries) => |entries| > 0
  }

  /** `type(v).__name__`. */
  function TypeName(v: Value): string
  {
    match v
    case Str(_) => "str"
    case Bool(_) => "bool"
    case Int(_) => "int"
    case Float(_) => "float"
    case List(_) => "list"
    case Table(_) => "dict"
  }

  /** `isinstance(v, int)`: `bool` is a subclass of `int`. */
  predicate IsInt(v: Value)
  {
    v.Int? || v.Bool?
  }

  /** `isinstance(v, (int, float))`. */
  predicate IsNumber(v: Value)
  {
    v.Int? || v.Bool? || v.Float?
  }

  /** The number a numeric value compares as; `True` is 1. */
  function NumberOf(v: Value): real
    requires IsNumber(v)
  {
    match v
    case Int(i) => i as real
    case Bool(b) => if b then 1.0 else 0.0
    case Float(x) => x
  }

  /** `key in v`: substring for strings, element for lists, key for
      tables; numbers and booleans are not iterable and give `None`. */
  function Member(key: string, v: Value): Option<bool>
  {
    match v
    case Str(s) => Some(Text.Contains(s, key))
    case List(items) => Some(Str(key) in items)
    case Table(entries) => Some(Dict.HasKey(entries, key))
    case _ => None
  }
}

/** Shared vocabulary of the model: bytes, optional values, and the JSON values
    that Python's `json.loads` produces. The JSON library itself is not modelled:
    parsing and serialising are passed around as oracle functions. */
module Base {

  /** One octet of a TCP byte stream. */
  newtype byte = x: int | 0 <= x < 256

  datatype Option<+T> = None | Some(value: T)

  /** A JSON value as `json.loads` returns it: `null`, booleans, integers and
      floats are distinct Python objects, objects become dicts. */
  datatype Json =
    | JNull
    | JBool(b: bool)
    | JInt(i: int)
    | JFloat(f: real)
    | JStr(s: string)
    | JArr(items: seq<Json>)
    | JObj(fields: map<string, Json>)

  /** Outcome of `json.loads(data.decode())`: a UTF-8 decode error and a JSON
      syntax error are both reported as `DecodeError`. */
  datatype Parse = Parsed(value: Json) | DecodeError

  /** Python truthiness of a decoded JSON value (`if key_data:`). */
  predicate Truthy(v: Json)
  {
    match v
    case JNull => false
    case JBool(b) => b
    case JInt(i) => i != 0
    case JFloat(f) => f != 0.0
    case JStr(s) => s != []
    case JArr(items) => items != []
    case JObj(fields) => fields != map[]
  }

  /** `d.get(key, default)` on a dict. */
  function GetOr(fields: map<string, Json>, key: string, default: Json): Json
  {
    if key in fields then fields[key] else default
  }

  /** The number a JSON value stands for in Python arithmetic (`bool` is a
      subclass of `int`); `None` where `*` or `/` would raise or misbehave. */
  function AsNumber(v: Json): Option<real>
  {
    match v
    case JBool(b) => Some(if b then 1.0 else 0.0)
    case JInt(i) => Some(i as real)
    case JFloat(f) => Some(f)
    case _ => None
  }
}

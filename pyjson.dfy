/**
 * Decoded JSON request bodies as Python's `json` module hands them to the
 * view function, and the three Python operations the view applies to them:
 * truth value (`not data`), membership (`'text' in data`) and subscription
 * (`data['text']`).
 */
module PyJson {

  /** A decoded JSON value: `None`, `bool`, `int`/`float`, `str`, `list`, `dict`. */
  datatype Json =
    | JNull
    | JBool(b: bool)
    | JNumber(n: real)
    | JString(s: string)
    | JArray(elems: seq<Json>)
    | JObject(fields: map<string, Json>)

  /** The exceptions a Python operation on a decoded value can raise. */
  datatype PyError =
    | TypeError  // the operand does not support the operation
    | KeyError   // a dictionary has no such key

  /** The result of a Python operation: a value, or the exception it raised. */
  datatype PyResult<+T> = Value(value: T) | Raise(error: PyError)

  /** Python's truth value `bool(v)`: empty containers, zero and `None` are false. */
  predicate Truthy(v: Json)
  {
    match v
    case JNull => false
    case JBool(b) => b
    case JNumber(n) => n != 0.0
    case JString(s) => s != ""
    case JArray(a) => |a| != 0
    case JObject(m) => |m| != 0
  }

  /** `needle` occurs in `hay` as a contiguous run of characters. */
  predicate IsSubstring(needle: string, hay: string)
  {
    exists i :: 0 <= i <= |hay| && needle <= hay[i..]
  }

  /**
   * Python's `key in v`: key membership for a dict, element equality for a
   * list, substring search for a str; any other value is not iterable.
   */
  function PyIn(key: string, v: Json): (r: PyResult<bool>)
    ensures r.Raise? <==> v.JNull? || v.JBool? || v.JNumber?
    ensures r.Raise? ==> r.error == TypeError
    ensures v.JObject? ==> r == Value(key in v.fields)
    ensures v.JArray? ==> r == Value(exists i :: 0 <= i < |v.elems| && v.elems[i] == JString(key))
    ensures v.JString? ==> r == Value(exists i :: 0 <= i <= |v.s| && key <= v.s[i..])
  {
    match v
    case JObject(m) => Value(key in m)
    case JArray(a) => Value(JString(key) in a)
    case JString(s) => Value(IsSubstring(key, s))
    case _ => Raise(TypeError)
  }

  /**
   * Python's `v[key]` with a string key: only a dict can be subscripted by a
   * string, and only at a key it holds.
   */
  function PySubscript(v: Json, key: string): (r: PyResult<Json>)
    ensures r.Value? <==> v.JObject? && key in v.fields
    ensures r.Value? ==> r.value == v.fields[key]
    ensures r.Raise? && v.JObject? ==> r.error == KeyError
    ensures !v.JObject? ==> r == Raise(TypeError)
  {
    match v
    case JObject(m) => if key in m then Value(m[key]) else Raise(KeyError)
    case _ => Raise(TypeError)
  }
}

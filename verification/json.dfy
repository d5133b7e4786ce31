/**
  Decoded JSON values, as Python's json module hands them to the gate, together with the two
  Python notions the gate applies to them: truthiness and `isinstance(x, int)`.
 */
module Json {

  datatype Json =
    | JNull
    | JBool(b: bool)
    | JInt(i: int)
    | JFloat(f: real)
    | JString(s: string)
    | JArray(items: seq<Json>)
    | JObject(fields: map<string, Json>)

  /** A decoded JSON object (a Python dict with string keys). */
  type Object = map<string, Json>

  /** Python truthiness: `if x:` succeeds. */
  predicate Truthy(j: Json) {
    match j
    case JNull => false
    case JBool(b) => b
    case JInt(i) => i != 0
    case JFloat(f) => f != 0.0
    case JString(s) => |s| > 0
    case JArray(items) => |items| > 0
    case JObject(fields) => |fields| > 0
  }

  /** Python can put the value into a set: lists and dicts are unhashable. */
  predicate Hashable(j: Json) {
    !j.JArray? && !j.JObject?
  }

  /** `isinstance(j, int)`: booleans are a subclass of int in Python. */
  predicate IsPythonInt(j: Json) {
    j.JInt? || j.JBool?
  }

  /** The integer Python compares when `j` is used as an int (`True` is 1, `False` is 0). */
  function IntValue(j: Json): (n: int)
    requires IsPythonInt(j)
    ensures j.JInt? ==> n == j.i
    ensures j.JBool? ==> (n == 1 <==> j.b) && (n == 0 <==> !j.b)
  {
    match j
    case JInt(i) => i
    case JBool(b) => if b then 1 else 0
  }
}

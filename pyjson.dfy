/** A parsed JSON value as `json.load` returns it, and the Python operations
    the configuration code applies to such values: truthiness, `dict.get`,
    the `in` operator, and equality with an `int` or a `str`. */
module PyJson {
  import opened Errors
  import opened PyStr

  /** JSON numbers are integers here; `None` is `JNull`. */
  datatype Json =
    | JNull
    | JBool(b: bool)
    | JNum(n: int)
    | JStr(s: string)
    | JArr(items: seq<Json>)
    | JObj(fields: map<string, Json>)

  /** Python truthiness (`if v:` / `if not v:`). */
  predicate Truthy(j: Json) {
    match j
    case JNull => false
    case JBool(b) => b
    case JNum(n) => n != 0
    case JStr(s) => s != ""
    case JArr(items) => items != []
    case JObj(m) => m != map[]
  }

  /** `j.get(key, default)`: the stored value when the key is present (even a
      stored `None`), `default` otherwise; `AttributeError` when `j` is not a
      dict. */
  function Get(j: Json, key: string, default: Json): (r: Result<Json>)
    ensures r.Success? <==> j.JObj?
    ensures r.Success? ==> r.value == if key in j.fields then j.fields[key] else default
  {
    match j
    case JObj(m) => Success(if key in m then m[key] else default)
    case _ => Failure(AttributeError)
  }

  /** `d.get(key, default)` on a dict already known to be one. */
  function Lookup(m: map<string, Json>, key: string, default: Json): Json {
    if key in m then m[key] else default
  }

  /** `key in j`: key membership for a dict, element equality for a list,
      substring for a str, and `TypeError` for a scalar. */
  function Contains(j: Json, key: string): (r: Result<bool>)
    ensures j.JObj? ==> r == Success(key in j.fields)
  {
    match j
    case JObj(m) => Success(key in m)
    case JArr(items) => Success(JStr(key) in items)
    case JStr(s) => Success(IsSubstring(key, s))
    case _ => Failure(TypeError)
  }

  /** `j == n` for an integer `n` (`True == 1` and `False == 0` in Python). */
  predicate EqInt(j: Json, n: int) {
    match j
    case JNum(m) => m == n
    case JBool(b) => (if b then 1 else 0) == n
    case _ => false
  }

  /** The string held by `j`, where the code calls a `str` method on it
      (`.encode`, `.strip`, `.startswith`); `AttributeError` otherwise. */
  function AsStr(j: Json): (r: Result<string>)
    ensures r.Success? <==> j.JStr?
    ensures r.Success? ==> r.value == j.s
  {
    match j
    case JStr(s) => Success(s)
    case _ => Failure(AttributeError)
  }

  /** The elements `for x in j` visits, where the loop body then calls
      `x.get`: a list yields its items; a dict or a str yields strings, so
      a non-empty one fails at the first `.get` with `AttributeError`; a
      scalar or `None` is not iterable (`TypeError`). */
  function DictItems(j: Json): (r: Result<seq<Json>>)
    ensures j.JArr? ==> r == Success(j.items)
  {
    match j
    case JArr(items) => Success(items)
    case JObj(m) => if m == map[] then Success([]) else Failure(AttributeError)
    case JStr(s) => if s == "" then Success([]) else Failure(AttributeError)
    case _ => Failure(TypeError)
  }
}

/**
 * Python values as the transcription script sees them, with the two
 * operations its conversion loop relies on: `dict.get` and a `for` loop over
 * a value whose elements are then asked for `.get`.
 */
module PyValues {

  /** A Python value: `None`, a bool, a number, a str, a list or a dict keyed by str. */
  datatype Value =
    | PyNone
    | PyBool(b: bool)
    | PyNum(n: real)
    | PyStr(s: string)
    | PyList(items: seq<Value>)
    | PyDict(entries: map<string, Value>)

  type Dict = map<string, Value>

  /** The exceptions the conversion loop can raise on ill-shaped input. */
  datatype Exception = TypeError | AttributeError

  /** The outcome of Python code that either returns a value or raises. */
  datatype Result<+T> = Ok(value: T) | Raised(exception: Exception)

  /**
   * `d.get(key, default)`: the stored value whenever the key is present,
   * even when that value is `None`; the default only for a missing key.
   */
  function Get(d: Dict, key: string, default: Value): Value {
    if key in d then d[key] else default
  }

  /**
   * The elements a `for x in v:` loop visits, where the loop body starts by
   * calling `x.get(...)`. A list yields its items. A str yields one-character
   * strs and a dict yields its str keys, so either is harmless when empty and
   * otherwise raises AttributeError at the first element, whatever the key
   * order. `None`, a bool or a number is not iterable: TypeError.
   */
  function Elements(v: Value): (r: Result<seq<Value>>)
    ensures r.Ok? && r.value != [] ==> v == PyList(r.value)
    ensures v.PyList? ==> r == Ok(v.items)
    ensures r.Ok? <==> v.PyList? || v == PyStr([]) || v == PyDict(map[])
    ensures r.Raised? ==> (r.exception == TypeError <==> v.PyNone? || v.PyBool? || v.PyNum?)
    ensures r.Raised? ==> (r.exception == AttributeError <==> v.PyStr? || v.PyDict?)
  {
    match v
    case PyList(items) => Ok(items)
    case PyStr(s) => if s == [] then Ok([]) else Raised(AttributeError)
    case PyDict(m) => if m == map[] then Ok([]) else Raised(AttributeError)
    case _ => Raised(TypeError)
  }

  /**
   * A Python loop that converts each element with `f` and appends the
   * result: it yields one converted element per input element, in order, or
   * the exception of the first element whose conversion raises.
   */
  function MapResults<T>(xs: seq<Value>, f: Value -> Result<T>): (r: Result<seq<T>>)
    ensures r.Ok? <==> forall i :: 0 <= i < |xs| ==> f(xs[i]).Ok?
    ensures r.Ok? ==> |r.value| == |xs| && forall i :: 0 <= i < |xs| ==> r.value[i] == f(xs[i]).value
    ensures r.Raised? ==>
      exists i :: (0 <= i < |xs| && f(xs[i]).Raised? && r.exception == f(xs[i]).exception
                   && forall j :: 0 <= j < i ==> f(xs[j]).Ok?)
    decreases |xs|
  {
    if xs == [] then Ok([])
    else
      match f(xs[0])
      case Raised(e) => Raised(e)
      case Ok(y) =>
        match MapResults(xs[1..], f)
        case Raised(e) => Raised(e)
        case Ok(ys) => Ok([y] + ys)
  }
}

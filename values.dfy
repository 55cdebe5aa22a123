/** Python value semantics the record store relies on: the values stored in
    records, their truthiness, `dict.get`, and the two exceptions the store
    raises. */
module PyValues {

  /** A field value or record key. `Null` is Python's `None`. */
  datatype Value = Null | Int(i: int) | Str(s: string)

  /** Python truthiness: `None`, `0` and `""` are false. */
  predicate Truthy(v: Value)
  {
    match v
    case Null => false
    case Int(i) => i != 0
    case Str(s) => s != ""
  }

  /** What insert stores for a supplied value: the value itself when it is
      truthy, `None` otherwise. */
  function Stored(v: Value): (r: Value)
    ensures Truthy(r) == Truthy(v)
  {
    if Truthy(v) then v else Null
  }

  /** A record as stored: field name to value. */
  type Row = map<string, Value>

  /** Python truthiness of a dict: an empty dict is false. */
  predicate RowTruthy(r: Row)
  {
    |r| != 0
  }

  /** `d.get(k)`: the value under `k`, or `None` when `k` is absent. */
  function Get(d: map<string, Value>, k: string): Value
  {
    if k in d then d[k] else Null
  }

  /** The exceptions the modelled operations raise. */
  datatype Error = ValueError | KeyError

  /** The outcome of an operation that returns nothing in Python. */
  datatype Outcome = Ok | Fail(error: Error)

  /** The outcome of an operation that returns a value in Python. */
  datatype Result<T> = Success(value: T) | Failure(error: Error)
}

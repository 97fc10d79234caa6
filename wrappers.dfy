/** Option and Result, standing for Python's `None` and for a raised exception. */
module Wrappers {

  datatype Option<+T> = None | Some(value: T)

  /** `Failure(e)` stands for the exception e being raised. */
  datatype Result<+R, +E> = Success(value: R) | Failure(error: E)

  /** The Python exceptions the modelled code raises. */
  datatype Exception = ValueError(message: string) | TypeError(message: string) | KeyError(key: int)

  /** Python's `x or ""` on an optional string. */
  function OrEmpty(o: Option<string>): (s: string)
    ensures o.None? ==> s == ""
    ensures o.Some? ==> s == o.value
  {
    match o
    case None => ""
    case Some(v) => v
  }

  /** Python truthiness of an optional string: neither `None` nor `""`. */
  predicate TruthyString(o: Option<string>) {
    o.Some? && o.value != ""
  }

  /** Python truthiness of an optional integer: neither `None` nor `0`. */
  predicate TruthyInt(o: Option<int>) {
    o.Some? && o.value != 0
  }
}

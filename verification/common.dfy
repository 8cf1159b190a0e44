/** Failure-carrying datatypes shared by every part of the model: `Option`
    for Python's `None`-or-value returns and `Result` for calls that either
    return a value or raise. */
module Common {

  datatype Option<+T> = None | Some(value: T) {
    /** The carried value, or `default` for `None` (Python's `dict.get(key, default)`). */
    function GetOr(default: T): T
    {
      if Some? then value else default
    }
  }

  datatype Result<+T, +E> = Ok(value: T) | Err(error: E)

  function Max(a: int, b: int): int
  {
    if a >= b then a else b
  }
}

/** The one failure-compatible wrapper the model needs: a value that may be absent
    (JavaScript's null, PHP's unset array key). */
module Common {

  datatype Option<+T> = None | Some(value: T)

  function Min(a: int, b: int): int
  {
    if a <= b then a else b
  }
}

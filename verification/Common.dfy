/** Small types shared by the component models. */
module Common {

  datatype Option<+T> = None | Some(value: T)

  /** Points in time and durations, in the clock's own unit. */
  type Time = int

  function Max(a: int, b: int): int {
    if a < b then b else a
  }
}

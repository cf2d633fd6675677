/** Small things that several programs share. */
module Common {
  datatype Option<T> = None | Some(value: T)

  /** Products grow with their first factor. */
  lemma Grows(a: int, b: int, r: int)
    requires a <= b && r > 0
    ensures a * r <= b * r
  {
  }

  /** A digit of a number to base 16 or less. */
  function Digit(d: int): char
    requires 0 <= d < 16
  {
    "0123456789abcdef"[d]
  }
}

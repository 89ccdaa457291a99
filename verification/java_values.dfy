/**
  Java value types the lab relies on: the 32-bit two's-complement `int`
  and nullable object references.
*/
module JavaValues {

  /** Java's `int`: the values a 32-bit two's-complement integer can hold. */
  type Int32 = x: int | -0x8000_0000 <= x < 0x8000_0000

  const IntMin: Int32 := -0x8000_0000
  const IntMax: Int32 := 0x7fff_ffff

  /** Java's `x++` on an `int`: adds one, wrapping from the largest value to the smallest. */
  function Inc32(x: Int32): (r: Int32)
    ensures (r - x - 1) % 0x1_0000_0000 == 0
    ensures x < IntMax ==> r > x
  {
    if x == IntMax then IntMin else x + 1
  }

  /** A nullable reference: `None` stands for Java's `null`. */
  datatype Option<+T> = None | Some(value: T)
}

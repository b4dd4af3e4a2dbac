/** What the other modules share. */
module Basics {

  const UINT32 := 0x1_0000_0000  // 2^32

  datatype Option<T> = None | Some(value: T)

  lemma MulOrder(a: int, b: int, c: int)
    requires 0 <= c
    ensures a <= b ==> a * c <= b * c
  {
    if a <= b {
      assert (b - a) * c >= 0;
    }
  }
}

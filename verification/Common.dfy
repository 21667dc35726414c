/** What several modules share. */
module Common {
  const WORD := 0x1_0000_0000     // one more than the largest 32-bit number
  const NULL: nat := 0

  datatype Option<+T> = None | Some(value: T)

  function Min(a: nat, b: nat): nat { if a < b then a else b }
}

// Values that several components share.
module Basics {

  const UINT32: nat := 0x1_0000_0000

  type uint32 = x: nat | x < UINT32

  datatype Option<+T> = None | Some(value: T)

  datatype Result<+T, +E> = Ok(value: T) | Err(error: E)

  function TwoTo(e: nat): (r: nat)
    ensures r >= 1
  {
    if e == 0 then 1 else 2 * TwoTo(e - 1)
  }
}

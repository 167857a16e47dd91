/** What the modules about machine words and addresses share. */
module Basics {
  const TWO16: int := 0x1_0000
  const TWO32: int := 0x1_0000_0000
  const TWO64: int := 0x1_0000_0000_0000_0000

  type Byte = b: int | 0 <= b < 256

  /** An unsigned 64-bit number. */
  type Addr = a: int | 0 <= a < TWO64

  datatype Option<T> = None | Some(value: T)

  /** 64-bit arithmetic wraps around. */
  function Wrap(x: int): Addr {
    x % TWO64
  }

  /** The ROUNDUP macro. */
  function RoundUp(x: nat, page: nat): nat
    requires page > 0
  {
    (x + page - 1) / page * page
  }
}

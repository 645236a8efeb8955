/** What several parts of the model share. */
module Basics {

  datatype Option<+T> = None | Some(value: T)

  function Max(a: int, b: int): int {
    if a < b then b else a
  }

  function Min(a: int, b: int): int {
    if a < b then a else b
  }

  // results of remote calls
  const SUCCESS := 0
  const INTERRUPTED := 2
  const COMMUNICATION := 3

  const PAGE_SIZE := 4096

  /** Values of an `unsigned`. */
  const UNSIGNED := 0x1_0000_0000

  /** One segment of a vectored write: an offset within the page and a length. */
  datatype Iovec = Iovec(base: nat, len: nat)
}

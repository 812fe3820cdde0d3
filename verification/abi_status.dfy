/** The status codes of the host-guest interface (abi/src/lib.rs). */
module AbiStatus {
  import opened Bytes

  const OK: i32 := 0
  const ERR_INVALID_ARG: i32 := 2
  const ERR_BUSY: i32 := 3
  const ERR_BOUNDS: i32 := 5
}

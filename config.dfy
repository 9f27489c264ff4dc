/** Types and constants shared by the thread runtime: rpthread.h and tcb.h. */
module Config {

  /** `uint8_t`, the width of `rpthread_t`, of a thread's priority and of its state. */
  newtype uint8 = x: int | 0 <= x < 256

  /** Length of a timeslice in milliseconds (the default of `TIMESLICE`). */
  const TIMESLICE: int := 5

  /** The state a new thread starts in; tcb.h numbers READY, BLOCKED and FINISHED 0, 1 and 2. */
  const READY: uint8 := 0

  /** An untyped C pointer (`void *`): NULL or some address the runtime never looks into. */
  datatype Ptr = Null | Address(addr: nat)

  /** The value C stores when an `int` is assigned to a `uint8_t`: the integer modulo 256. */
  function ToUint8(x: int): (r: uint8)
  {
    (x % 256) as uint8
  }
}

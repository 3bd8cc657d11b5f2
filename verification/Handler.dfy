// inc/handler.h, inc/exception_interface.h: what the stages of the chain have in common.
module Handlers {
  const MAX_BUF_SIZE: nat := 4096

  /** How a stage ends: normally, or by throwing an exception that Handle collects. */
  datatype Outcome = Done | Failed(msg: string)
}

/** How a call ends when it may panic, and values that may be missing. */
module Outcomes {
  datatype Outcome<+T> = Returned(value: T) | Panicked

  datatype Option<+T> = None | Some(value: T)
}

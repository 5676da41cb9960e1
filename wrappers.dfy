/** Failure-carrying results shared by the container modules. */
module Wrappers {

  datatype Option<+T> = None | Some(value: T)

  /** The error kinds the library's checked accessors throw. */
  datatype Error =
    | AccessOfDeletedElement   // stable_vector::at on an erased slot
    | OutOfRange               // std::vector::at past the end
    | KeyOutsideWindow         // sliding_window_map::at outside the window

  datatype Result<+T> = Ok(value: T) | Err(error: Error)
}

/** Option and Result values shared by the modules of this model. Result stands for
    "returned a value" versus "raised an exception carrying a message". */
module Wrappers {

  datatype Option<+T> = None | Some(value: T)

  datatype Result<+R, +E> = Success(value: R) | Failure(error: E)
}

/** The optional-value datatype the model uses for "no request is built". */
module Wrappers {

  datatype Option<+T> = None | Some(value: T)

}

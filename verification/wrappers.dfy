/** The optional-value datatype used throughout the model (a C++ `nullptr`
    string, an absent alpha buffer, a failed option parse). */
module Wrappers {

  datatype Option<+T> = None | Some(value: T)
}

/** The usual optional value, standing for a C# null or default(T) result. */
module Wrappers {

  datatype Option<+T> = None | Some(value: T)
}

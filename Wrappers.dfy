/** The Option datatype the rest of the model uses for C# nulls and for lookups that can miss. */
module Wrappers {
  datatype Option<+T> = None | Some(value: T)
}

/** Optional values, standing in for the `null` results of the modelled C# code. */
module Wrappers {

  datatype Option<+T> = None | Some(value: T)
}

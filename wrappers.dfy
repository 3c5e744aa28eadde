/** Optional values: Kotlin's nullable types (`String?`) and the library
    calls that either produce a value or throw. */
module Wrappers {

  datatype Option<+T> = None | Some(value: T)
}

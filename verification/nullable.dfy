/** Kotlin's nullable types `T?`: `None` plays the part of `null`. */
module Nullable {

  datatype Option<T> = None | Some(value: T)
}
